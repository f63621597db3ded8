/**
 What dispatch_metrics and create_metric send to collectd
 (kafka_disk.py:65-81): for every topic, a `kafka-disk-bytes` gauge and then
 a `kafka-num-logs` gauge, each preceded by a verbose info line when verbose
 logging is on. The collectd sink is an event log; the order in which the
 topics of the dictionary are visited is a parameter `order`.
 */
module Emission {
  import opened TopicNames
  import opened Aggregation

  const Plugin: string := "kafka-disk"
  const DiskBytes: string := "kafka-disk-bytes"
  const NumLogs: string := "kafka-num-logs"
  const Gauge: string := "gauge"

  /** The fields of one `collectd.Values(...)` object. */
  datatype Values = Values(plugin: string, pluginInstance: string, valueType: string,
                           typeInstance: string, value: nat)

  /** One call into collectd: a dispatched value, an info line or a warning. */
  datatype Event =
    | Dispatched(values: Values)
    | Info(message: string)
    | Warning(message: string)

  // ---------------------------------------------------------------------
  // Decimal text of a value, as `%s` writes an integer

  function Digit(d: nat): (c: char)
    requires d < 10
    ensures IsDigit(c) && c as int - '0' as int == d
  {
    ('0' as int + d) as char
  }

  /** The decimal digits of `n`, most significant first, without leading
      zeros. */
  function DecimalText(n: nat): string
  {
    if n < 10 then [Digit(n)] else DecimalText(n / 10) + [Digit(n % 10)]
  }

  /** The number a string of digits denotes. */
  function DecimalValue(t: string): nat
    requires AllDigits(t)
  {
    if t == [] then 0
    else DecimalValue(t[..|t| - 1]) * 10 + (t[|t| - 1] as int - '0' as int)
  }

  /** The text is a non-empty run of digits with no leading zero, and it
      reads back as the number written. */
  lemma {:induction false} DecimalRoundTrip(n: nat)
    ensures |DecimalText(n)| > 0 && AllDigits(DecimalText(n))
    ensures DecimalText(n)[0] == '0' <==> n == 0
    ensures DecimalValue(DecimalText(n)) == n
  {
    var t := DecimalText(n);
    if n >= 10 {
      DecimalRoundTrip(n / 10);
      var h := DecimalText(n / 10);
      assert t == h + [Digit(n % 10)];
      assert t[..|t| - 1] == h;
      assert t[0] == h[0];
    }
  }

  // ---------------------------------------------------------------------
  // One value, one topic, all topics

  /** The text create_metric hands to log_verbose for one value. */
  function SendingText(name: string, topic: string, value: nat): string
  {
    "Sending value gauge." + name + "[plugin_instance=" + topic + "]=" + DecimalText(value)
  }

  /** The info line log_verbose sends for a text. */
  function VerboseLine(msg: string): string
  {
    "kafka-disk plugin [verbose]: " + msg
  }

  /** The info line sent before one value when verbose logging is on. */
  function VerboseMessage(name: string, topic: string, value: nat): string
  {
    VerboseLine(SendingText(name, topic, value))
  }

  /** The gauge create_metric builds for one value. */
  function GaugeValue(name: string, topic: string, value: nat): Values
  {
    Values(Plugin, topic, Gauge, name, value)
  }

  /** `create_metric(name, topic, value).dispatch()`: the verbose line, if
      on, then the gauge. */
  function MetricEvents(name: string, topic: string, value: nat, verbose: bool): (events: seq<Event>)
    ensures |events| == if verbose then 2 else 1
    ensures events[|events| - 1] == Dispatched(GaugeValue(name, topic, value))
  {
    (if verbose then [Info(VerboseMessage(name, topic, value))] else [])
      + [Dispatched(GaugeValue(name, topic, value))]
  }

  /** The two values of one topic: bytes, then `.log` files. */
  function TopicEvents(topic: string, c: Counts, verbose: bool): seq<Event>
  {
    MetricEvents(DiskBytes, topic, c.bytes, verbose) + MetricEvents(NumLogs, topic, c.logs, verbose)
  }

  /** dispatch_metrics visiting the topics of `stats` in the order `order`:
      two events per topic, four with verbose logging on. */
  function Emitted(order: seq<string>, stats: Stats, verbose: bool): (events: seq<Event>)
    requires forall i :: 0 <= i < |order| ==> order[i] in stats
    ensures |events| == (if verbose then 4 else 2) * |order|
  {
    if order == [] then []
    else
      var t := order[|order| - 1];
      Emitted(order[..|order| - 1], stats, verbose) + TopicEvents(t, stats[t], verbose)
  }

  lemma EmittedSnoc(order: seq<string>, topic: string, stats: Stats, verbose: bool)
    requires forall i :: 0 <= i < |order| ==> order[i] in stats
    requires topic in stats
    ensures Emitted(order + [topic], stats, verbose)
         == Emitted(order, stats, verbose) + TopicEvents(topic, stats[topic], verbose)
  {
    assert (order + [topic])[..|order|] == order;
  }

  /** `order` visits every key of the dictionary exactly once. */
  ghost predicate IsOrderOf(order: seq<string>, keys: set<string>)
  {
    (forall i, j :: 0 <= i < j < |order| ==> order[i] != order[j])
    && (forall k :: k in order <==> k in keys)
  }

  /** Part way through the keys: `order` lists the keys visited so far,
      each once, and `remaining` the others. */
  ghost predicate VisitedSoFar(order: seq<string>, remaining: set<string>, keys: set<string>)
  {
    remaining <= keys
    && (forall i :: 0 <= i < |order| ==> order[i] in keys && order[i] !in remaining)
    && (forall i, j :: 0 <= i < j < |order| ==> order[i] != order[j])
    && (forall k :: k in keys && k !in remaining ==> k in order)
  }

  /** Visiting one more key keeps the order a partial order of the keys. */
  lemma VisitNext(order: seq<string>, remaining: set<string>, keys: set<string>, topic: string)
    requires VisitedSoFar(order, remaining, keys) && topic in remaining
    ensures VisitedSoFar(order + [topic], remaining - {topic}, keys)
  {
    var order' := order + [topic];
    forall k | k in keys && k !in remaining - {topic} ensures k in order' {
      if k != topic {
        assert k in order;
      }
      assert order'[|order|] == topic;
    }
  }

  /** Once nothing remains, the order visits every key once. */
  lemma VisitedAll(order: seq<string>, keys: set<string>)
    requires VisitedSoFar(order, {}, keys)
    ensures IsOrderOf(order, keys)
  {
  }

  /** The dispatched values among the events, in order. */
  function Dispatches(events: seq<Event>): seq<Values>
  {
    if events == [] then []
    else
      var last := events[|events| - 1];
      Dispatches(events[..|events| - 1]) + (if last.Dispatched? then [last.values] else [])
  }

  // ---------------------------------------------------------------------
  // Properties

  /** Without verbose logging there are exactly two events per topic: the
      byte gauge of the i-th topic at 2i and its `.log` count at 2i+1. */
  lemma {:induction false} EmissionQuiet(order: seq<string>, stats: Stats)
    requires forall i :: 0 <= i < |order| ==> order[i] in stats
    ensures |Emitted(order, stats, false)| == 2 * |order|
    ensures forall i :: 0 <= i < |order| ==>
      Emitted(order, stats, false)[2 * i] == Dispatched(GaugeValue(DiskBytes, order[i], stats[order[i]].bytes))
      && Emitted(order, stats, false)[2 * i + 1] == Dispatched(GaugeValue(NumLogs, order[i], stats[order[i]].logs))
  {
    if order != [] {
      var init := order[..|order| - 1];
      EmissionQuiet(init, stats);
      assert forall i :: 0 <= i < |init| ==> init[i] == order[i];
    }
  }

  /** The four events of the `i`-th topic in a verbose emission. */
  lemma {:induction false} VerboseAt(order: seq<string>, stats: Stats, i: nat)
    requires forall i :: 0 <= i < |order| ==> order[i] in stats
    requires i < |order|
    ensures |Emitted(order, stats, true)| == 4 * |order|
    ensures var es, t := Emitted(order, stats, true), order[i];
      es[4 * i] == Info(VerboseMessage(DiskBytes, t, stats[t].bytes))
      && es[4 * i + 1] == Dispatched(GaugeValue(DiskBytes, t, stats[t].bytes))
      && es[4 * i + 2] == Info(VerboseMessage(NumLogs, t, stats[t].logs))
      && es[4 * i + 3] == Dispatched(GaugeValue(NumLogs, t, stats[t].logs))
  {
    var init := order[..|order| - 1];
    if i < |init| {
      VerboseAt(init, stats, i);
      assert init[i] == order[i];
    }
  }

  /** With verbose logging every gauge is preceded by its info line: four
      events per topic. */
  lemma EmissionVerbose(order: seq<string>, stats: Stats)
    requires forall i :: 0 <= i < |order| ==> order[i] in stats
    ensures |Emitted(order, stats, true)| == 4 * |order|
    ensures forall i :: 0 <= i < |order| ==>
      var c := stats[order[i]];
      Emitted(order, stats, true)[4 * i] == Info(VerboseMessage(DiskBytes, order[i], c.bytes))
      && Emitted(order, stats, true)[4 * i + 1] == Dispatched(GaugeValue(DiskBytes, order[i], c.bytes))
      && Emitted(order, stats, true)[4 * i + 2] == Info(VerboseMessage(NumLogs, order[i], c.logs))
      && Emitted(order, stats, true)[4 * i + 3] == Dispatched(GaugeValue(NumLogs, order[i], c.logs))
  {
    forall i | 0 <= i < |order|
      ensures var c := stats[order[i]];
        Emitted(order, stats, true)[4 * i] == Info(VerboseMessage(DiskBytes, order[i], c.bytes))
        && Emitted(order, stats, true)[4 * i + 1] == Dispatched(GaugeValue(DiskBytes, order[i], c.bytes))
        && Emitted(order, stats, true)[4 * i + 2] == Info(VerboseMessage(NumLogs, order[i], c.logs))
        && Emitted(order, stats, true)[4 * i + 3] == Dispatched(GaugeValue(NumLogs, order[i], c.logs))
    {
      VerboseAt(order, stats, i);
    }
  }

  lemma {:induction false} DispatchesConcat(a: seq<Event>, b: seq<Event>)
    ensures Dispatches(a + b) == Dispatches(a) + Dispatches(b)
    decreases |b|
  {
    if b != [] {
      DispatchesConcat(a, b[..|b| - 1]);
      assert (a + b)[..|a + b| - 1] == a + b[..|b| - 1];
    } else {
      assert a + b == a;
    }
  }

  /** Verbose logging only adds info lines: the values dispatched are the
      same, in the same order. */
  lemma {:induction false} VerboseDispatchesSame(order: seq<string>, stats: Stats)
    requires forall i :: 0 <= i < |order| ==> order[i] in stats
    ensures Dispatches(Emitted(order, stats, true)) == Dispatches(Emitted(order, stats, false))
  {
    if order != [] {
      var init := order[..|order| - 1];
      var t := order[|order| - 1];
      VerboseDispatchesSame(init, stats);
      var c := stats[t];
      var bq, lq := [Dispatched(GaugeValue(DiskBytes, t, c.bytes))], [Dispatched(GaugeValue(NumLogs, t, c.logs))];
      var bi, li := [Info(VerboseMessage(DiskBytes, t, c.bytes))], [Info(VerboseMessage(NumLogs, t, c.logs))];
      assert TopicEvents(t, c, false) == bq + lq;
      assert TopicEvents(t, c, true) == bi + bq + (li + lq);
      DispatchesConcat(Emitted(init, stats, true), TopicEvents(t, c, true));
      DispatchesConcat(Emitted(init, stats, false), TopicEvents(t, c, false));
      DispatchesConcat(bi + bq, li + lq);
      DispatchesConcat(bi, bq);
      DispatchesConcat(li, lq);
      DispatchesConcat(bq, lq);
      assert Dispatches(bi) == [] && Dispatches(li) == [];
      assert Dispatches(bq) == [bq[0].values] && Dispatches(lq) == [lq[0].values];
    }
  }

  /** A list with no repeated element is as long as the set of its
      elements. */
  lemma {:induction false} DistinctLength(order: seq<string>)
    requires forall i, j :: 0 <= i < j < |order| ==> order[i] != order[j]
    ensures |set k | k in order| == |order|
  {
    if order != [] {
      var init, last := order[..|order| - 1], order[|order| - 1];
      DistinctLength(init);
      assert (set k | k in order) == (set k | k in init) + {last};
      assert last !in init;
    }
  }

  /** An order of the dictionary has one entry per key, so dispatch_metrics
      sends exactly 2 x (number of topics) values. */
  lemma OrderLength(order: seq<string>, stats: Stats)
    requires IsOrderOf(order, stats.Keys)
    ensures |order| == |stats|
    ensures |Emitted(order, stats, false)| == 2 * |stats|
  {
    DistinctLength(order);
    assert (set k | k in order) == stats.Keys;
    EmissionQuiet(order, stats);
  }


  /** Which of a topic's two gauges: the `.log` count or the bytes. */
  function GaugeName(logs: bool): string
  {
    if logs then NumLogs else DiskBytes
  }

  function GaugeOf(c: Counts, logs: bool): nat
  {
    if logs then c.logs else c.bytes
  }

  /** What sits at position `j` of a quiet emission: the byte gauge of
      topic `j / 2` at even positions, its `.log` count gauge at odd ones. */
  function QuietEvent(order: seq<string>, stats: Stats, j: nat): Event
    requires forall i :: 0 <= i < |order| ==> order[i] in stats
    requires j < 2 * |order|
  {
    var t := order[j / 2];
    Dispatched(GaugeValue(GaugeName(j % 2 == 1), t, GaugeOf(stats[t], j % 2 == 1)))
  }

  /** The event at position `j` of a quiet emission. */
  lemma EventAt(order: seq<string>, stats: Stats, j: nat)
    requires forall i :: 0 <= i < |order| ==> order[i] in stats
    requires j < 2 * |order|
    ensures |Emitted(order, stats, false)| == 2 * |order|
    ensures Emitted(order, stats, false)[j] == QuietEvent(order, stats, j)
  {
    EmissionQuiet(order, stats);
    var i := j / 2;
    if j % 2 == 0 {
      assert j == 2 * i;
    } else {
      assert j == 2 * i + 1;
    }
  }

  /** One gauge of a topic is among the events of a quiet emission exactly
      when the topic is in the dictionary, and then with that topic's
      value. */
  lemma GaugeAmong(es: seq<Event>, order: seq<string>, stats: Stats, topic: string, v: nat, logs: bool)
    requires IsOrderOf(order, stats.Keys)
    requires |es| == 2 * |order|
    requires forall j :: 0 <= j < |es| ==> es[j] == QuietEvent(order, stats, j)
    ensures Dispatched(GaugeValue(GaugeName(logs), topic, v)) in es
        <==> topic in stats && v == GaugeOf(stats[topic], logs)
  {
    var g := Dispatched(GaugeValue(GaugeName(logs), topic, v));
    if topic in stats && v == GaugeOf(stats[topic], logs) {
      assert topic in order;
      var i :| 0 <= i < |order| && order[i] == topic;
      var j := if logs then 2 * i + 1 else 2 * i;
      assert j / 2 == i && (j % 2 == 1 <==> logs);
      assert es[j] == g;
    }
    if g in es {
      var j :| 0 <= j < |es| && es[j] == g;
      assert es[j] == QuietEvent(order, stats, j);
    }
  }

  /** A value is dispatched by a sequence of events exactly when it is among
      the values that sequence dispatches. */
  lemma {:induction false} DispatchedAmong(es: seq<Event>, v: Values)
    ensures Dispatched(v) in es <==> v in Dispatches(es)
  {
    if es != [] {
      var init := es[..|es| - 1];
      DispatchedAmong(init, v);
      assert es == init + [es[|es| - 1]];
    }
  }

  /** A byte gauge for a topic is dispatched exactly when the topic is in
      the dictionary, and it carries that topic's bytes; likewise the
      `.log` count gauge. This holds with verbose logging on or off and for
      every order the dictionary may be iterated in. */
  lemma EmittedPerTopic(order: seq<string>, stats: Stats, verbose: bool, topic: string, v: nat)
    requires IsOrderOf(order, stats.Keys)
    ensures Dispatched(GaugeValue(DiskBytes, topic, v)) in Emitted(order, stats, verbose)
        <==> topic in stats && v == stats[topic].bytes
    ensures Dispatched(GaugeValue(NumLogs, topic, v)) in Emitted(order, stats, verbose)
        <==> topic in stats && v == stats[topic].logs
  {
    var es := Emitted(order, stats, false);
    forall j | 0 <= j < |es|
      ensures es[j] == QuietEvent(order, stats, j)
    {
      EventAt(order, stats, j);
    }
    GaugeAmong(es, order, stats, topic, v, false);
    GaugeAmong(es, order, stats, topic, v, true);
    if verbose {
      var loud := Emitted(order, stats, true);
      VerboseDispatchesSame(order, stats);
      DispatchedAmong(loud, GaugeValue(DiskBytes, topic, v));
      DispatchedAmong(es, GaugeValue(DiskBytes, topic, v));
      DispatchedAmong(loud, GaugeValue(NumLogs, topic, v));
      DispatchedAmong(es, GaugeValue(NumLogs, topic, v));
    }
  }
}
