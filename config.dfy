/**
 What configure_callback (kafka_disk.py:14-22) does with the plugin's
 configuration block: each child node in turn sets the log directories, sets
 verbose logging, or draws an "unknown key" warning. A node the code cannot
 read (no value, or a `LogDirs` value that is not text) raises, which ends
 the loop with the earlier assignments kept.
 */
module Config {

  datatype Option<T> = None | Some(value: T)

  /** A value of a collectd configuration node: a string, a number or a
      boolean. */
  datatype ConfigValue = Text(text: string) | Number(number: int) | Flag(flag: bool)

  /** One child of the configuration block. */
  datatype ConfigNode = ConfigNode(key: string, values: seq<ConfigValue>)

  /** The two fields configure_callback assigns. */
  datatype Settings = Settings(logdirs: Option<seq<string>>, verbose: bool)

  /** The exceptions a node can raise: `IndexError` for `values[0]` of an
      empty list, `AttributeError` for `.split` on a value that is not a
      string. */
  datatype ConfigError = MissingValue(key: string) | NotText(key: string)

  /** The settings after the loop, the warnings it sent, and the exception
      that ended it, if any. */
  datatype Outcome = Outcome(settings: Settings, warnings: seq<string>, error: Option<ConfigError>)

  // ---------------------------------------------------------------------
  // `str.split` on one separator character

  /** `s.split(sep)`: the pieces between separators, empty ones included. */
  function Split(s: string, sep: char): (parts: seq<string>)
    ensures |parts| >= 1
    ensures forall i :: 0 <= i < |parts| ==> sep !in parts[i]
  {
    if s == [] then [""]
    else
      var rest := Split(s[1..], sep);
      if s[0] == sep then [""] + rest
      else [[s[0]] + rest[0]] + rest[1..]
  }

  /** `sep.join(parts)`. */
  function Join(parts: seq<string>, sep: char): string
    requires |parts| >= 1
  {
    if |parts| == 1 then parts[0] else parts[0] + [sep] + Join(parts[1..], sep)
  }

  /** Splitting loses nothing: joining the pieces gives the text back. */
  lemma {:induction false} SplitJoin(s: string, sep: char)
    ensures Join(Split(s, sep), sep) == s
  {
    if s != [] {
      SplitJoin(s[1..], sep);
      var rest := Split(s[1..], sep);
      if s[0] == sep {
        assert Split(s, sep)[1..] == rest;
      } else {
        var parts := Split(s, sep);
        assert parts[0] == [s[0]] + rest[0] && parts[1..] == rest[1..];
        if |rest| > 1 {
          assert Join(rest, sep) == rest[0] + [sep] + Join(rest[1..], sep);
        }
        assert s == [s[0]] + s[1..];
      }
    }
  }

  /** A piece without the separator, then the separator, then the rest. */
  lemma {:induction false} SplitAfterPiece(p: string, rest: string, sep: char)
    requires sep !in p
    ensures Split(p + [sep] + rest, sep) == [p] + Split(rest, sep)
  {
    var s := p + [sep] + rest;
    if p != [] {
      SplitAfterPiece(p[1..], rest, sep);
      assert s[1..] == p[1..] + [sep] + rest;
      assert [p[0]] + p[1..] == p;
    } else {
      assert s[1..] == rest;
    }
  }

  /** A text without the separator is one piece. */
  lemma {:induction false} SplitWhole(p: string, sep: char)
    requires sep !in p
    ensures Split(p, sep) == [p]
  {
    if p != [] {
      SplitWhole(p[1..], sep);
      assert [p[0]] + p[1..] == p;
    }
  }

  /** Pieces free of the separator are recovered by splitting their join. */
  lemma {:induction false} JoinSplit(parts: seq<string>, sep: char)
    requires |parts| >= 1
    requires forall i :: 0 <= i < |parts| ==> sep !in parts[i]
    ensures Split(Join(parts, sep), sep) == parts
  {
    if |parts| == 1 {
      SplitWhole(parts[0], sep);
    } else {
      JoinSplit(parts[1..], sep);
      SplitAfterPiece(parts[0], Join(parts[1..], sep), sep);
      assert [parts[0]] + parts[1..] == parts;
    }
  }

  // ---------------------------------------------------------------------
  // One node, all nodes

  /** Python's `bool(value)`. */
  function Truthy(v: ConfigValue): bool
  {
    match v
    case Text(t) => t != ""
    case Number(n) => n != 0
    case Flag(b) => b
  }

  function UnknownKeyWarning(key: string): string
  {
    "kafka-disk plugin: Unknown config key: " + key + "."
  }

  /** What one iteration of the loop does. */
  datatype NodeResult = Applied(settings: Settings, warnings: seq<string>) | Failed(error: ConfigError)

  function ApplyNode(s: Settings, node: ConfigNode): NodeResult
  {
    if node.key == "LogDirs" then
      if node.values == [] then Failed(MissingValue(node.key))
      else if !node.values[0].Text? then Failed(NotText(node.key))
      else Applied(s.(logdirs := Some(Split(node.values[0].text, ','))), [])
    else if node.key == "Verbose" then
      if node.values == [] then Failed(MissingValue(node.key))
      else Applied(s.(verbose := Truthy(node.values[0])), [])
    else Applied(s, [UnknownKeyWarning(node.key)])
  }

  /** The loop over the children, in order, stopping at the first node that
      raises. */
  function Configure(s: Settings, nodes: seq<ConfigNode>): Outcome
    decreases |nodes|
  {
    if nodes == [] then Outcome(s, [], None)
    else
      match ApplyNode(s, nodes[0])
      case Failed(e) => Outcome(s, [], Some(e))
      case Applied(s', w) =>
        var o := Configure(s', nodes[1..]);
        Outcome(o.settings, w + o.warnings, o.error)
  }

  /** An outcome with the warnings `sent` earlier in front of its own. */
  function After(sent: seq<string>, o: Outcome): Outcome
  {
    Outcome(o.settings, sent + o.warnings, o.error)
  }

  /** Resuming the loop at node `i`, with `sent` already sent: a node that
      raises ends it there, any other node moves it on to node `i + 1`. */
  lemma ConfigureFrom(s: Settings, nodes: seq<ConfigNode>, i: nat, sent: seq<string>)
    requires i < |nodes|
    ensures ApplyNode(s, nodes[i]).Failed? ==>
      After(sent, Configure(s, nodes[i..])) == Outcome(s, sent, Some(ApplyNode(s, nodes[i]).error))
    ensures ApplyNode(s, nodes[i]).Applied? ==>
      var r := ApplyNode(s, nodes[i]);
      After(sent, Configure(s, nodes[i..])) == After(sent + r.warnings, Configure(r.settings, nodes[i + 1..]))
  {
    assert nodes[i..][0] == nodes[i] && nodes[i..][1..] == nodes[i + 1..];
    if ApplyNode(s, nodes[i]).Applied? {
      var r := ApplyNode(s, nodes[i]);
      var o := Configure(r.settings, nodes[i + 1..]);
      assert sent + (r.warnings + o.warnings) == sent + r.warnings + o.warnings;
    } else {
      assert sent + [] == sent;
    }
  }

  // ---------------------------------------------------------------------
  // An independent description of the loop

  /** The nodes the loop gets through without raising. */
  predicate Readable(node: ConfigNode)
  {
    (node.key == "LogDirs" ==> node.values != [] && node.values[0].Text?)
    && (node.key == "Verbose" ==> node.values != [])
  }

  predicate AllReadable(nodes: seq<ConfigNode>)
  {
    forall i :: 0 <= i < |nodes| ==> Readable(nodes[i])
  }

  /** The exception an unreadable node raises. */
  function ErrorOf(node: ConfigNode): ConfigError
  {
    if node.values == [] then MissingValue(node.key) else NotText(node.key)
  }

  /** The directories of the last `LogDirs` node, or `current` if none. */
  function LastLogDirs(nodes: seq<ConfigNode>, current: Option<seq<string>>): Option<seq<string>>
    requires AllReadable(nodes)
  {
    if nodes == [] then current
    else
      var last := nodes[|nodes| - 1];
      if last.key == "LogDirs" then Some(Split(last.values[0].text, ','))
      else LastLogDirs(nodes[..|nodes| - 1], current)
  }

  /** The truth of the last `Verbose` node, or `current` if none. */
  function LastVerbose(nodes: seq<ConfigNode>, current: bool): bool
    requires AllReadable(nodes)
  {
    if nodes == [] then current
    else
      var last := nodes[|nodes| - 1];
      if last.key == "Verbose" then Truthy(last.values[0])
      else LastVerbose(nodes[..|nodes| - 1], current)
  }

  predicate IsKnownKey(key: string)
  {
    key == "LogDirs" || key == "Verbose"
  }

  /** One warning per node with an unknown key, in order. */
  function UnknownWarnings(nodes: seq<ConfigNode>): seq<string>
  {
    if nodes == [] then []
    else
      var last := nodes[|nodes| - 1];
      UnknownWarnings(nodes[..|nodes| - 1]) + (if IsKnownKey(last.key) then [] else [UnknownKeyWarning(last.key)])
  }

  // ---------------------------------------------------------------------
  // Properties

  /** The loop over `a + b` is the loop over `a`, then, unless `a` raised,
      the loop over `b` from where `a` left the settings. */
  lemma {:induction false} ConfigureConcat(s: Settings, a: seq<ConfigNode>, b: seq<ConfigNode>)
    ensures Configure(s, a + b) ==
      var o := Configure(s, a);
      if o.error.Some? then o
      else
        var o' := Configure(o.settings, b);
        Outcome(o'.settings, o.warnings + o'.warnings, o'.error)
    decreases |a|
  {
    if a == [] {
      assert a + b == b;
    } else {
      assert (a + b)[0] == a[0] && (a + b)[1..] == a[1..] + b;
      match ApplyNode(s, a[0])
      case Failed(e) =>
      case Applied(s', w) =>
        ConfigureConcat(s', a[1..], b);
    }
  }

  /** The loop raises exactly when some node is unreadable. */
  lemma {:induction false} ConfigureFails(s: Settings, nodes: seq<ConfigNode>)
    ensures Configure(s, nodes).error.None? <==> AllReadable(nodes)
    decreases |nodes|
  {
    if nodes != [] {
      match ApplyNode(s, nodes[0])
      case Failed(e) =>
        assert !Readable(nodes[0]);
      case Applied(s', w) =>
        ConfigureFails(s', nodes[1..]);
        assert Readable(nodes[0]);
        assert forall i :: 0 < i < |nodes| ==> nodes[i] == nodes[1..][i - 1];
    }
  }

  /** The first unreadable node raises its exception; the settings and
      warnings are those of the nodes before it, and nothing after it is
      looked at. */
  lemma StopsAtFirstError(s: Settings, before: seq<ConfigNode>, bad: ConfigNode, after: seq<ConfigNode>)
    requires AllReadable(before) && !Readable(bad)
    ensures Configure(s, before + [bad] + after) ==
      Outcome(Configure(s, before).settings, Configure(s, before).warnings, Some(ErrorOf(bad)))
  {
    ConfigureFails(s, before);
    ConfigureConcat(s, before, [bad] + after);
    assert before + [bad] + after == before + ([bad] + after);
    assert ([bad] + after)[0] == bad;
  }

  /** When every node is readable, the loop leaves the directories of the
      last `LogDirs` node and the truth of the last `Verbose` node (a later
      node overrides an earlier one, and a field no node names keeps its
      value), and sends one warning per unknown key. */
  lemma {:induction false} ConfigureReadable(s: Settings, nodes: seq<ConfigNode>)
    requires AllReadable(nodes)
    ensures Configure(s, nodes) ==
      Outcome(Settings(LastLogDirs(nodes, s.logdirs), LastVerbose(nodes, s.verbose)), UnknownWarnings(nodes), None)
  {
    if nodes != [] {
      var init, last := nodes[..|nodes| - 1], nodes[|nodes| - 1];
      assert AllReadable(init) by {
        assert forall i :: 0 <= i < |init| ==> init[i] == nodes[i];
      }
      ConfigureReadable(s, init);
      ConfigureConcat(s, init, [last]);
      assert init + [last] == nodes;
      var o := Configure(s, init);
      assert [last][1..] == [];
      assert Configure(o.settings, [last]).warnings
          == if IsKnownKey(last.key) then [] else [UnknownKeyWarning(last.key)];
    }
  }

  /** Of two `LogDirs` nodes, the later one wins. */
  lemma LaterLogDirsOverrides(s: Settings, first: string, second: string)
    ensures Configure(s, [ConfigNode("LogDirs", [Text(first)]), ConfigNode("LogDirs", [Text(second)])])
         == Outcome(s.(logdirs := Some(Split(second, ','))), [], None)
  {
    var nodes := [ConfigNode("LogDirs", [Text(first)]), ConfigNode("LogDirs", [Text(second)])];
    ConfigureReadable(s, nodes);
    assert nodes[..1] == [nodes[0]] && nodes[..1][..0] == [];
    assert LastVerbose(nodes, s.verbose) == LastVerbose(nodes[..1], s.verbose) == s.verbose;
    assert UnknownWarnings(nodes) == UnknownWarnings(nodes[..1]) == [];
  }
}
