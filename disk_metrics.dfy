/**
 The `DiskMetrics` plugin object (kafka_disk.py:8-81) and the two objects it
 works on: the collectd module, reduced to the log of calls made into it,
 and the `stats` dictionary that read_callback creates and add_stats fills
 in place. Each method is proved against the functions of the Aggregation,
 Emission and Config modules.
 */
module KafkaDisk {
  import opened TopicNames
  import opened Aggregation
  import opened Emission
  import opened Config

  const NoLogDirsWarning: string :=
    "g1gc plugin: skipping because no log directory (\"LogDirs\") has been configured"

  /** The calls made into collectd, oldest first. */
  class Collectd {
    var log: seq<Event>

    constructor ()
      ensures log == []
    {
      log := [];
    }

    /** `collectd.warning(message)` */
    method SendWarning(message: string)
      modifies this
      ensures log == old(log) + [Event.Warning(message)]
    {
      log := log + [Event.Warning(message)];
    }

    /** `collectd.info(message)` */
    method SendInfo(message: string)
      modifies this
      ensures log == old(log) + [Event.Info(message)]
    {
      log := log + [Event.Info(message)];
    }

    /** `values.dispatch()` */
    method Dispatch(values: Values)
      modifies this
      ensures log == old(log) + [Dispatched(values)]
    {
      log := log + [Dispatched(values)];
    }
  }

  /** The `stats` dictionary: topic to `[size, count]`. */
  class StatsTable {
    var entries: Stats

    constructor ()
      ensures entries == map[]
    {
      entries := map[];
    }
  }

  lemma AppendAssociative(a: seq<Event>, b: seq<Event>, c: seq<Event>)
    ensures a + b + c == a + (b + c)
  {
  }

  /** The warnings sent for a list of messages. */
  function WarningEvents(messages: seq<string>): (events: seq<Event>)
    ensures |events| == |messages|
    ensures forall i :: 0 <= i < |messages| ==> events[i] == Event.Warning(messages[i])
  {
    if messages == [] then []
    else WarningEvents(messages[..|messages| - 1]) + [Event.Warning(messages[|messages| - 1])]
  }

  lemma WarningEventsConcat(a: seq<string>, b: seq<string>)
    ensures WarningEvents(a + b) == WarningEvents(a) + WarningEvents(b)
  {
    assert |WarningEvents(a + b)| == |WarningEvents(a) + WarningEvents(b)|;
    forall i | 0 <= i < |a + b|
      ensures WarningEvents(a + b)[i] == (WarningEvents(a) + WarningEvents(b))[i]
    {
    }
  }

  /** The loop over the files of one walked directory (kafka_disk.py:50-57):
      the size of every file, and the number of `.log` files. */
  method ScanDirectory(files: seq<FileEntry>) returns (size: nat, count: nat)
    ensures size == DirSize(files) && count == LogCount(files)
  {
    size, count := 0, 0;
    for i := 0 to |files|
      invariant size == DirSize(files[..i]) && count == LogCount(files[..i])
    {
      assert files[..i + 1][..i] == files[..i];
      if IsLogFile(files[i].name) {
        count := count + 1;
      }
      size := size + files[i].size;
    }
    assert files[..|files|] == files;
  }

  class DiskMetrics {
    const collectd: Collectd
    var logdirs: Option<seq<string>>
    var verbose: bool

    constructor (collectd: Collectd, logdirs: Option<seq<string>>, verbose: bool)
      ensures this.collectd == collectd && this.logdirs == logdirs && this.verbose == verbose
    {
      this.collectd := collectd;
      this.logdirs := logdirs;
      this.verbose := verbose;
    }

    /** configure_callback: the nodes in order, each setting `logdirs`,
        setting `verbose` or sending one warning; an unreadable node raises
        and the nodes after it are not looked at. */
    method ConfigureCallback(conf: seq<ConfigNode>) returns (error: Option<ConfigError>)
      modifies this, collectd
      ensures var o := Configure(Settings(old(logdirs), old(verbose)), conf);
        logdirs == o.settings.logdirs && verbose == o.settings.verbose
        && collectd.log == old(collectd.log) + WarningEvents(o.warnings)
        && error == o.error
    {
      ghost var outcome := Configure(Settings(logdirs, verbose), conf);
      ghost var sent: seq<string> := [];
      assert conf[0..] == conf && outcome == After([], outcome);
      var i := 0;
      error := None;
      while i < |conf|
        invariant 0 <= i <= |conf|
        invariant collectd.log == old(collectd.log) + WarningEvents(sent)
        invariant outcome == After(sent, Configure(Settings(logdirs, verbose), conf[i..]))
      {
        ghost var r := ApplyNode(Settings(logdirs, verbose), conf[i]);
        ConfigureFrom(Settings(logdirs, verbose), conf, i, sent);
        var failure := ConfigureNode(conf[i]);
        if failure.Some? {
          error := failure;
          assert collectd.log == old(collectd.log) + WarningEvents(outcome.warnings);
          return;
        }
        WarningEventsConcat(sent, r.warnings);
        AppendAssociative(old(collectd.log), WarningEvents(sent), WarningEvents(r.warnings));
        sent := sent + r.warnings;
        i := i + 1;
      }
      assert conf[i..] == [];
      assert sent + [] == sent;
    }

    /** One pass of the loop in configure_callback, for one node. */
    method ConfigureNode(node: ConfigNode) returns (error: Option<ConfigError>)
      modifies this, collectd
      ensures var r := ApplyNode(Settings(old(logdirs), old(verbose)), node);
        r.Failed? ==>
          error == Some(r.error) && logdirs == old(logdirs) && verbose == old(verbose)
          && collectd.log == old(collectd.log)
      ensures var r := ApplyNode(Settings(old(logdirs), old(verbose)), node);
        r.Applied? ==>
          error == None && Settings(logdirs, verbose) == r.settings
          && collectd.log == old(collectd.log) + WarningEvents(r.warnings)
    {
      error := None;
      if node.key == "LogDirs" {
        if node.values == [] {
          error := Some(MissingValue(node.key));
        } else if !node.values[0].Text? {
          error := Some(NotText(node.key));
        } else {
          logdirs := Some(Split(node.values[0].text, ','));
        }
      } else if node.key == "Verbose" {
        if node.values == [] {
          error := Some(MissingValue(node.key));
        } else {
          verbose := Truthy(node.values[0]);
        }
      } else {
        collectd.SendWarning(UnknownKeyWarning(node.key));
      }
    }

    /** read_callback: with no directories configured, one warning and
        nothing else; otherwise a fresh dictionary, every directory folded
        into it in turn, and its topics dispatched if there are any. */
    method ReadCallback(fs: FileSystem) returns (ghost order: seq<string>)
      modifies collectd
      ensures logdirs.None? || logdirs.value == [] ==>
        collectd.log == old(collectd.log) + [Event.Warning(NoLogDirsWarning)]
      ensures logdirs.Some? && logdirs.value != [] ==>
        var stats := Aggregate(fs, logdirs.value);
        IsOrderOf(order, stats.Keys) && collectd.log == old(collectd.log) + Emitted(order, stats, verbose)
      ensures logdirs.Some? && logdirs.value != [] && Aggregate(fs, logdirs.value) == map[] ==>
        collectd.log == old(collectd.log)
    {
      order := [];
      if logdirs.Some? && logdirs.value != [] {
        var dirs := logdirs.value;
        var stats := new StatsTable();
        for i := 0 to |dirs|
          invariant stats.entries == Collect(map[], fs, dirs[..i])
          invariant collectd.log == old(collectd.log)
        {
          assert dirs[..i + 1][..i] == dirs[..i];
          AddStats(dirs[i], stats, fs);
        }
        assert dirs[..|dirs|] == dirs;
        if stats.entries != map[] {
          order := DispatchMetrics(stats);
        } else {
          assert Emitted([], stats.entries, verbose) == [];
          assert old(collectd.log) + [] == old(collectd.log);
        }
      } else {
        collectd.SendWarning(NoLogDirsWarning);
      }
    }

    /** add_stats: every directory the walk of `logDir` yields, the root
        itself excepted, is merged into the dictionary under its topic. */
    method AddStats(logDir: string, stats: StatsTable, fs: FileSystem)
      modifies stats
      ensures stats.entries == Accumulate(old(stats.entries), logDir, WalkOf(fs, logDir))
    {
      var walk := WalkOf(fs, logDir);
      for i := 0 to |walk|
        invariant stats.entries == Accumulate(old(stats.entries), logDir, walk[..i])
      {
        assert walk[..i + 1][..i] == walk[..i];
        AddEntry(logDir, walk[i], stats);
      }
      assert walk[..|walk|] == walk;
    }

    /** One pass of the loop in add_stats, for one walked directory. */
    method AddEntry(logDir: string, entry: WalkEntry, stats: StatsTable)
      modifies stats
      ensures stats.entries == Step(old(stats.entries), logDir, entry)
    {
      if entry.dirpath == logDir {
        return;
      }
      var partition := Partition(entry.dirpath, logDir);
      var topic := Topic(partition);
      var size, count := ScanDirectory(entry.files);
      if topic !in stats.entries {
        stats.entries := stats.entries[topic := Counts(size, count)];
      } else {
        var c := stats.entries[topic];
        stats.entries := stats.entries[topic := Counts(c.bytes + size, c.logs + count)];
      }
    }

    /** dispatch_metrics: every topic once, in an order the dictionary
        chooses, its byte gauge and then its `.log` count gauge. */
    method DispatchMetrics(table: StatsTable) returns (ghost order: seq<string>)
      modifies collectd
      ensures IsOrderOf(order, table.entries.Keys)
      ensures collectd.log == old(collectd.log) + Emitted(order, table.entries, verbose)
    {
      var stats := table.entries;
      var remaining := stats.Keys;
      order := [];
      while remaining != {}
        invariant VisitedSoFar(order, remaining, stats.Keys)
        invariant collectd.log == old(collectd.log) + Emitted(order, stats, verbose)
        decreases remaining
      {
        var topic :| topic in remaining;
        DispatchTopic(topic, stats[topic]);
        EmittedSnoc(order, topic, stats, verbose);
        AppendAssociative(old(collectd.log), Emitted(order, stats, verbose), TopicEvents(topic, stats[topic], verbose));
        VisitNext(order, remaining, stats.Keys, topic);
        order := order + [topic];
        remaining := remaining - {topic};
      }
      VisitedAll(order, stats.Keys);
    }

    /** One pass of the loop in dispatch_metrics: the byte gauge of a topic,
        then its `.log` count gauge. */
    method DispatchTopic(topic: string, c: Counts)
      modifies collectd
      ensures collectd.log == old(collectd.log) + TopicEvents(topic, c, verbose)
    {
      ghost var before := collectd.log;
      var bytes := CreateMetric(DiskBytes, topic, c.bytes);
      collectd.Dispatch(bytes);
      assert collectd.log == before + MetricEvents(DiskBytes, topic, c.bytes, verbose);
      ghost var middle := collectd.log;
      var logs := CreateMetric(NumLogs, topic, c.logs);
      collectd.Dispatch(logs);
      assert collectd.log == middle + MetricEvents(NumLogs, topic, c.logs, verbose);
      assert collectd.log == before + MetricEvents(DiskBytes, topic, c.bytes, verbose) + MetricEvents(NumLogs, topic, c.logs, verbose);
    }

    /** create_metric: the verbose line, if on, and the gauge to dispatch. */
    method CreateMetric(name: string, topic: string, value: nat) returns (values: Values)
      modifies collectd
      ensures values == GaugeValue(name, topic, value)
      ensures collectd.log == old(collectd.log) + (if verbose then [Event.Info(VerboseMessage(name, topic, value))] else [])
    {
      LogVerbose(SendingText(name, topic, value));
      values := Values(Plugin, topic, Gauge, name, value);
    }

    /** log_verbose */
    method LogVerbose(msg: string)
      modifies collectd
      ensures collectd.log == old(collectd.log) + (if verbose then [Event.Info(VerboseLine(msg))] else [])
    {
      if verbose {
        collectd.SendInfo(VerboseLine(msg));
      }
    }
  }
}
