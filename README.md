# kafka-disk collectd plugin: a Dafny model

The kafka-disk plugin reports, for every Kafka topic stored under one or more
log directories, how many bytes the topic occupies on disk and how many
`.log` segment files it has. collectd calls the plugin's `DiskMetrics` object
at two points. It calls `configure_callback` once with the configuration
block, and it calls `read_callback` on every polling interval. On each read
the plugin:

- walks every configured directory;
- names each partition directory by deleting the root from its path;
- derives the topic by stripping a trailing `-<digits>` partition index;
- sums the sizes and `.log` counts per topic;
- dispatches two gauges per topic, `kafka-disk-bytes` and `kafka-num-logs`,
  each logged first when verbose logging is on.

The model is split into five modules:

- `TopicNames` (`names.dfy`) covers the string handling:
  - `str.replace(root, "")` deletes every non-overlapping occurrence;
  - `re.sub(r"-\d+$", "", p)` strips one trailing `-<digits>`. `\d` means
    the ASCII digits only, as in Python 2 on a byte string.
- `Aggregation` (`aggregation.dfy`) covers the per-topic dictionary. It is
  defined as a fold over an abstract directory walk and proved equal to an
  independent description: per topic, the sum over the walked directories
  that map to it.
- `Emission` (`emission.dfy`) covers the calls made into collectd when the
  dictionary is dispatched, for any iteration order of the dictionary.
- `Config` (`config.dfy`) covers the configuration loop:
  - the `LogDirs` / `Verbose` / unknown-key branches;
  - `str.split(",")`;
  - the exceptions raised by unreadable nodes.
- `KafkaDisk` (`disk_metrics.dfy`) holds the `DiskMetrics` class itself. It
  updates its fields and the event log of a `Collectd` object in place. Each
  method is proved against the functions above.

collectd is reduced to the log of calls made into it:

- `warning(...)`;
- `info(...)`;
- the `dispatch()` of a `Values` record.

The filesystem is a parameter. It maps each root to the sequence of
`(dirpath, files)` entries that `os.walk` yields, with the size of each file.
A root absent from the map yields nothing, as `os.walk` does for a missing
directory. Python's dictionary iteration order is not fixed by the code.
`DispatchMetrics` therefore picks each next topic nondeterministically, and
its ghost result `order` records the order it chose. Every property of the
emitted events is proved for every such order.

In several places one might expect the plugin to behave otherwise than its
code does; the model follows the code:

- **The root is not stripped as a prefix.** Every occurrence of the root
  string is deleted from the walked path.
- **The root's separator is kept.** With a root written without a trailing
  `/` (`/data/kafka`), the topic keeps the separator and reads `/orders`,
  not `orders`. `TwoPartitionsScenario` and `RootSeparatorChangesKey` prove
  both spellings.
- **A configured directory that does not exist draws no warning.** It
  silently contributes nothing (`MissingRootIgnored`).
- **A file that disappears during the walk is not counted as zero.** Its
  `os.path.getsize` raises, and this error path is not modelled (see below).
- **The "no directories" warning names the wrong plugin.** It is sent with
  the prefix `g1gc plugin:`, exactly as the code writes it. Like the
  read_callback docstring about GC logs (kafka_disk.py:30), it was evidently
  copied from another plugin.

## Model

| member | source | states |
|---|---|---|
| TopicNames.Partition | kafka_disk.py:47 | no contract of its own: the partition name is `RemoveAll(dirpath, root)`; its behaviour is stated by the rows for RemoveAll, RemoveAllUnchangedIff, PartitionOfChild and RemoveAllAfter |
| TopicNames.RemoveAll | kafka_disk.py:47 | the partition name is never longer than the walked path |
| TopicNames.RemoveAllUnchangedIff | kafka_disk.py:47 | the path is left unchanged iff the root is empty or does not occur in it, in both directions |
| TopicNames.PartitionOfChild | kafka_disk.py:47 | for a directory `root + rest` where `rest` does not contain the root again, the partition name is exactly `rest`, separator included |
| TopicNames.RemoveAllAfter | kafka_disk.py:47 | for every `a`, root and `b`: if the root does not start anywhere in `a`, then in `a + root + b` that occurrence is deleted whole, `a` is kept unchanged, and the scan goes on in `b`; so an occurrence further into the path is removed as well as a leading one |
| TopicNames.EveryOccurrenceRemoved | kafka_disk.py:47 | an example of RemoveAllAfter: root `/d` turns `/d/x/d` into `/x` |
| TopicNames.Topic | kafka_disk.py:48 | the topic is a prefix of the partition name, and differs from it only when the removed tail is `-` followed by digits; the converse is TopicUnchangedIff, the exact result StripsIndex |
| TopicNames.TopicKey | kafka_disk.py:47-48 | no contract of its own: the topic of the partition name of a walked directory; see RootSeparatorChangesKey and AggregateKeys |
| TopicNames.TrailingDigits | kafka_disk.py:48 | the length of the longest suffix made only of ASCII digits: the suffix is all digits and the character before it is not a digit |
| TopicNames.TrailingDigitsUnique | kafka_disk.py:48 | any length with those two properties equals the longest digit suffix, so the `\d+` match is unique |
| TopicNames.StripsIndex | kafka_disk.py:48 | for any `t` and any non-empty digit string `n`, the topic of `t-n` is `t` |
| TopicNames.TopicUnchangedIff | kafka_disk.py:48 | the topic equals the partition name iff the name does not end in `-` followed by one or more digits, in both directions |
| TopicNames.TopicBehindSlash | kafka_disk.py:48 | a leading `/` is kept in front of the topic |
| TopicNames.RootSeparatorChangesKey | kafka_disk.py:47-48 | the same directory gets key `/t` under root `r` and key `t` under root `r/`; the two keys differ |
| TopicNames.IndexRemovedExamples | kafka_disk.py:48 | `orders-3` gives `orders`; `a-1-2` gives `a-1`, because only one index is removed |
| TopicNames.UnchangedExamples | kafka_disk.py:48 | `orders` and `orders-` are kept unchanged |
| Aggregation.WalkOf | kafka_disk.py:43 | no contract of its own: the entries `os.walk` yields for a root, none for a missing root; see MissingRootIgnored |
| Aggregation.IsLogFile | kafka_disk.py:54 | no contract of its own: `f.endswith(".log")`; see LogCountBound |
| Aggregation.DirSize | kafka_disk.py:50-57 | no contract of its own: the sum of the sizes of a directory's files; see DirSizeCoversEveryFile and ScanDirectory |
| Aggregation.LogCount | kafka_disk.py:51-55 | no contract of its own: the number of files whose name ends in `.log`; see LogCountBound and ScanDirectory |
| Aggregation.Step | kafka_disk.py:44-63 | no contract of its own: one walked directory, skipped if it is the root, otherwise merged under its topic; see AccumulateFolds |
| Aggregation.Accumulate | kafka_disk.py:42-63 | no contract of its own: add_stats as a fold of Step over the walk; see AccumulateTotals, AccumulateOrderIndependent and AddStats |
| Aggregation.Collect | kafka_disk.py:33-34 | no contract of its own: the configured roots folded in turn; see CollectFolds through AggregateTotals |
| Aggregation.Aggregate | kafka_disk.py:31-34 | no contract of its own: Collect from an empty dictionary; see AggregateTotals, AggregateKeys, AggregateOrderIndependent and ReadCallback |
| Aggregation.Merge | kafka_disk.py:59-63 | a new topic is inserted with the directory's counts; an existing topic gets them added; no other key or value changes and no key disappears |
| Aggregation.LogCountBound | kafka_disk.py:53-55 | the `.log` count never exceeds the number of files, and equals it iff every file name ends in `.log` |
| Aggregation.DirSizeCoversEveryFile | kafka_disk.py:53-57 | every file's size is added exactly once, whatever its name: the total is that file's size plus the total of all the other files |
| Aggregation.AccumulateFolds | kafka_disk.py:43-63 | one add_stats call equals merging, in walk order, one contribution per walked directory other than the root |
| Aggregation.AccumulateTotals | kafka_disk.py:42-63 | after add_stats, a topic is present iff it was present before or some walked directory maps to it; its counts are the old counts plus the sum over those directories |
| Aggregation.AggregateTotals | kafka_disk.py:31-34 | in the dictionary read_callback builds, a topic is present iff some walked directory under any root maps to it, and its counts are the sum over all such directories |
| Aggregation.AggregateKeys | kafka_disk.py:33-48 | the reported topics are exactly the keys of the walked directories other than each root's own entry (a configured root nested under another is counted by the outer walk), in both directions |
| Aggregation.AccumulateOrderIndependent | kafka_disk.py:43-63 | add_stats gives the same dictionary for any order of the walk's directories |
| Aggregation.AggregateOrderIndependent | kafka_disk.py:33-34 | the dictionary does not depend on the order of the configured directories |
| Aggregation.MissingRootIgnored | kafka_disk.py:33-34 | a configured directory that does not exist changes nothing |
| Aggregation.TwoPartitionsScenario | kafka_disk.py:42-63 | two partitions of `orders` under root `/data/kafka` are counted as `/orders`; under `/data/kafka/` they are counted as `orders`; in both cases the counts are 3072 bytes and 2 logs |
| Emission.GaugeValue | kafka_disk.py:72-77 | no contract of its own: the `Values` record with plugin `kafka-disk`, the topic as plugin instance, type `gauge`, the metric name as type instance, and the value; see CreateMetric |
| Emission.DecimalText | kafka_disk.py:71 | no contract of its own: `%s` of a count; see DecimalRoundTrip |
| Emission.SendingText | kafka_disk.py:71 | no contract of its own: the message `Sending value gauge.<name>[plugin_instance=<topic>]=<value>` |
| Emission.VerboseLine | kafka_disk.py:81 | no contract of its own: the message prefixed with `kafka-disk plugin [verbose]: `; see LogVerbose |
| Emission.MetricEvents | kafka_disk.py:67-81 | create_metric followed by dispatch: one event, or two with verbose logging on, the last always the dispatched gauge |
| Emission.TopicEvents | kafka_disk.py:66-68 | no contract of its own: the byte gauge's events, then the log-count gauge's; see DispatchTopic |
| Emission.Emitted | kafka_disk.py:65-68 | dispatch_metrics in a given order: two events per topic, four with verbose logging on; its contents are EmissionQuiet, EmissionVerbose and EmittedPerTopic |
| Emission.Digit | kafka_disk.py:71 | the character is an ASCII digit whose value is `d` |
| Emission.DecimalRoundTrip | kafka_disk.py:71 | `%s` of a count is a non-empty digit string with no leading zero (except for 0) that reads back as the count |
| Emission.EmissionQuiet | kafka_disk.py:65-68 | with verbose off, topic `i` of the order yields exactly event `2i`, its byte gauge, and event `2i+1`, its log-count gauge |
| Emission.EmissionVerbose | kafka_disk.py:65-81 | with verbose on, each topic yields four events in order: info line, byte gauge, info line, log-count gauge |
| Emission.VerboseDispatchesSame | kafka_disk.py:79-81 | verbose logging adds only info events: the sequence of dispatched values is the same with it on or off |
| Emission.OrderLength | kafka_disk.py:65-68 | any iteration order visits every topic once, so exactly two gauges per topic are dispatched |
| Emission.EmittedPerTopic | kafka_disk.py:65-81 | a byte gauge (resp. log-count gauge) with a given topic and value is dispatched iff the topic is in the dictionary with that value, in both directions, with verbose logging on or off and whatever the order |
| Config.Truthy | kafka_disk.py:20 | no contract of its own: Python's `bool` of a configuration value (empty text, zero and false are false) |
| Config.UnknownKeyWarning | kafka_disk.py:22 | no contract of its own: the text `kafka-disk plugin: Unknown config key: <key>.`; see ConfigureReadable |
| Config.ApplyNode | kafka_disk.py:17-22 | no contract of its own: one pass of the loop, or the exception it raises; see ConfigureNode |
| Config.Configure | kafka_disk.py:16-22 | no contract of its own: the loop, stopping at the first exception; see ConfigureFails, StopsAtFirstError, ConfigureReadable and ConfigureCallback |
| Config.Split | kafka_disk.py:18 | `split(",")` yields at least one piece, and no piece contains a comma |
| Config.SplitJoin | kafka_disk.py:18 | joining the pieces with `,` gives back the configured text |
| Config.JoinSplit | kafka_disk.py:18 | splitting a join of comma-free pieces gives back the pieces |
| Config.ConfigureConcat | kafka_disk.py:16-22 | the loop over `a + b` is the loop over `a` and then, unless `a` raised, the loop over `b` from the settings `a` left |
| Config.ConfigureFails | kafka_disk.py:16-22 | the loop raises iff some node is unreadable (no value, or a non-text `LogDirs` value) |
| Config.StopsAtFirstError | kafka_disk.py:16-22 | at the first unreadable node the loop stops; the settings and warnings are those of the nodes before it, and later nodes are not looked at |
| Config.ConfigureReadable | kafka_disk.py:16-22 | on readable nodes: `logdirs` comes from the last `LogDirs` node and `verbose` from the last `Verbose` node, each unchanged if no node names it; one warning is sent per unknown key, in order |
| Config.LaterLogDirsOverrides | kafka_disk.py:17-18 | of two `LogDirs` nodes, the later one wins and `verbose` is untouched |
| KafkaDisk.ScanDirectory | kafka_disk.py:50-57 | the loop over a directory's files returns the directory's byte total and `.log` count |
| KafkaDisk.StatsTable.constructor | kafka_disk.py:32 | the dictionary starts empty |
| KafkaDisk.DiskMetrics.constructor | kafka_disk.py:9-12 | the three fields hold the given values |
| KafkaDisk.DiskMetrics.ConfigureCallback | kafka_disk.py:14-22 | the fields, the warnings sent and the error raised are those of `Configure` on the old settings |
| KafkaDisk.DiskMetrics.ConfigureNode | kafka_disk.py:17-22 | one node: an unreadable node changes nothing and reports its error; otherwise the settings and warnings are those of `ApplyNode` |
| KafkaDisk.DiskMetrics.ReadCallback | kafka_disk.py:29-39 | with no directories configured, exactly one warning; otherwise the events for `Aggregate` over the directories, in an order that visits each topic once; no events when no topic was found |
| KafkaDisk.DiskMetrics.AddStats | kafka_disk.py:42-63 | the dictionary becomes `Accumulate` of its old contents over the walk of the directory |
| KafkaDisk.DiskMetrics.AddEntry | kafka_disk.py:44-63 | one pass of the add_stats loop: the root is skipped, any other directory is merged under its topic, i.e. the dictionary becomes `Step` of its old contents |
| KafkaDisk.DiskMetrics.DispatchMetrics | kafka_disk.py:65-68 | the chosen order visits each topic exactly once, and the log grows by `Emitted` for that order |
| KafkaDisk.DiskMetrics.DispatchTopic | kafka_disk.py:66-68 | one topic: its byte gauge, then its log-count gauge, each with its verbose line |
| KafkaDisk.DiskMetrics.CreateMetric | kafka_disk.py:70-77 | returns the `gauge` record for the topic and value, with plugin `kafka-disk`, after the verbose line if verbose logging is on |
| KafkaDisk.DiskMetrics.LogVerbose | kafka_disk.py:79-81 | exactly one info event with the `kafka-disk plugin [verbose]: ` prefix when verbose logging is on, none otherwise |

## Left out

- The real filesystem (kafka_disk.py:43, 56-57) is replaced by a parameter.
  - `os.walk` becomes a map from each root to its walk entries.
  - `os.path.join`/`getsize` become a size per file entry.
  - The `dirnames` of the walk are unused by the code and not modelled.
- AddStats: an exception from `os.path.getsize` is not modelled. A file that
  vanishes between listing and measuring makes the real call raise out of
  read_callback. The model has no such failure.
- The collectd runtime (registering callbacks, timing, the real `Values`
  transport) is left out. Only the calls the plugin makes are recorded.
- `current_metrics` (kafka_disk.py:24-27) is set but never read, so it is
  not modelled.
- The mocks and the `__main__` driver (kafka_disk.py:83 onward) are left out.
  They are a development harness that prints to stdout.
- Config.Truthy: numeric configuration values are integers. collectd passes
  numbers as floats, and only `bool(x)` of them is used.
- Topic: the regex `$` also matches before a final newline. Directory names
  ending in a newline are not considered.
- ConfigureCallback: an exception is returned as an error value. The model
  does not propagate it out of the callback as Python does. The effects
  before it are kept, as in Python.
