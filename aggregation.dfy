/**
 Per-topic disk usage (kafka_disk.py, add_stats and read_callback) as
 functions over an abstract directory walk. `Accumulate` is what one call of
 add_stats does to the shared stats dictionary; `Aggregate` is the dictionary
 that read_callback builds from all configured roots. The lemmas tie both to
 an independent description: per topic, the sum over every walked directory
 that maps to it.
 */
module Aggregation {
  import opened TopicNames

  /** A file listed by the walk, with the size `os.path.getsize` reports. */
  datatype FileEntry = FileEntry(name: string, size: nat)

  /** One triple of `os.walk`: a directory and the files directly inside it
      (its sub-directory names are not used). */
  datatype WalkEntry = WalkEntry(dirpath: string, files: seq<FileEntry>)

  /** What `os.walk` yields for each root that exists; a root missing from
      the map yields nothing, as `os.walk` does for a missing directory. */
  type FileSystem = map<string, seq<WalkEntry>>

  function WalkOf(fs: FileSystem, root: string): seq<WalkEntry>
  {
    if root in fs then fs[root] else []
  }

  /** The `[size, count]` pair kept per topic: bytes, then `.log` files. */
  datatype Counts = Counts(bytes: nat, logs: nat)

  const Zero := Counts(0, 0)

  function Add(a: Counts, b: Counts): Counts
  {
    Counts(a.bytes + b.bytes, a.logs + b.logs)
  }

  lemma AddZero(c: Counts)
    ensures Add(Zero, c) == c && Add(c, Zero) == c
  {
  }

  lemma AddAssociative(a: Counts, b: Counts, c: Counts)
    ensures Add(Add(a, b), c) == Add(a, Add(b, c))
  {
  }

  type Stats = map<string, Counts>

  /** `f.endswith(".log")` */
  predicate IsLogFile(name: string)
  {
    |name| >= 4 && name[|name| - 4..] == ".log"
  }

  /** The sum of the sizes of all files, whatever their names. */
  function DirSize(files: seq<FileEntry>): nat
  {
    if files == [] then 0 else DirSize(files[..|files| - 1]) + files[|files| - 1].size
  }

  /** The number of files whose name ends in `.log`. */
  function LogCount(files: seq<FileEntry>): nat
  {
    if files == [] then 0
    else LogCount(files[..|files| - 1]) + (if IsLogFile(files[|files| - 1].name) then 1 else 0)
  }

  function DirCounts(files: seq<FileEntry>): Counts
  {
    Counts(DirSize(files), LogCount(files))
  }

  /** The in-place update at kafka_disk.py:59-63: a new topic is inserted
      with this directory's counts, an existing one is increased by them;
      no other key or value changes and no key is removed. */
  function Merge(stats: Stats, topic: string, c: Counts): (r: Stats)
    ensures r.Keys == stats.Keys + {topic}
    ensures topic in stats ==> r[topic] == Add(stats[topic], c)
    ensures topic !in stats ==> r[topic] == c
    ensures forall k :: k in stats && k != topic ==> r[k] == stats[k]
  {
    if topic !in stats then stats[topic := c] else stats[topic := Add(stats[topic], c)]
  }

  /** What one walked directory does: the root itself is skipped. */
  function Step(stats: Stats, root: string, e: WalkEntry): Stats
  {
    if e.dirpath == root then stats
    else Merge(stats, TopicKey(root, e.dirpath), DirCounts(e.files))
  }

  /** add_stats(root, stats): every walked directory in turn. */
  function Accumulate(stats: Stats, root: string, walk: seq<WalkEntry>): Stats
  {
    if walk == [] then stats
    else Step(Accumulate(stats, root, walk[..|walk| - 1]), root, walk[|walk| - 1])
  }

  /** The roots folded one after the other into `stats`. */
  function Collect(stats: Stats, fs: FileSystem, roots: seq<string>): Stats
  {
    if roots == [] then stats
    else
      var last := roots[|roots| - 1];
      Accumulate(Collect(stats, fs, roots[..|roots| - 1]), last, WalkOf(fs, last))
  }

  /** The dictionary read_callback builds: a fresh one, every root folded in. */
  function Aggregate(fs: FileSystem, roots: seq<string>): Stats
  {
    Collect(map[], fs, roots)
  }

  // ---------------------------------------------------------------------
  // One directory

  /** Only `.log` files are counted, so never more than the directory holds,
      and all of them exactly when every name ends in `.log`. */
  lemma {:induction false} LogCountBound(files: seq<FileEntry>)
    ensures LogCount(files) <= |files|
    ensures LogCount(files) == |files| <==> forall i :: 0 <= i < |files| ==> IsLogFile(files[i].name)
  {
    if files != [] {
      var init := files[..|files| - 1];
      LogCountBound(init);
      assert forall i :: 0 <= i < |init| ==> init[i] == files[i];
    }
  }

  /** Every file adds its size to the directory's bytes exactly once,
      whatever its name: the total is that file's size plus the total of
      all the other files. */
  lemma {:induction false} DirSizeCoversEveryFile(files: seq<FileEntry>, i: nat)
    requires i < |files|
    ensures DirSize(files) == files[i].size + DirSize(files[..i] + files[i + 1..])
  {
    var n := |files|;
    var init := files[..n - 1];
    if i == n - 1 {
      assert files[..i] + files[i + 1..] == init;
    } else {
      DirSizeCoversEveryFile(init, i);
      var others := init[..i] + init[i + 1..];
      var rest := files[..i] + files[i + 1..];
      assert rest == others + [files[n - 1]];
      assert rest[..|rest| - 1] == others;
    }
  }

  // ---------------------------------------------------------------------
  // Contributions: what each walked directory adds, and to which topic

  /** One walked directory's counts, under its topic. */
  datatype Contribution = Contribution(topic: string, counts: Counts)

  /** The root itself contributes nothing; every other directory, empty or
      not, contributes its counts to its topic. */
  function EntryContribution(root: string): WalkEntry -> seq<Contribution>
  {
    (e: WalkEntry) => if e.dirpath == root then [] else [Contribution(TopicKey(root, e.dirpath), DirCounts(e.files))]
  }

  function FlatMap<T>(s: seq<T>, f: T -> seq<Contribution>): seq<Contribution>
  {
    if s == [] then [] else f(s[0]) + FlatMap(s[1..], f)
  }

  /** The contributions of one walk, in walk order. */
  function Contributions(root: string, walk: seq<WalkEntry>): seq<Contribution>
  {
    FlatMap(walk, EntryContribution(root))
  }

  function RootContributions(fs: FileSystem): string -> seq<Contribution>
  {
    (r: string) => Contributions(r, WalkOf(fs, r))
  }

  /** The contributions of every root, root after root. */
  function AllContributions(fs: FileSystem, roots: seq<string>): seq<Contribution>
  {
    FlatMap(roots, RootContributions(fs))
  }

  /** Contributions merged one after the other into `stats`. */
  function Fold(stats: Stats, cs: seq<Contribution>): Stats
  {
    if cs == [] then stats
    else
      var c := cs[|cs| - 1];
      Merge(Fold(stats, cs[..|cs| - 1]), c.topic, c.counts)
  }

  lemma {:induction false} FlatMapConcat<T>(a: seq<T>, b: seq<T>, f: T -> seq<Contribution>)
    ensures FlatMap(a + b, f) == FlatMap(a, f) + FlatMap(b, f)
  {
    if a == [] {
      assert a + b == b;
    } else {
      var ab := a + b;
      assert ab[0] == a[0] && ab[1..] == a[1..] + b;
      FlatMapConcat(a[1..], b, f);
    }
  }

  lemma SplitLast<T>(s: seq<T>)
    requires s != []
    ensures s == s[..|s| - 1] + [s[|s| - 1]]
  {
  }

  lemma FlatMapSnoc<T>(init: seq<T>, x: T, f: T -> seq<Contribution>)
    ensures FlatMap(init + [x], f) == FlatMap(init, f) + f(x)
  {
    FlatMapConcat(init, [x], f);
    assert FlatMap([x], f) == f(x) + FlatMap([], f);
  }

  lemma {:induction false} FoldConcat(stats: Stats, a: seq<Contribution>, b: seq<Contribution>)
    ensures Fold(stats, a + b) == Fold(Fold(stats, a), b)
    decreases |b|
  {
    if b == [] {
      assert a + b == a;
    } else {
      var ab, c := a + b, b[|b| - 1];
      assert ab[..|ab| - 1] == a + b[..|b| - 1] && ab[|ab| - 1] == c;
      assert Fold(stats, ab) == Merge(Fold(stats, a + b[..|b| - 1]), c.topic, c.counts);
      FoldConcat(stats, a, b[..|b| - 1]);
      assert Fold(Fold(stats, a), b) == Merge(Fold(Fold(stats, a), b[..|b| - 1]), c.topic, c.counts);
    }
  }

  /** One walked directory: merging its contribution is the step add_stats
      takes for it. */
  lemma StepFolds(acc: Stats, root: string, e: WalkEntry)
    ensures Step(acc, root, e) == Fold(acc, EntryContribution(root)(e))
  {
    if e.dirpath != root {
      var c := Contribution(TopicKey(root, e.dirpath), DirCounts(e.files));
      assert EntryContribution(root)(e) == [c];
      assert [c][..0] == [];
    } else {
      assert EntryContribution(root)(e) == [];
    }
  }

  /** add_stats merges the contributions of the walk in walk order. */
  lemma {:induction false} AccumulateFolds(stats: Stats, root: string, walk: seq<WalkEntry>)
    ensures Accumulate(stats, root, walk) == Fold(stats, Contributions(root, walk))
  {
    if walk != [] {
      var init, e := walk[..|walk| - 1], walk[|walk| - 1];
      AccumulateFolds(stats, root, init);
      var acc := Accumulate(stats, root, init);
      assert Accumulate(stats, root, walk) == Step(acc, root, e);
      SplitLast(walk);
      FlatMapSnoc(init, e, EntryContribution(root));
      FoldConcat(stats, Contributions(root, init), EntryContribution(root)(e));
      StepFolds(acc, root, e);
    }
  }

  /** Folding the roots one after the other merges all their contributions. */
  lemma {:induction false} CollectFolds(stats: Stats, fs: FileSystem, roots: seq<string>)
    ensures Collect(stats, fs, roots) == Fold(stats, AllContributions(fs, roots))
  {
    if roots != [] {
      var init, last := roots[..|roots| - 1], roots[|roots| - 1];
      CollectFolds(stats, fs, init);
      var before, walk := Collect(stats, fs, init), WalkOf(fs, last);
      assert Collect(stats, fs, roots) == Accumulate(before, last, walk);
      var a, b := AllContributions(fs, init), Contributions(last, walk);
      SplitLast(roots);
      FlatMapSnoc(init, last, RootContributions(fs));
      assert AllContributions(fs, roots) == a + b;
      FoldConcat(stats, a, b);
      AccumulateFolds(before, last, walk);
    }
  }

  // ---------------------------------------------------------------------
  // Reference totals, independent of order

  /** The sum of `f` over a sequence. */
  function SumOf<T>(s: seq<T>, f: T -> Counts): Counts
  {
    if s == [] then Zero else Add(f(s[0]), SumOf(s[1..], f))
  }

  lemma {:induction false} SumOfConcat<T>(a: seq<T>, b: seq<T>, f: T -> Counts)
    ensures SumOf(a + b, f) == Add(SumOf(a, f), SumOf(b, f))
  {
    if a == [] {
      assert a + b == b;
      AddZero(SumOf(b, f));
    } else {
      var ab := a + b;
      assert ab[0] == a[0] && ab[1..] == a[1..] + b;
      SumOfConcat(a[1..], b, f);
      calc {
        SumOf(ab, f);
        Add(f(a[0]), SumOf(a[1..] + b, f));
        Add(f(a[0]), Add(SumOf(a[1..], f), SumOf(b, f)));
      }
    }
  }

  lemma SumOfSnoc<T>(init: seq<T>, x: T, f: T -> Counts)
    ensures SumOf(init + [x], f) == Add(SumOf(init, f), f(x))
  {
    SumOfConcat(init, [x], f);
    assert SumOf([x], f) == Add(f(x), SumOf([], f));
    AddZero(f(x));
  }

  /** Nothing is added up when every term is zero. */
  lemma {:induction false} SumOfZero<T>(s: seq<T>, f: T -> Counts)
    requires forall x :: x in s ==> f(x) == Zero
    ensures SumOf(s, f) == Zero
  {
    if s != [] {
      assert s[0] in s;
      forall x | x in s[1..] ensures f(x) == Zero {
        assert x in s;
      }
      SumOfZero(s[1..], f);
    }
  }

  /** Taking the same element out of two permutations of each other. */
  lemma RemoveFromPermutation<T>(s: seq<T>, s': seq<T>, i: nat)
    requires s != [] && i < |s'| && s'[i] == s[0]
    requires multiset(s) == multiset(s')
    ensures multiset(s[1..]) == multiset(s'[..i] + s'[i + 1..])
  {
    var x, left, right := s[0], s'[..i], s'[i + 1..];
    assert s' == left + [x] + right;
    assert s == [x] + s[1..];
    forall y ensures multiset(s[1..])[y] == multiset(left + right)[y] {
      assert multiset(s)[y] == multiset([x])[y] + multiset(s[1..])[y];
      assert multiset(s')[y] == multiset(left)[y] + multiset([x])[y] + multiset(right)[y];
      assert multiset(left + right)[y] == multiset(left)[y] + multiset(right)[y];
    }
    assert multiset(s[1..]) == multiset(left + right);
  }

  /** One term taken out of the middle of a sum. */
  lemma SumOfMiddle<T>(left: seq<T>, x: T, right: seq<T>, f: T -> Counts)
    ensures SumOf(left + [x] + right, f) == Add(f(x), SumOf(left + right, f))
  {
    assert left + [x] + right == left + ([x] + right);
    SumOfConcat(left, [x] + right, f);
    SumOfConcat(left, right, f);
    assert ([x] + right)[1..] == right;
  }

  /** A sum does not depend on the order of what is summed. */
  lemma {:induction false} SumOfPermutation<T>(s: seq<T>, s': seq<T>, f: T -> Counts)
    requires multiset(s) == multiset(s')
    ensures SumOf(s, f) == SumOf(s', f)
    decreases |s|
  {
    if s == [] {
      assert |s'| == |multiset(s')| == 0;
    } else {
      assert s[0] in multiset(s');
      var i :| 0 <= i < |s'| && s'[i] == s[0];
      RemoveFromPermutation(s, s', i);
      SumOfPermutation(s[1..], s'[..i] + s'[i + 1..], f);
      assert s' == s'[..i] + [s[0]] + s'[i + 1..];
      SumOfMiddle(s'[..i], s[0], s'[i + 1..], f);
    }
  }

  /** Reordering the directories, or the roots, reorders the contributions. */
  lemma {:induction false} FlatMapPermutation<T>(s: seq<T>, s': seq<T>, f: T -> seq<Contribution>)
    requires multiset(s) == multiset(s')
    ensures multiset(FlatMap(s, f)) == multiset(FlatMap(s', f))
    decreases |s|
  {
    if s == [] {
      assert |s'| == |multiset(s')| == 0;
    } else {
      assert s[0] in multiset(s');
      var i :| 0 <= i < |s'| && s'[i] == s[0];
      var left, right := s'[..i], s'[i + 1..];
      RemoveFromPermutation(s, s', i);
      FlatMapPermutation(s[1..], left + right, f);
      assert s' == left + ([s[0]] + right);
      FlatMapConcat(left, [s[0]] + right, f);
      FlatMapConcat(left, right, f);
      assert ([s[0]] + right)[1..] == right;
    }
  }

  /** What a contribution adds to `topic`. */
  function CountsFor(topic: string): Contribution -> Counts
  {
    (c: Contribution) => if c.topic == topic then c.counts else Zero
  }

  /** The totals of `topic` over a list of contributions. */
  function TopicTotal(cs: seq<Contribution>, topic: string): Counts
  {
    SumOf(cs, CountsFor(topic))
  }

  predicate Mentions(cs: seq<Contribution>, topic: string)
  {
    exists c :: c in cs && c.topic == topic
  }

  function GetOr(stats: Stats, topic: string): Counts
  {
    if topic in stats then stats[topic] else Zero
  }

  /** The merge seen from one topic. */
  lemma MergeAt(before: Stats, key: string, c: Counts, topic: string)
    ensures topic in Merge(before, key, c) <==> topic in before || key == topic
    ensures topic in Merge(before, key, c) ==>
      Merge(before, key, c)[topic] == Add(GetOr(before, topic), if key == topic then c else Zero)
  {
    if key == topic {
      if topic !in before {
        AddZero(c);
      }
    } else if topic in before {
      AddZero(before[topic]);
    }
  }

  lemma MentionsSnoc(init: seq<Contribution>, c: Contribution, topic: string)
    ensures Mentions(init + [c], topic) <==> Mentions(init, topic) || c.topic == topic
  {
    if Mentions(init + [c], topic) {
      var d :| d in init + [c] && d.topic == topic;
      assert d in init || d == c;
    }
    if Mentions(init, topic) {
      var d :| d in init && d.topic == topic;
      assert d in init + [c];
    }
    assert c in init + [c];
  }

  /** A topic no contribution mentions gets nothing. */
  lemma TopicTotalAbsent(cs: seq<Contribution>, topic: string)
    requires !Mentions(cs, topic)
    ensures TopicTotal(cs, topic) == Zero
  {
    forall d | d in cs ensures CountsFor(topic)(d) == Zero {
    }
    SumOfZero(cs, CountsFor(topic));
  }

  /** Merging contributions inserts exactly the topics they mention. */
  lemma {:induction false} FoldKeys(stats: Stats, cs: seq<Contribution>, topic: string)
    ensures topic in Fold(stats, cs) <==> topic in stats || Mentions(cs, topic)
  {
    if cs != [] {
      var init, c := cs[..|cs| - 1], cs[|cs| - 1];
      FoldKeys(stats, init, topic);
      assert cs == init + [c];
      MergeAt(Fold(stats, init), c.topic, c.counts, topic);
      MentionsSnoc(init, c, topic);
    }
  }

  /** Merging contributions adds to each topic the sum of the counts
      contributed to it. */
  lemma {:induction false} FoldTotals(stats: Stats, cs: seq<Contribution>, topic: string)
    ensures topic in Fold(stats, cs) <==> topic in stats || Mentions(cs, topic)
    ensures topic in Fold(stats, cs) ==> Fold(stats, cs)[topic] == Add(GetOr(stats, topic), TopicTotal(cs, topic))
  {
    FoldKeys(stats, cs, topic);
    if cs == [] {
      AddZero(GetOr(stats, topic));
    } else if topic in Fold(stats, cs) {
      var init, c := cs[..|cs| - 1], cs[|cs| - 1];
      var before := Fold(stats, init);
      var x := CountsFor(topic)(c);
      FoldTotals(stats, init, topic);
      assert cs == init + [c];
      MergeAt(before, c.topic, c.counts, topic);
      assert x == if c.topic == topic then c.counts else Zero;
      SumOfSnoc(init, c, CountsFor(topic));
      if topic in before {
        AddAssociative(GetOr(stats, topic), TopicTotal(init, topic), x);
      } else {
        FoldKeys(stats, init, topic);
        TopicTotalAbsent(init, topic);
        AddZero(x);
      }
    }
  }

  /** The merged dictionary does not depend on the order of the
      contributions. */
  lemma FoldPermutation(stats: Stats, cs: seq<Contribution>, cs': seq<Contribution>)
    requires multiset(cs) == multiset(cs')
    ensures Fold(stats, cs) == Fold(stats, cs')
  {
    var a, b := Fold(stats, cs), Fold(stats, cs');
    forall topic
      ensures topic in a <==> topic in b
      ensures topic in a ==> a[topic] == b[topic]
    {
      FoldTotals(stats, cs, topic);
      FoldTotals(stats, cs', topic);
      SumOfPermutation(cs, cs', CountsFor(topic));
      forall c ensures c in cs <==> c in cs' {
        assert c in cs <==> c in multiset(cs);
      }
    }
  }

  // ---------------------------------------------------------------------
  // What read_callback computes

  /** add_stats inserts exactly the topics of the directories it walks (the
      root excepted, empty directories included) and adds to each topic the
      sum of their counts. */
  lemma AccumulateTotals(stats: Stats, root: string, walk: seq<WalkEntry>, topic: string)
    ensures topic in Accumulate(stats, root, walk) <==> topic in stats || Mentions(Contributions(root, walk), topic)
    ensures topic in Accumulate(stats, root, walk) ==>
      Accumulate(stats, root, walk)[topic] == Add(GetOr(stats, topic), TopicTotal(Contributions(root, walk), topic))
  {
    AccumulateFolds(stats, root, walk);
    FoldTotals(stats, Contributions(root, walk), topic);
  }

  /** After read_callback has folded every root into a fresh dictionary,
      its topics are exactly those of the walked directories, and each
      topic's totals are the sums over all directories, under any root, that
      map to it. */
  lemma AggregateTotals(fs: FileSystem, roots: seq<string>, topic: string)
    ensures topic in Aggregate(fs, roots) <==> Mentions(AllContributions(fs, roots), topic)
    ensures topic in Aggregate(fs, roots) ==>
      Aggregate(fs, roots)[topic] == TopicTotal(AllContributions(fs, roots), topic)
  {
    CollectFolds(map[], fs, roots);
    FoldTotals(map[], AllContributions(fs, roots), topic);
    AddZero(TopicTotal(AllContributions(fs, roots), topic));
  }

  /** The order in which the directories of one root are walked does not
      matter. */
  lemma AccumulateOrderIndependent(stats: Stats, root: string, walk: seq<WalkEntry>, walk': seq<WalkEntry>)
    requires multiset(walk) == multiset(walk')
    ensures Accumulate(stats, root, walk) == Accumulate(stats, root, walk')
  {
    AccumulateFolds(stats, root, walk);
    AccumulateFolds(stats, root, walk');
    FlatMapPermutation(walk, walk', EntryContribution(root));
    FoldPermutation(stats, Contributions(root, walk), Contributions(root, walk'));
  }

  /** The order of the configured roots does not matter. */
  lemma AggregateOrderIndependent(fs: FileSystem, roots: seq<string>, roots': seq<string>)
    requires multiset(roots) == multiset(roots')
    ensures Aggregate(fs, roots) == Aggregate(fs, roots')
  {
    CollectFolds(map[], fs, roots);
    CollectFolds(map[], fs, roots');
    FlatMapPermutation(roots, roots', RootContributions(fs));
    FoldPermutation(map[], AllContributions(fs, roots), AllContributions(fs, roots'));
  }

  /** A topic is mentioned by the flattened contributions exactly when one
      of the parts mentions it. */
  lemma {:induction false} MentionsFlatMap<T>(s: seq<T>, f: T -> seq<Contribution>, topic: string)
    ensures Mentions(FlatMap(s, f), topic) <==> exists x :: x in s && Mentions(f(x), topic)
  {
    if s != [] {
      MentionsFlatMap(s[1..], f, topic);
      var head, tail := f(s[0]), FlatMap(s[1..], f);
      assert FlatMap(s, f) == head + tail;
      if Mentions(head + tail, topic) {
        var d: Contribution :| d in head + tail && d.topic == topic;
        if d in head {
          assert s[0] in s && Mentions(f(s[0]), topic);
        } else {
          var x :| x in s[1..] && Mentions(f(x), topic);
          assert x in s;
        }
      }
      if exists x :: x in s && Mentions(f(x), topic) {
        var x :| x in s && Mentions(f(x), topic);
        var d: Contribution :| d in f(x) && d.topic == topic;
        if x == s[0] {
          assert d in head + tail;
        } else {
          assert x in s[1..];
          var d': Contribution :| d' in tail && d'.topic == topic;
          assert d' in head + tail;
        }
      }
    }
  }

  /** A directory, under root `r`, that is counted under `topic`. */
  predicate Counted(r: string, e: WalkEntry, topic: string)
  {
    e.dirpath != r && TopicKey(r, e.dirpath) == topic
  }

  /** The topics read_callback reports are exactly the keys of the walked
      directories other than the roots themselves. */
  lemma AggregateKeys(fs: FileSystem, roots: seq<string>, topic: string)
    ensures topic in Aggregate(fs, roots) <==>
      exists r, e :: r in roots && e in WalkOf(fs, r) && Counted(r, e, topic)
  {
    AggregateTotals(fs, roots, topic);
    MentionsFlatMap(roots, RootContributions(fs), topic);
    forall r | r in roots
      ensures Mentions(RootContributions(fs)(r), topic) <==> exists e :: e in WalkOf(fs, r) && Counted(r, e, topic)
    {
      RootMentions(fs, r, topic);
    }
  }

  /** The walk of one root mentions a topic exactly when one of its
      directories is counted under it. */
  lemma RootMentions(fs: FileSystem, r: string, topic: string)
    ensures Mentions(RootContributions(fs)(r), topic) <==> exists e :: e in WalkOf(fs, r) && Counted(r, e, topic)
  {
    MentionsFlatMap(WalkOf(fs, r), EntryContribution(r), topic);
    forall e | e in WalkOf(fs, r)
      ensures Mentions(EntryContribution(r)(e), topic) <==> Counted(r, e, topic)
    {
      EntryMentions(r, e, topic);
    }
  }

  /** A walked directory mentions a topic exactly when it is counted under
      it. */
  lemma EntryMentions(r: string, e: WalkEntry, topic: string)
    ensures Mentions(EntryContribution(r)(e), topic) <==> Counted(r, e, topic)
  {
    if e.dirpath != r {
      assert EntryContribution(r)(e)[0] in EntryContribution(r)(e);
    }
  }

  /** A configured root that does not exist adds nothing and draws no
      warning: `os.walk` yields nothing for it. */
  lemma MissingRootIgnored(fs: FileSystem, roots: seq<string>, r: string)
    requires r !in fs
    ensures Aggregate(fs, roots + [r]) == Aggregate(fs, roots)
  {
    assert (roots + [r])[..|roots|] == roots;
    assert WalkOf(fs, r) == [];
  }

  /** Two partitions of one topic under one root, with the root written
      without and with its trailing separator. */
  function ScenarioWalk(root: string, sep: string): seq<WalkEntry>
  {
    [ WalkEntry(root, []),
      WalkEntry(root + sep + "orders-0", [FileEntry("00000000000000000000.log", 1024)]),
      WalkEntry(root + sep + "orders-1", [FileEntry("00000000000000000000.log", 2048)]) ]
  }

  lemma ScenarioTotals(root: string, sep: string, topic: string)
    requires TopicKey(root, root + sep + "orders-0") == topic
    requires TopicKey(root, root + sep + "orders-1") == topic
    ensures Aggregate(map[root := ScenarioWalk(root, sep)], [root]) == map[topic := Counts(3072, 2)]
  {
    var log := "00000000000000000000.log";
    assert IsLogFile(log) by {
      assert log[|log| - 4..] == ".log";
    }
    var f0, f1 := [FileEntry(log, 1024)], [FileEntry(log, 2048)];
    assert DirCounts(f0) == Counts(1024, 1) by {
      assert f0[..0] == [];
      assert DirSize(f0) == 1024;
      assert LogCount(f0) == 1;
    }
    assert DirCounts(f1) == Counts(2048, 1) by {
      assert f1[..0] == [];
      assert DirSize(f1) == 2048;
      assert LogCount(f1) == 1;
    }
    var w := ScenarioWalk(root, sep);
    var fs := map[root := w];
    assert w[1].dirpath != root && w[2].dirpath != root by {
      assert |w[1].dirpath| > |root| && |w[2].dirpath| > |root|;
    }
    assert w[..1] == [w[0]] && w[..2] == [w[0], w[1]] && w[..3] == w;
    assert w[..1][..0] == [] && w[..2][..1] == w[..1];
    var m1 := Accumulate(map[], root, w[..1]);
    assert m1 == Step(Accumulate(map[], root, []), root, w[0]);
    assert m1 == map[];
    var m2 := Accumulate(map[], root, w[..2]);
    assert m2 == Step(m1, root, w[1]);
    assert m2 == map[topic := Counts(1024, 1)];
    assert Accumulate(map[], root, w) == Step(m2, root, w[2]);
    assert Accumulate(map[], root, w) == map[topic := Counts(3072, 2)];
    assert [root][..0] == [];
    assert Aggregate(fs, [root]) == Accumulate(Collect(map[], fs, []), root, WalkOf(fs, root));
  }

  /** The root written without a trailing separator: the key keeps it. */
  lemma ScenarioWithoutSeparator()
    ensures Aggregate(map["/data/kafka" := ScenarioWalk("/data/kafka", "/")], ["/data/kafka"])
         == map["/orders" := Counts(3072, 2)]
  {
    var r := "/data/kafka";
    assert !Occurs("/orders-0", r) && !Occurs("/orders-1", r);
    assert AllDigits("0") && AllDigits("1");
    assert r + "/" + "orders-0" == r + "/orders-0" && "/orders-0" == "/orders" + "-" + "0";
    assert r + "/" + "orders-1" == r + "/orders-1" && "/orders-1" == "/orders" + "-" + "1";
    PartitionOfChild(r, "/orders-0");
    StripsIndex("/orders", "0");
    PartitionOfChild(r, "/orders-1");
    StripsIndex("/orders", "1");
    ScenarioTotals(r, "/", "/orders");
  }

  /** The root written with a trailing separator: the key is the bare name. */
  lemma ScenarioWithSeparator()
    ensures Aggregate(map["/data/kafka/" := ScenarioWalk("/data/kafka/", "")], ["/data/kafka/"])
         == map["orders" := Counts(3072, 2)]
  {
    var r := "/data/kafka/";
    assert !Occurs("orders-0", r) && !Occurs("orders-1", r);
    assert AllDigits("0") && AllDigits("1");
    assert r + "" + "orders-0" == r + "orders-0" && "orders-0" == "orders" + "-" + "0";
    assert r + "" + "orders-1" == r + "orders-1" && "orders-1" == "orders" + "-" + "1";
    PartitionOfChild(r, "orders-0");
    StripsIndex("orders", "0");
    PartitionOfChild(r, "orders-1");
    StripsIndex("orders", "1");
    ScenarioTotals(r, "", "orders");
  }

  /** `/data/kafka` holding `orders-0` (1024 bytes) and `orders-1` (2048
      bytes), one `.log` file each: the topic key keeps the separator when
      the root is written without one. */
  lemma TwoPartitionsScenario()
    ensures Aggregate(map["/data/kafka" := ScenarioWalk("/data/kafka", "/")], ["/data/kafka"])
         == map["/orders" := Counts(3072, 2)]
    ensures Aggregate(map["/data/kafka/" := ScenarioWalk("/data/kafka/", "")], ["/data/kafka/"])
         == map["orders" := Counts(3072, 2)]
  {
    ScenarioWithoutSeparator();
    ScenarioWithSeparator();
  }
}
