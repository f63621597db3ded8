/**
 Names derived from a walked directory path (kafka_disk.py, add_stats):
 the partition name is the path with the configured root string deleted, and
 the topic name is the partition name without its trailing `-<digits>` index.
 */
module TopicNames {

  /** True iff `pat` occurs in `s` starting at index `i`. */
  predicate OccursAt(s: string, pat: string, i: int)
  {
    0 <= i && i + |pat| <= |s| && s[i..i + |pat|] == pat
  }

  /** True iff `pat` occurs anywhere in `s`. */
  predicate Occurs(s: string, pat: string)
  {
    exists i :: 0 <= i <= |s| - |pat| && OccursAt(s, pat, i)
  }

  /** Python's `s.replace(pat, "")`: scans from the left and deletes every
      non-overlapping occurrence of `pat`; an empty `pat` deletes nothing. */
  function RemoveAll(s: string, pat: string): (r: string)
    ensures |r| <= |s|
    decreases |s|
  {
    if pat == [] || |s| < |pat| then s
    else if s[..|pat|] == pat then RemoveAll(s[|pat|..], pat)
    else [s[0]] + RemoveAll(s[1..], pat)
  }

  /** The partition name of a walked directory (kafka_disk.py:47). */
  function Partition(dirpath: string, root: string): string
  {
    RemoveAll(dirpath, root)
  }

  predicate IsDigit(c: char)
  {
    '0' <= c <= '9'
  }

  predicate AllDigits(s: string)
  {
    forall i :: 0 <= i < |s| ==> IsDigit(s[i])
  }

  /** The length of the longest suffix of `s` made of ASCII digits. */
  function TrailingDigits(s: string): (k: nat)
    ensures k <= |s|
    ensures AllDigits(s[|s| - k..])
    ensures k < |s| ==> !IsDigit(s[|s| - k - 1])
  {
    if s == [] || !IsDigit(s[|s| - 1]) then 0
    else
      var k := TrailingDigits(s[..|s| - 1]);
      DigitsExtend(s, k);
      k + 1
  }

  /** A digit after a run of `k` trailing digits of `s` without its last
      character makes a run of `k + 1`. */
  lemma DigitsExtend(s: string, k: nat)
    requires s != [] && IsDigit(s[|s| - 1])
    requires k <= |s| - 1 && AllDigits(s[..|s| - 1][|s| - 1 - k..])
    requires k < |s| - 1 ==> !IsDigit(s[|s| - k - 2])
    ensures AllDigits(s[|s| - k - 1..])
    ensures k + 1 < |s| ==> !IsDigit(s[|s| - k - 2])
  {
    var t, u := s[..|s| - 1], s[|s| - k - 1..];
    forall i | 0 <= i < |u|
      ensures IsDigit(u[i])
    {
      if i < k {
        assert u[i] == t[|t| - k..][i];
      }
    }
  }

  /** True iff `p` ends in `-` followed by one or more ASCII digits: the
      text that `re.sub(r"-\d+$", "", p)` deletes. */
  predicate HasIndexSuffix(p: string)
  {
    exists i :: 0 <= i < |p| - 1 && p[i] == '-' && AllDigits(p[i + 1..])
  }

  /** The topic name of a partition name (kafka_disk.py:48): one trailing
      `-<digits>` is removed, so the topic is a prefix of the partition name,
      and a strictly shorter one only when it is followed by `-` and digits. */
  function Topic(partition: string): (topic: string)
    ensures topic <= partition
    ensures topic != partition ==>
      |topic| < |partition| - 1 && partition[|topic|] == '-' && AllDigits(partition[|topic| + 1..])
  {
    var k := TrailingDigits(partition);
    if 0 < k < |partition| && partition[|partition| - k - 1] == '-'
    then partition[..|partition| - k - 1]
    else partition
  }

  /** The key under which a walked directory is counted. */
  function TopicKey(root: string, dirpath: string): string
  {
    Topic(Partition(dirpath, root))
  }

  // ---------------------------------------------------------------------
  // The partition name

  /** A path with no occurrence of the root is left as it is. */
  lemma {:induction false} RemoveAllAbsent(s: string, pat: string)
    requires !Occurs(s, pat)
    ensures RemoveAll(s, pat) == s
    decreases |s|
  {
    if pat == [] || |s| < |pat| {
    } else {
      assert !OccursAt(s, pat, 0);
      forall i | OccursAt(s[1..], pat, i) ensures OccursAt(s, pat, i + 1) {
        assert s[i + 1..i + 1 + |pat|] == s[1..][i..i + |pat|];
      }
      RemoveAllAbsent(s[1..], pat);
    }
  }

  /** A path with an occurrence of a non-empty root always loses it. */
  lemma {:induction false} RemoveAllShrinks(s: string, pat: string)
    requires pat != [] && Occurs(s, pat)
    ensures |RemoveAll(s, pat)| < |s|
    decreases |s|
  {
    var i :| 0 <= i <= |s| - |pat| && OccursAt(s, pat, i);
    if s[..|pat|] != pat {
      assert 1 <= i;
      assert s[1..][i - 1..i - 1 + |pat|] == s[i..i + |pat|];
      assert OccursAt(s[1..], pat, i - 1);
      RemoveAllShrinks(s[1..], pat);
    }
  }

  /** `str.replace` changes the path exactly when the root occurs in it. */
  lemma RemoveAllUnchangedIff(s: string, pat: string)
    ensures RemoveAll(s, pat) == s <==> (pat == [] || !Occurs(s, pat))
  {
    if pat != [] && Occurs(s, pat) {
      RemoveAllShrinks(s, pat);
    } else if pat != [] {
      RemoveAllAbsent(s, pat);
    }
  }

  /** A leading copy of the root is deleted, and the scan goes on after it. */
  lemma RemoveLeading(pat: string, s: string)
    requires pat != []
    ensures RemoveAll(pat + s, pat) == RemoveAll(s, pat)
  {
    assert (pat + s)[..|pat|] == pat;
    assert (pat + s)[|pat|..] == s;
  }

  /** A directory beneath the root whose relative part does not contain the
      root again has that relative part, separator included, as its name. */
  lemma PartitionOfChild(root: string, rest: string)
    requires root != [] && !Occurs(rest, root)
    ensures Partition(root + rest, root) == rest
  {
    RemoveLeading(root, rest);
    RemoveAllAbsent(rest, root);
  }

  /** Dropping the first character moves every occurrence one place left. */
  lemma OccursShift(s: string, pat: string, i: nat)
    requires s != []
    ensures OccursAt(s[1..], pat, i) <==> OccursAt(s, pat, i + 1)
  {
    if i + 1 + |pat| <= |s| {
      assert s[1..][i..i + |pat|] == s[i + 1..i + 1 + |pat|];
    }
  }

  /** Where the root does not start, the first character is kept and the
      rest is scanned on. */
  lemma RemoveAllKeepsFirst(s: string, pat: string)
    requires pat != [] && |s| >= |pat| && !OccursAt(s, pat, 0)
    ensures RemoveAll(s, pat) == [s[0]] + RemoveAll(s[1..], pat)
  {
    assert s[..|pat|] == s[0..|pat|];
  }

  lemma ConsSplit(a: string, r: string)
    requires a != []
    ensures [a[0]] + (a[1..] + r) == a + r
  {
    assert a == [a[0]] + a[1..];
  }

  /** An occurrence of the root further into the path is deleted whole: the
      text before it, where the root does not start, is kept as it is, and
      the scan goes on after it. */
  lemma {:induction false} RemoveAllAfter(a: string, pat: string, b: string)
    requires pat != []
    requires forall i :: 0 <= i < |a| ==> !OccursAt(a + pat + b, pat, i)
    ensures RemoveAll(a + pat + b, pat) == a + RemoveAll(b, pat)
    decreases |a|
  {
    if a == [] {
      assert a + pat + b == pat + b;
      RemoveLeading(pat, b);
    } else {
      var s, t := a + pat + b, a[1..] + pat + b;
      assert s[1..] == t;
      forall i | 0 <= i < |a| - 1
        ensures !OccursAt(t, pat, i)
      {
        OccursShift(s, pat, i);
      }
      RemoveAllKeepsFirst(s, pat);
      RemoveAllAfter(a[1..], pat, b);
      ConsSplit(a, RemoveAll(b, pat));
    }
  }

  /** An example of RemoveAllAfter: root `/d` turns `/d/x/d` into `/x`. */
  lemma EveryOccurrenceRemoved()
    ensures Partition("/d/x/d", "/d") == "/x"
  {
    var d := "/d";
    assert "/d/x/d" == d + ("/x" + d);
    RemoveLeading(d, "/x" + d);
    assert "/x" + d == "/x" + d + "";
    assert !OccursAt("/x" + d + "", d, 0) && !OccursAt("/x" + d + "", d, 1);
    RemoveAllAfter("/x", d, "");
  }

  // ---------------------------------------------------------------------
  // The topic name

  /** Any `k` with the three properties of `TrailingDigits` is its value. */
  lemma TrailingDigitsUnique(s: string, k: nat)
    requires k <= |s| && AllDigits(s[|s| - k..])
    requires k < |s| ==> !IsDigit(s[|s| - k - 1])
    ensures TrailingDigits(s) == k
  {
  }

  /** `<t>-<n>` with `n` one or more digits names topic `t`, whatever `t` is. */
  lemma StripsIndex(t: string, n: string)
    requires |n| > 0 && AllDigits(n)
    ensures Topic(t + "-" + n) == t
  {
    var p := t + "-" + n;
    assert p[|p| - |n|..] == n;
    assert p[|p| - |n| - 1] == '-';
    TrailingDigitsUnique(p, |n|);
    assert p[..|p| - |n| - 1] == t;
  }

  /** A trailing `-<digits>` is always removed. */
  lemma IndexSuffixRemoved(p: string)
    requires HasIndexSuffix(p)
    ensures Topic(p) != p
  {
    var i :| 0 <= i < |p| - 1 && p[i] == '-' && AllDigits(p[i + 1..]);
    var t, n := p[..i], p[i + 1..];
    assert p == t + "-" + n;
    StripsIndex(t, n);
    assert |Topic(p)| == i < |p|;
  }

  /** Whatever is removed is a trailing `-<digits>`. */
  lemma RemovedIsIndexSuffix(p: string)
    requires Topic(p) != p
    ensures HasIndexSuffix(p)
  {
    var i := |Topic(p)|;
    assert 0 <= i < |p| - 1 && p[i] == '-' && AllDigits(p[i + 1..]);
  }

  /** The topic equals the partition name exactly when that name has no
      trailing `-<digits>`. */
  lemma TopicUnchangedIff(p: string)
    ensures Topic(p) == p <==> !HasIndexSuffix(p)
  {
    if HasIndexSuffix(p) {
      IndexSuffixRemoved(p);
    }
    if Topic(p) != p {
      RemovedIsIndexSuffix(p);
    }
  }

  /** A trailing `-<digits>` that starts at `i` behind the separator starts
      at `i - 1` in the name itself. */
  lemma IndexSuffixWithoutSlash(n: string, i: int)
    requires 0 <= i < |n| && ("/" + n)[i] == '-' && AllDigits(("/" + n)[i + 1..])
    ensures HasIndexSuffix(n)
  {
    var p := "/" + n;
    assert p[i + 1..] == n[i..];
    assert n[i - 1] == '-' && AllDigits(n[(i - 1) + 1..]);
  }

  /** A trailing `-<digits>` that starts at `i` in a name starts at `i + 1`
      behind the separator. */
  lemma IndexSuffixWithSlash(n: string, i: int)
    requires 0 <= i < |n| - 1 && n[i] == '-' && AllDigits(n[i + 1..])
    ensures HasIndexSuffix("/" + n)
  {
    var p := "/" + n;
    assert p[(i + 1) + 1..] == n[i + 1..];
    assert p[i + 1] == '-' && AllDigits(p[(i + 1) + 1..]);
  }

  /** A separator in front of a name neither adds nor removes a trailing
      `-<digits>`. */
  lemma IndexSuffixBehindSlash(n: string)
    ensures HasIndexSuffix("/" + n) <==> HasIndexSuffix(n)
  {
    if HasIndexSuffix("/" + n) {
      var i :| 0 <= i < |"/" + n| - 1 && ("/" + n)[i] == '-' && AllDigits(("/" + n)[i + 1..]);
      IndexSuffixWithoutSlash(n, i);
    }
    if HasIndexSuffix(n) {
      var i :| 0 <= i < |n| - 1 && n[i] == '-' && AllDigits(n[i + 1..]);
      IndexSuffixWithSlash(n, i);
    }
  }

  lemma Reassociate(w: string, x: string, y: string, z: string)
    ensures w + (x + y + z) == (w + x) + y + z
  {
  }

  /** A separator in front of a name is kept in front of its topic. */
  lemma TopicBehindSlash(n: string)
    ensures Topic("/" + n) == "/" + Topic(n)
  {
    if HasIndexSuffix(n) {
      var i :| 0 <= i < |n| - 1 && n[i] == '-' && AllDigits(n[i + 1..]);
      var t, d := n[..i], n[i + 1..];
      assert n == t + "-" + d;
      StripsIndex(t, d);
      Reassociate("/", t, "-", d);
      StripsIndex("/" + t, d);
    } else {
      IndexSuffixBehindSlash(n);
      TopicUnchangedIff(n);
      TopicUnchangedIff("/" + n);
    }
  }

  /** An occurrence of `root + "/"` in a name is an occurrence of `root`
      one place later once a separator is put in front of the name. */
  lemma OccursBehindSlash(name: string, root: string, i: int)
    requires OccursAt(name, root + "/", i)
    ensures OccursAt("/" + name, root, i + 1)
  {
    assert ("/" + name)[i + 1..i + 1 + |root|] == name[i..i + |root| + 1][..|root|];
  }

  /** A root given without a trailing separator yields a key that starts
      with the separator, so `/r` and `/r/` count the same directory under
      two different topics. */
  lemma RootSeparatorChangesKey(root: string, name: string)
    requires root != [] && !Occurs("/" + name, root)
    ensures TopicKey(root, root + "/" + name) == "/" + TopicKey(root + "/", root + "/" + name)
    ensures TopicKey(root, root + "/" + name) != TopicKey(root + "/", root + "/" + name)
  {
    var r2 := root + "/";
    forall i | 0 <= i <= |name| - |r2| && OccursAt(name, r2, i)
      ensures 0 <= i + 1 <= |"/" + name| - |root| && OccursAt("/" + name, root, i + 1)
    {
      OccursBehindSlash(name, root, i);
    }
    assert root + "/" + name == root + ("/" + name);
    PartitionOfChild(root, "/" + name);
    assert root + "/" + name == r2 + name;
    PartitionOfChild(r2, name);
    TopicBehindSlash(name);
  }

  /** Exactly one trailing index is removed. */
  lemma IndexRemovedExamples()
    ensures Topic("orders-3") == "orders"
    ensures Topic("a-1-2") == "a-1"
  {
    assert "orders-3" == "orders" + "-" + "3";
    StripsIndex("orders", "3");
    assert "a-1-2" == "a-1" + "-" + "2";
    StripsIndex("a-1", "2");
  }

  /** Names without a trailing `-<digits>` are kept as they are. */
  lemma UnchangedExamples()
    ensures Topic("orders") == "orders"
    ensures Topic("orders-") == "orders-"
  {
    assert TrailingDigits("orders") == 0;
    assert TrailingDigits("orders-") == 0;
  }
}
