/** What `mergeSplits` (node-ocr) and `_merge_splits` (python-ocr) compute, stated
    without mutation, and the properties of that result.

    Both levels of the merge group records that carry a name, a page list and a
    confidence: the splits of all chunks by category name, and, inside one
    category, the partitions by partition name. The one-level definitions below
    work on `Partition` records; splits enter them through `Head`. */
module MergeRules {
  import opened Wrappers
  import opened ClassifyTypes
  import opened SortedPages

  // ----- One grouping level -----

  /** Some record in `ps` is named `n`. */
  ghost predicate Occurs(ps: seq<Partition>, n: string) {
    exists x :: x in ps && x.name == n
  }

  /** Some record in `ps` named `n` lists page `p`. */
  ghost predicate Contributes(ps: seq<Partition>, n: string, p: int) {
    exists x :: x in ps && x.name == n && p in x.pages
  }

  /** Some record in `ps` named `n` is marked `low`. */
  predicate AnyLow(ps: seq<Partition>, n: string) {
    exists x :: x in ps && x.name == n && x.conf == Low
  }

  /** Confidence starts `high` and becomes `low` once any contributor is `low`. */
  function ConfOf(ps: seq<Partition>, n: string): Conf {
    if AnyLow(ps, n) then Low else High
  }

  /** The distinct names of `ps`, each at the position of its first appearance. */
  function FirstSeen(ps: seq<Partition>): seq<string> {
    if ps == [] then []
    else
      var names := FirstSeen(ps[..|ps| - 1]);
      if ps[|ps| - 1].name in names then names else names + [ps[|ps| - 1].name]
  }

  /** All pages listed under name `n`, in the order they are pushed. */
  function PagesOf(ps: seq<Partition>, n: string): seq<int> {
    if ps == [] then []
    else PagesOf(ps[..|ps| - 1], n) + (if ps[|ps| - 1].name == n then ps[|ps| - 1].pages else [])
  }

  function MergedPartition(ps: seq<Partition>, n: string): Partition {
    Partition(n, SortedUnique(PagesOf(ps, n)), ConfOf(ps, n))
  }

  function MergedPartitions(ps: seq<Partition>, names: seq<string>): seq<Partition> {
    seq(|names|, j requires 0 <= j < |names| => MergedPartition(ps, names[j]))
  }

  /** One record per distinct name, in first-seen order. */
  function MergeLevel(ps: seq<Partition>): seq<Partition> {
    MergedPartitions(ps, FirstSeen(ps))
  }

  ghost predicate Distinct(names: seq<string>) {
    forall k, l :: 0 <= k < l < |names| ==> names[k] != names[l]
  }

  /** Some record named `n` appears in `ps` before position `j`. */
  ghost predicate OccursBefore(ps: seq<Partition>, n: string, j: int) {
    exists i :: 0 <= i < j && i < |ps| && ps[i].name == n
  }

  /** A name listed later is never seen before every name listed earlier has been. */
  ghost predicate InFirstSeenOrder(names: seq<string>, ps: seq<Partition>) {
    forall k, l, j :: 0 <= k < l < |names| && 0 <= j < |ps| && ps[j].name == names[l] ==>
      OccursBefore(ps, names[k], j)
  }

  lemma SnocMembers<T>(s: seq<T>)
    requires s != []
    ensures s == s[..|s| - 1] + [s[|s| - 1]]
    ensures forall x :: x in s <==> x in s[..|s| - 1] || x == s[|s| - 1]
  {
  }

  lemma {:induction false} FirstSeenSpec(ps: seq<Partition>)
    ensures forall n :: n in FirstSeen(ps) <==> Occurs(ps, n)
    ensures Distinct(FirstSeen(ps))
    ensures InFirstSeenOrder(FirstSeen(ps), ps)
  {
    FirstSeenMembers(ps);
    FirstSeenDistinct(ps);
    FirstSeenOrder(ps);
  }

  lemma {:induction false} FirstSeenMembers(ps: seq<Partition>)
    ensures forall n :: n in FirstSeen(ps) <==> Occurs(ps, n)
  {
    if ps != [] {
      var init, last := ps[..|ps| - 1], ps[|ps| - 1];
      SnocMembers(ps);
      FirstSeenMembers(init);
      var names, out := FirstSeen(init), FirstSeen(ps);
      forall n ensures n in out <==> Occurs(ps, n) {
        if Occurs(ps, n) {
          var x :| x in ps && x.name == n;
          if x != last { assert Occurs(init, n); }
        }
        if n in names {
          var x :| x in init && x.name == n;
          assert x in ps;
        }
      }
    }
  }

  lemma {:induction false} FirstSeenDistinct(ps: seq<Partition>)
    ensures Distinct(FirstSeen(ps))
  {
    if ps != [] {
      var init := ps[..|ps| - 1];
      FirstSeenDistinct(init);
      var names, out := FirstSeen(init), FirstSeen(ps);
      forall k, l | 0 <= k < l < |out| ensures out[k] != out[l] {
        assert out[k] == names[k];
        if l == |names| {
          assert names[k] in names;
        } else {
          assert out[l] == names[l];
        }
      }
    }
  }

  lemma {:induction false} FirstSeenOrder(ps: seq<Partition>)
    ensures InFirstSeenOrder(FirstSeen(ps), ps)
  {
    if ps != [] {
      var init := ps[..|ps| - 1];
      FirstSeenMembers(init);
      FirstSeenOrder(init);
      var names, out := FirstSeen(init), FirstSeen(ps);
      assert out[..|names|] == names;
      forall k, l, j | 0 <= k < l < |out| && 0 <= j < |ps| && ps[j].name == out[l]
        ensures OccursBefore(ps, out[k], j)
      {
        assert out[k] == names[k];
        if j < |init| {
          assert init[j] == ps[j];
          assert init[j] in init;
          assert out[l] in names;
          assert l < |names|;
          assert OccursBefore(init, names[k], j);
        } else {
          assert names[k] in names;
          var x :| x in init && x.name == names[k];
          var i :| 0 <= i < |init| && init[i] == x;
          assert ps[i] == x;
        }
      }
    }
  }

  lemma {:induction false} PagesOfSpec(ps: seq<Partition>, n: string)
    ensures forall p :: p in PagesOf(ps, n) <==> Contributes(ps, n, p)
  {
    if ps != [] {
      var init, last := ps[..|ps| - 1], ps[|ps| - 1];
      SnocMembers(ps);
      PagesOfSpec(init, n);
      forall p ensures p in PagesOf(ps, n) <==> Contributes(ps, n, p) {
        if Contributes(ps, n, p) {
          var x :| x in ps && x.name == n && p in x.pages;
          if x != last { assert Contributes(init, n, p); }
        }
        if Contributes(init, n, p) {
          var x :| x in init && x.name == n && p in x.pages;
          assert x in ps;
        }
      }
    }
  }

  /** The merge of one level: one record per distinct name (names that carry no
      pages included), in first-seen order; its pages are strictly ascending and are
      exactly the pages listed under that name anywhere; it is `low` exactly when
      some record of that name is `low`. */
  lemma MergeLevelCorrect(ps: seq<Partition>)
    ensures var out := MergeLevel(ps);
      && Distinct(FirstSeen(ps))
      && |out| == |FirstSeen(ps)|
      && (forall k :: 0 <= k < |out| ==> out[k].name == FirstSeen(ps)[k])
      && (forall n :: Occurs(out, n) <==> Occurs(ps, n))
      && InFirstSeenOrder(FirstSeen(ps), ps)
      && (forall k :: 0 <= k < |out| ==> StrictlyAscending(out[k].pages))
      && (forall k, p :: 0 <= k < |out| ==> (p in out[k].pages <==> Contributes(ps, out[k].name, p)))
      && (forall k :: 0 <= k < |out| ==> (out[k].conf == Low <==> AnyLow(ps, out[k].name)))
  {
    var out, names := MergeLevel(ps), FirstSeen(ps);
    FirstSeenSpec(ps);
    forall n ensures Occurs(out, n) <==> Occurs(ps, n) {
      if Occurs(ps, n) {
        var k :| 0 <= k < |names| && names[k] == n;
        assert out[k] in out;
      }
      if Occurs(out, n) {
        var x :| x in out && x.name == n;
        var k :| 0 <= k < |out| && out[k] == x;
        assert names[k] in names;
      }
    }
    forall k, p | 0 <= k < |out|
      ensures p in out[k].pages <==> Contributes(ps, out[k].name, p)
    {
      PagesOfSpec(ps, names[k]);
      assert p in out[k].pages <==> p in Elems(out[k].pages);
      assert p in PagesOf(ps, names[k]) <==> p in Elems(PagesOf(ps, names[k]));
    }
  }

  // ----- The split level -----

  function Heads(ss: seq<Split>): seq<Partition> {
    seq(|ss|, i requires 0 <= i < |ss| => Head(ss[i]))
  }

  /** All partitions carried by splits named `n`, in order; `null`/`None` and `[]`
      contribute nothing. */
  function PartitionsFor(ss: seq<Split>, n: string): seq<Partition> {
    if ss == [] then []
    else (PartitionsFor(ss[..|ss| - 1], n)
          + (if ss[|ss| - 1].name == n then ss[|ss| - 1].partitions.GetOr([]) else []))
  }

  /** The merged split for category `n`; `partitions` stays absent unless some split
      of that category carried a partition. */
  function MergedSplit(ss: seq<Split>, n: string): Split {
    var parts := PartitionsFor(ss, n);
    Split(n, SortedUnique(PagesOf(Heads(ss), n)), ConfOf(Heads(ss), n),
          if parts == [] then None else Some(MergeLevel(parts)))
  }

  function MergedSplits(ss: seq<Split>, names: seq<string>): seq<Split> {
    seq(|names|, j requires 0 <= j < |names| => MergedSplit(ss, names[j]))
  }

  /** The merge of a list of splits, taken in chunk order. */
  function Merged(ss: seq<Split>): seq<Split> {
    MergedSplits(ss, FirstSeen(Heads(ss)))
  }

  /** The splits of all chunk results, chunk by chunk. */
  function AllSplits(rs: seq<ClassifyResult>): seq<Split> {
    if rs == [] then [] else AllSplits(rs[..|rs| - 1]) + rs[|rs| - 1].splits
  }

  // ----- Statements about the input splits -----

  ghost predicate SplitNamed(ss: seq<Split>, n: string) {
    exists s :: s in ss && s.name == n
  }

  ghost predicate SplitPage(ss: seq<Split>, n: string, p: int) {
    exists s :: s in ss && s.name == n && p in s.pages
  }

  ghost predicate SplitLow(ss: seq<Split>, n: string) {
    exists s :: s in ss && s.name == n && s.conf == Low
  }

  /** Partition `x` is carried by some split of category `n`. */
  ghost predicate PartitionOf(ss: seq<Split>, n: string, x: Partition) {
    exists s :: s in ss && s.name == n && s.partitions.Some? && x in s.partitions.value
  }

  ghost predicate PartitionNamed(ss: seq<Split>, n: string, m: string) {
    exists x :: PartitionOf(ss, n, x) && x.name == m
  }

  ghost predicate PartitionPage(ss: seq<Split>, n: string, m: string, p: int) {
    exists x :: PartitionOf(ss, n, x) && x.name == m && p in x.pages
  }

  ghost predicate PartitionLow(ss: seq<Split>, n: string, m: string) {
    exists x :: PartitionOf(ss, n, x) && x.name == m && x.conf == Low
  }

  lemma HeadsMembers(ss: seq<Split>)
    ensures forall x :: x in Heads(ss) <==> exists s :: s in ss && x == Head(s)
    ensures forall n :: Occurs(Heads(ss), n) <==> SplitNamed(ss, n)
    ensures forall n, p :: Contributes(Heads(ss), n, p) <==> SplitPage(ss, n, p)
    ensures forall n :: AnyLow(Heads(ss), n) <==> SplitLow(ss, n)
  {
    var hs := Heads(ss);
    forall x ensures x in hs <==> exists s :: s in ss && x == Head(s) {
      if x in hs {
        var i :| 0 <= i < |hs| && hs[i] == x;
        assert ss[i] in ss;
      }
      if exists s :: s in ss && x == Head(s) {
        var s :| s in ss && x == Head(s);
        var i :| 0 <= i < |ss| && ss[i] == s;
        assert hs[i] == x;
      }
    }
    forall n ensures Occurs(hs, n) <==> SplitNamed(ss, n) {
      if SplitNamed(ss, n) {
        var s :| s in ss && s.name == n;
        assert Head(s) in hs;
      }
    }
    forall n, p ensures Contributes(hs, n, p) <==> SplitPage(ss, n, p) {
      if SplitPage(ss, n, p) {
        var s :| s in ss && s.name == n && p in s.pages;
        assert Head(s) in hs;
      }
    }
    forall n ensures AnyLow(hs, n) <==> SplitLow(ss, n) {
      if SplitLow(ss, n) {
        var s :| s in ss && s.name == n && s.conf == Low;
        assert Head(s) in hs;
      }
    }
  }

  lemma {:induction false} PartitionsForMembers(ss: seq<Split>, n: string)
    ensures forall x :: x in PartitionsFor(ss, n) <==> PartitionOf(ss, n, x)
  {
    if ss != [] {
      var init, last := ss[..|ss| - 1], ss[|ss| - 1];
      SnocMembers(ss);
      PartitionsForMembers(init, n);
      forall x ensures x in PartitionsFor(ss, n) <==> PartitionOf(ss, n, x) {
        if PartitionOf(ss, n, x) {
          var s :| s in ss && s.name == n && s.partitions.Some? && x in s.partitions.value;
          if s != last { assert PartitionOf(init, n, x); }
        }
        if PartitionOf(init, n, x) {
          var s :| s in init && s.name == n && s.partitions.Some? && x in s.partitions.value;
          assert s in ss;
        }
      }
    }
  }

  /** Inside category `n`, the partition-level predicates are the one-level ones
      applied to `PartitionsFor(ss, n)`. */
  lemma PartitionsForSpec(ss: seq<Split>, n: string)
    ensures PartitionsFor(ss, n) == [] <==> forall x :: !PartitionOf(ss, n, x)
    ensures forall m :: Occurs(PartitionsFor(ss, n), m) <==> PartitionNamed(ss, n, m)
    ensures forall m, p :: Contributes(PartitionsFor(ss, n), m, p) <==> PartitionPage(ss, n, m, p)
    ensures forall m :: AnyLow(PartitionsFor(ss, n), m) <==> PartitionLow(ss, n, m)
  {
    PartitionsForMembers(ss, n);
    var ps := PartitionsFor(ss, n);
    if ps != [] {
      assert PartitionOf(ss, n, ps[0]);
    }
  }

  lemma MergedShape(ss: seq<Split>)
    ensures var out, hs := Merged(ss), MergeLevel(Heads(ss));
      |out| == |hs| && forall k :: 0 <= k < |out| ==> Head(out[k]) == hs[k]
  {
  }

  lemma MergeNames(ss: seq<Split>)
    ensures |Merged(ss)| == |FirstSeen(Heads(ss))|
    ensures forall k :: 0 <= k < |Merged(ss)| ==> Merged(ss)[k].name == FirstSeen(Heads(ss))[k]
  {
  }

  /** One merged split per distinct category name that occurs in any input split,
      names with empty page lists included and unknown names kept. */
  lemma MergeOnePerName(ss: seq<Split>)
    ensures var out := Merged(ss);
      && (forall k, l :: 0 <= k < l < |out| ==> out[k].name != out[l].name)
      && (forall n :: SplitNamed(out, n) <==> SplitNamed(ss, n))
  {
    var out, names := Merged(ss), FirstSeen(Heads(ss));
    MergeNames(ss);
    FirstSeenSpec(Heads(ss));
    HeadsMembers(ss);
    forall n ensures SplitNamed(out, n) <==> SplitNamed(ss, n) {
      if SplitNamed(out, n) {
        var s :| s in out && s.name == n;
        var k :| 0 <= k < |out| && out[k] == s;
        assert names[k] in names;
      }
      if SplitNamed(ss, n) {
        assert n in names;
        var k :| 0 <= k < |names| && names[k] == n;
        assert out[k] in out;
      }
    }
  }

  /** Splits come out in the order their names are first seen across the chunks. */
  lemma MergeFirstSeenOrder(ss: seq<Split>)
    ensures var out := Merged(ss);
      forall k, l, j :: 0 <= k < l < |out| && 0 <= j < |ss| && ss[j].name == out[l].name ==>
        exists i :: 0 <= i < j && ss[i].name == out[k].name
  {
    var out, hs := Merged(ss), Heads(ss);
    FirstSeenSpec(hs);
    forall k, l, j | 0 <= k < l < |out| && 0 <= j < |ss| && ss[j].name == out[l].name
      ensures exists i :: 0 <= i < j && ss[i].name == out[k].name
    {
      assert hs[j].name == FirstSeen(hs)[l];
      assert OccursBefore(hs, FirstSeen(hs)[k], j);
      var i :| 0 <= i < j && i < |hs| && hs[i].name == FirstSeen(hs)[k];
      assert ss[i].name == out[k].name;
    }
  }

  /** A merged split's pages are strictly ascending (so no page repeats) and are
      exactly the pages any input split of that category listed. */
  lemma MergePagesAreUnion(ss: seq<Split>)
    ensures var out := Merged(ss);
      forall k :: 0 <= k < |out| ==>
        && StrictlyAscending(out[k].pages)
        && (forall p :: p in out[k].pages <==> SplitPage(ss, out[k].name, p))
  {
    var out, hs := Merged(ss), MergeLevel(Heads(ss));
    MergeLevelCorrect(Heads(ss));
    HeadsMembers(ss);
    forall k | 0 <= k < |out|
      ensures StrictlyAscending(out[k].pages)
      ensures forall p :: p in out[k].pages <==> SplitPage(ss, out[k].name, p)
    {
      assert out[k].pages == hs[k].pages;
    }
  }

  /** A merged split is `low` exactly when some input split of that category is. */
  lemma MergeConfLowIff(ss: seq<Split>)
    ensures var out := Merged(ss);
      forall k :: 0 <= k < |out| ==> (out[k].conf == Low <==> SplitLow(ss, out[k].name))
  {
    HeadsMembers(ss);
  }

  /** Partitions merge by the same rules one level down: `partitions` is absent
      exactly when no split of the category carried a partition; otherwise there is
      one partition per distinct partition name, its pages strictly ascending and
      exactly the pages listed under that name in the category, and it is `low`
      exactly when some contributing partition is. */
  lemma MergePartitions(ss: seq<Split>)
    ensures var out := Merged(ss);
      forall k :: 0 <= k < |out| ==> (out[k].partitions.None? <==> forall x :: !PartitionOf(ss, out[k].name, x))
    ensures var out := Merged(ss);
      forall k :: 0 <= k < |out| && out[k].partitions.Some? ==>
        var q, n := out[k].partitions.value, out[k].name;
        && (forall a, b :: 0 <= a < b < |q| ==> q[a].name != q[b].name)
        && (forall m :: Occurs(q, m) <==> PartitionNamed(ss, n, m))
        && (forall a :: 0 <= a < |q| ==> StrictlyAscending(q[a].pages))
        && (forall a, p :: 0 <= a < |q| ==> (p in q[a].pages <==> PartitionPage(ss, n, q[a].name, p)))
        && (forall a :: 0 <= a < |q| ==> (q[a].conf == Low <==> PartitionLow(ss, n, q[a].name)))
  {
    var out := Merged(ss);
    forall k | 0 <= k < |out|
      ensures out[k].partitions.None? <==> forall x :: !PartitionOf(ss, out[k].name, x)
      ensures out[k].partitions.Some? ==>
        var q, n := out[k].partitions.value, out[k].name;
        && (forall a, b :: 0 <= a < b < |q| ==> q[a].name != q[b].name)
        && (forall m :: Occurs(q, m) <==> PartitionNamed(ss, n, m))
        && (forall a :: 0 <= a < |q| ==> StrictlyAscending(q[a].pages))
        && (forall a, p :: 0 <= a < |q| ==> (p in q[a].pages <==> PartitionPage(ss, n, q[a].name, p)))
        && (forall a :: 0 <= a < |q| ==> (q[a].conf == Low <==> PartitionLow(ss, n, q[a].name)))
    {
      var n := out[k].name;
      PartitionsForSpec(ss, n);
      MergeLevelCorrect(PartitionsFor(ss, n));
    }
  }

  lemma {:induction false} AllSplitsMembers(rs: seq<ClassifyResult>)
    ensures forall s :: s in AllSplits(rs) <==> exists r :: r in rs && s in r.splits
  {
    if rs != [] {
      var init, last := rs[..|rs| - 1], rs[|rs| - 1];
      SnocMembers(rs);
      AllSplitsMembers(init);
      forall s ensures s in AllSplits(rs) <==> exists r :: r in rs && s in r.splits {
        if exists r :: r in rs && s in r.splits {
          var r :| r in rs && s in r.splits;
          if r != last { assert s in AllSplits(init); }
        }
        if s in AllSplits(init) {
          var r :| r in init && s in r.splits;
          assert r in rs;
        }
      }
    }
  }

  // ----- Order of the chunk results -----

  lemma MergedPartitionSameMembers(ps1: seq<Partition>, ps2: seq<Partition>, m: string)
    requires forall x :: x in ps1 <==> x in ps2
    ensures MergedPartition(ps1, m) == MergedPartition(ps2, m)
  {
    PagesOfSpec(ps1, m);
    PagesOfSpec(ps2, m);
    var a, b := SortedUnique(PagesOf(ps1, m)), SortedUnique(PagesOf(ps2, m));
    assert Elems(a) == Elems(b) by {
      forall p ensures p in Elems(PagesOf(ps1, m)) <==> p in Elems(PagesOf(ps2, m)) {
        assert Contributes(ps1, m, p) <==> Contributes(ps2, m, p);
      }
    }
    AscendingUnique(a, b);
    assert AnyLow(ps1, m) <==> AnyLow(ps2, m);
  }

  lemma MergeLevelSameMembers(ps1: seq<Partition>, ps2: seq<Partition>)
    requires forall x :: x in ps1 <==> x in ps2
    ensures forall x :: x in MergeLevel(ps1) <==> x in MergeLevel(ps2)
  {
    FirstSeenSpec(ps1);
    FirstSeenSpec(ps2);
    forall x | x in MergeLevel(ps1) ensures x in MergeLevel(ps2) {
      var j :| 0 <= j < |MergeLevel(ps1)| && MergeLevel(ps1)[j] == x;
      var m := FirstSeen(ps1)[j];
      assert m in FirstSeen(ps1);
      assert Occurs(ps2, m);
      var l :| 0 <= l < |FirstSeen(ps2)| && FirstSeen(ps2)[l] == m;
      MergedPartitionSameMembers(ps1, ps2, m);
      assert MergeLevel(ps2)[l] == x;
    }
    forall x | x in MergeLevel(ps2) ensures x in MergeLevel(ps1) {
      var j :| 0 <= j < |MergeLevel(ps2)| && MergeLevel(ps2)[j] == x;
      var m := FirstSeen(ps2)[j];
      assert m in FirstSeen(ps2);
      assert Occurs(ps1, m);
      var l :| 0 <= l < |FirstSeen(ps1)| && FirstSeen(ps1)[l] == m;
      MergedPartitionSameMembers(ps1, ps2, m);
      assert MergeLevel(ps1)[l] == x;
    }
  }

  /** Two split lists with the same members merge, category by category, to the same
      pages, the same confidence, and the same partitions up to their order. */
  lemma MergedSplitSameMembers(ss1: seq<Split>, ss2: seq<Split>, n: string)
    requires forall s :: s in ss1 <==> s in ss2
    ensures var a, b := MergedSplit(ss1, n), MergedSplit(ss2, n);
      && a.pages == b.pages && a.conf == b.conf && a.partitions.None? == b.partitions.None?
      && (a.partitions.Some? && b.partitions.Some? ==>
            forall x :: x in a.partitions.value <==> x in b.partitions.value)
  {
    HeadsMembers(ss1);
    HeadsMembers(ss2);
    MergedPartitionSameMembers(Heads(ss1), Heads(ss2), n);
    PartitionsForMembers(ss1, n);
    PartitionsForMembers(ss2, n);
    var p1, p2 := PartitionsFor(ss1, n), PartitionsFor(ss2, n);
    assert forall x :: x in p1 <==> x in p2 by {
      forall x ensures PartitionOf(ss1, n, x) <==> PartitionOf(ss2, n, x) {
        if PartitionOf(ss1, n, x) {
          var s :| s in ss1 && s.name == n && s.partitions.Some? && x in s.partitions.value;
          assert s in ss2;
        }
        if PartitionOf(ss2, n, x) {
          var s :| s in ss2 && s.name == n && s.partitions.Some? && x in s.partitions.value;
          assert s in ss1;
        }
      }
    }
    if p1 != [] { assert p1[0] in p2; }
    if p2 != [] { assert p2[0] in p1; }
    MergeLevelSameMembers(p1, p2);
  }

  /** Reordering the chunk results changes at most the order of the output: the same
      categories come out, each with the same pages and confidence, partitions absent
      for the same categories, and otherwise the same partitions in some order. */
  lemma MergeIgnoresChunkOrder(rs1: seq<ClassifyResult>, rs2: seq<ClassifyResult>)
    requires multiset(rs1) == multiset(rs2)
    ensures var o1, o2 := Merged(AllSplits(rs1)), Merged(AllSplits(rs2));
      && (forall n :: SplitNamed(o1, n) <==> SplitNamed(o2, n))
      && forall k, l :: 0 <= k < |o1| && 0 <= l < |o2| && o1[k].name == o2[l].name ==>
           && o1[k].pages == o2[l].pages && o1[k].conf == o2[l].conf
           && o1[k].partitions.None? == o2[l].partitions.None?
           && (o1[k].partitions.Some? && o2[l].partitions.Some? ==>
                 forall x :: x in o1[k].partitions.value <==> x in o2[l].partitions.value)
  {
    var ss1, ss2 := AllSplits(rs1), AllSplits(rs2);
    AllSplitsMembers(rs1);
    AllSplitsMembers(rs2);
    assert forall r :: r in rs1 <==> r in rs2 by {
      forall r ensures r in rs1 <==> r in rs2 {
        assert r in rs1 <==> r in multiset(rs1);
        assert r in rs2 <==> r in multiset(rs2);
      }
    }
    assert forall s :: s in ss1 <==> s in ss2;
    MergeOnePerName(ss1);
    MergeOnePerName(ss2);
    forall n ensures SplitNamed(ss1, n) <==> SplitNamed(ss2, n) {
      if SplitNamed(ss1, n) { var s :| s in ss1 && s.name == n; assert s in ss2; }
      if SplitNamed(ss2, n) { var s :| s in ss2 && s.name == n; assert s in ss1; }
    }
    var o1, o2 := Merged(ss1), Merged(ss2);
    forall k, l | 0 <= k < |o1| && 0 <= l < |o2| && o1[k].name == o2[l].name
      ensures && o1[k].pages == o2[l].pages && o1[k].conf == o2[l].conf
              && o1[k].partitions.None? == o2[l].partitions.None?
              && (o1[k].partitions.Some? && o2[l].partitions.Some? ==>
                    forall x :: x in o1[k].partitions.value <==> x in o2[l].partitions.value)
    {
      MergeNames(ss1);
      MergeNames(ss2);
      assert o1[k] == MergedSplit(ss1, o1[k].name);
      assert o2[l] == MergedSplit(ss2, o2[l].name);
      MergedSplitSameMembers(ss1, ss2, o1[k].name);
    }
  }

  /** The output order follows the chunk order: the same two splits merged in the
      two possible orders come out in two different orders. */
  lemma ChunkOrderDecidesSplitOrder()
    ensures var a, b := Split("invoice", [1], High, None), Split("receipt", [2], Low, None);
      Merged([a, b]) == [a, b] && Merged([b, a]) == [b, a]
  {
    var a, b := Split("invoice", [1], High, None), Split("receipt", [2], Low, None);
    assert "invoice" != "receipt" by { assert "invoice"[0] != "receipt"[0]; }
    TwoDistinctSplits(a, b);
    TwoDistinctSplits(b, a);
  }

  /** The records named `n` in a list of two records. */
  lemma PagesOfPair(h1: Partition, h2: Partition, n: string)
    ensures PagesOf([h1, h2], n)
         == (if h1.name == n then h1.pages else []) + (if h2.name == n then h2.pages else [])
  {
    assert [h1, h2][..1] == [h1] && [h1][..0] == [];
    assert PagesOf([h1], n) == [] + (if h1.name == n then h1.pages else []);
  }

  /** The partitions carried by the splits named `n` in a list of two splits. */
  lemma PartitionsForPair(s1: Split, s2: Split, n: string)
    ensures PartitionsFor([s1, s2], n)
         == (if s1.name == n then s1.partitions.GetOr([]) else [])
          + (if s2.name == n then s2.partitions.GetOr([]) else [])
  {
    assert [s1, s2][..1] == [s1] && [s1][..0] == [];
    assert PartitionsFor([s1], n) == [] + (if s1.name == n then s1.partitions.GetOr([]) else []);
  }

  /** In a list of two records with different names, each name has its own
      record's confidence. */
  lemma ConfOfPair(h1: Partition, h2: Partition)
    requires h1.name != h2.name
    ensures ConfOf([h1, h2], h1.name) == h1.conf
    ensures ConfOf([h1, h2], h2.name) == h2.conf
  {
    var hs := [h1, h2];
    assert forall x :: x in hs <==> x == h1 || x == h2;
  }

  /** Two records with different names are seen in their order. */
  lemma FirstSeenPair(h1: Partition, h2: Partition)
    requires h1.name != h2.name
    ensures FirstSeen([h1, h2]) == [h1.name, h2.name]
  {
    assert [h1, h2][..1] == [h1] && [h1][..0] == [];
    assert FirstSeen([h1]) == [h1.name];
  }

  /** The merged split of either name in a list of two partition-free splits of
      different categories with ascending pages is that name's split. */
  lemma PairMergesToItself(a: Split, b: Split)
    requires a.name != b.name && a.partitions.None? && b.partitions.None?
    requires StrictlyAscending(a.pages) && StrictlyAscending(b.pages)
    ensures MergedSplit([a, b], a.name) == a
    ensures MergedSplit([a, b], b.name) == b
  {
    var ss := [a, b];
    var hs := Heads(ss);
    HeadsPair(a, b);
    PagesOfPair(Head(a), Head(b), a.name);
    PagesOfPair(Head(a), Head(b), b.name);
    assert PagesOf(hs, a.name) == a.pages;
    assert PagesOf(hs, b.name) == b.pages;
    PartitionsForPair(a, b, a.name);
    PartitionsForPair(a, b, b.name);
    assert PartitionsFor(ss, a.name) == [] && PartitionsFor(ss, b.name) == [];
    ConfOfPair(Head(a), Head(b));
    AscendingUnique(SortedUnique(a.pages), a.pages);
    AscendingUnique(SortedUnique(b.pages), b.pages);
  }

  /** Two splits of different categories without partitions, each with strictly
      ascending pages, merge to themselves in their order. */
  lemma TwoDistinctSplits(a: Split, b: Split)
    requires a.name != b.name && a.partitions.None? && b.partitions.None?
    requires StrictlyAscending(a.pages) && StrictlyAscending(b.pages)
    ensures Merged([a, b]) == [a, b]
  {
    HeadsPair(a, b);
    FirstSeenPair(Head(a), Head(b));
    PairMergesToItself(a, b);
    MergedSplitsPair([a, b], a.name, b.name);
  }

  lemma HeadsPair(a: Split, b: Split)
    ensures Heads([a, b]) == [Head(a), Head(b)]
  {
  }

  lemma MergedSplitsPair(ss: seq<Split>, n1: string, n2: string)
    ensures MergedSplits(ss, [n1, n2]) == [MergedSplit(ss, n1), MergedSplit(ss, n2)]
  {
  }

  // ----- node-ocr's `mergeSplits` as written -----

  /** The members every plain JavaScript object inherits from `Object.prototype`. */
  const ObjectPrototypeNames: set<string> :=
    {"constructor", "hasOwnProperty", "isPrototypeOf", "propertyIsEnumerable",
     "toLocaleString", "toString", "valueOf", "__proto__",
     "__defineGetter__", "__defineSetter__", "__lookupGetter__", "__lookupSetter__"}

  /** A split named after an inherited member, or carrying a partition that is. */
  predicate InheritedName(s: Split) {
    || s.name in ObjectPrototypeNames
    || (s.partitions.Some? && exists x :: x in s.partitions.value && x.name in ObjectPrototypeNames)
  }

  /** `mergeSplits` exactly as node-ocr writes it. Both tables are plain objects
      (`{}`), so for an inherited name `categoryMap[split.name]` (or
      `cat.partitions[partition.name]`) yields the inherited function or object,
      which is truthy: no record is created, and the next `.pages.push(...)` reads
      `push` of `undefined` and throws a TypeError. Every other input merges as
      `Merged` says. */
  function MergeAsWrittenTs(ss: seq<Split>): Result<seq<Split>> {
    if exists s :: s in ss && InheritedName(s)
    then Err("TypeError: Cannot read properties of undefined (reading 'push')")
    else Ok(Merged(ss))
  }

  /** A chunk whose only split is the category "toString" makes node-ocr's merge
      throw, while the intended merge (and python-ocr's) returns that split. */
  lemma PrototypeNameCrashes()
    ensures MergeAsWrittenTs([Split("toString", [1], High, None)]).Err?
    ensures Merged([Split("toString", [1], High, None)]) == [Split("toString", [1], High, None)]
  {
    var ss := [Split("toString", [1], High, None)];
    assert ss[0] in ss && InheritedName(ss[0]);
    assert Heads(ss) == [Partition("toString", [1], High)];
    assert FirstSeen(Heads(ss)) == ["toString"];
    assert PagesOf(Heads(ss), "toString") == [1];
    assert SortedUnique([1]) == [1];
    assert PartitionsFor(ss, "toString") == [];
    assert !AnyLow(Heads(ss), "toString");
  }
}
