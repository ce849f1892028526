/** Merging is compositional: merging the merges of two runs of chunk results gives
    the merge of both runs together. The names come out in the same first-seen
    order, and every category (and every partition inside it) gets the same pages,
    confidence and partitions. */
module MergeComposition {
  import opened ClassifyTypes
  import opened SortedPages
  import opened MergeRules

  // ----- First-seen order on plain names -----

  function Names(ps: seq<Partition>): (ns: seq<string>)
    ensures |ns| == |ps| && forall i :: 0 <= i < |ps| ==> ns[i] == ps[i].name
  {
    seq(|ps|, i requires 0 <= i < |ps| => ps[i].name)
  }

  /** Each name once, at the position of its first occurrence. */
  function Dedup(ns: seq<string>): seq<string> {
    if ns == [] then []
    else
      var r := Dedup(ns[..|ns| - 1]);
      if ns[|ns| - 1] in r then r else r + [ns[|ns| - 1]]
  }

  lemma DedupSnoc(ns: seq<string>, c: string)
    ensures Dedup(ns + [c]) == if c in Dedup(ns) then Dedup(ns) else Dedup(ns) + [c]
  {
    assert (ns + [c])[..|ns|] == ns;
  }

  lemma {:induction false} DedupMembers(ns: seq<string>)
    ensures forall c :: c in Dedup(ns) <==> c in ns
  {
    if ns != [] {
      var init, c := ns[..|ns| - 1], ns[|ns| - 1];
      assert ns == init + [c];
      DedupMembers(init);
    }
  }

  lemma {:induction false} DedupDistinct(ns: seq<string>)
    ensures Distinct(Dedup(ns))
  {
    if ns != [] {
      var init, c := ns[..|ns| - 1], ns[|ns| - 1];
      DedupDistinct(init);
      var r := Dedup(init);
      if c !in r {
        forall k, l | 0 <= k < l < |r + [c]| ensures (r + [c])[k] != (r + [c])[l] {
          if l == |r| {
            assert (r + [c])[k] == r[k] && r[k] in r;
          } else {
            assert (r + [c])[k] == r[k] && (r + [c])[l] == r[l];
          }
        }
      }
    }
  }

  /** A list without repeats is its own first-seen order. */
  lemma {:induction false} DedupOfDistinct(ns: seq<string>)
    requires Distinct(ns)
    ensures Dedup(ns) == ns
  {
    if ns != [] {
      var init, c := ns[..|ns| - 1], ns[|ns| - 1];
      assert ns == init + [c];
      assert Distinct(init) by {
        forall k, l | 0 <= k < l < |init| ensures init[k] != init[l] {
          assert init[k] == ns[k] && init[l] == ns[l];
        }
      }
      DedupOfDistinct(init);
      assert c !in init by {
        forall i | 0 <= i < |init| ensures init[i] != c {
          assert init[i] == ns[i];
        }
      }
      DedupSnoc(init, c);
    }
  }

  /** Taking first-seen order piecewise and then of the whole is taking it of the whole. */
  lemma {:induction false} DedupOfDedups(x: seq<string>, y: seq<string>)
    ensures Dedup(Dedup(x) + Dedup(y)) == Dedup(x + y)
    decreases |y|
  {
    if y == [] {
      assert Dedup(x) + Dedup(y) == Dedup(x) && x + y == x;
      DedupDistinct(x);
      DedupOfDistinct(Dedup(x));
    } else {
      var init, c := y[..|y| - 1], y[|y| - 1];
      assert y == init + [c];
      assert x + y == (x + init) + [c];
      DedupOfDedups(x, init);
      DedupSnoc(init, c);
      DedupSnoc(x + init, c);
      DedupMembers(x + init);
      DedupMembers(init);
      DedupMembers(x);
      if c in Dedup(init) {
        assert c in x + init;
      } else {
        var front := Dedup(x) + Dedup(init);
        assert Dedup(x) + Dedup(y) == front + [c];
        DedupSnoc(front, c);
        DedupMembers(front);
        assert c in front <==> c in x + init;
      }
    }
  }

  lemma {:induction false} FirstSeenIsDedup(ps: seq<Partition>)
    ensures FirstSeen(ps) == Dedup(Names(ps))
  {
    if ps != [] {
      var init, last := ps[..|ps| - 1], ps[|ps| - 1];
      FirstSeenIsDedup(init);
      assert Names(ps) == Names(init) + [last.name];
      DedupSnoc(Names(init), last.name);
    }
  }

  // ----- One level -----

  lemma NamesAppend(u: seq<Partition>, v: seq<Partition>)
    ensures Names(u + v) == Names(u) + Names(v)
  {
  }

  lemma NamesOfMergeLevel(ps: seq<Partition>)
    ensures Names(MergeLevel(ps)) == FirstSeen(ps)
  {
  }

  /** A merged level lists its names in the order the records it came from did. */
  lemma FirstSeenOfMergeLevels(x: seq<Partition>, y: seq<Partition>)
    ensures FirstSeen(MergeLevel(x) + MergeLevel(y)) == FirstSeen(x + y)
  {
    var mx, my := MergeLevel(x), MergeLevel(y);
    FirstSeenIsDedup(mx + my);
    NamesAppend(mx, my);
    NamesOfMergeLevel(x);
    NamesOfMergeLevel(y);
    FirstSeenIsDedup(x);
    FirstSeenIsDedup(y);
    DedupOfDedups(Names(x), Names(y));
    NamesAppend(x, y);
    FirstSeenIsDedup(x + y);
  }

  /** A merged level holds the same pages and the same `low` marks per name as the
      records it came from. */
  lemma MergeLevelKeepsContents(ps: seq<Partition>, n: string)
    ensures forall p :: Contributes(MergeLevel(ps), n, p) <==> Contributes(ps, n, p)
    ensures AnyLow(MergeLevel(ps), n) <==> AnyLow(ps, n)
  {
    var out := MergeLevel(ps);
    MergeLevelCorrect(ps);
    forall p ensures Contributes(out, n, p) <==> Contributes(ps, n, p) {
      if Contributes(out, n, p) {
        var r :| r in out && r.name == n && p in r.pages;
        var k :| 0 <= k < |out| && out[k] == r;
      }
      if Contributes(ps, n, p) {
        assert Occurs(ps, n);
        var r :| r in out && r.name == n;
        var k :| 0 <= k < |out| && out[k] == r;
      }
    }
    if AnyLow(out, n) {
      var r :| r in out && r.name == n && r.conf == Low;
      var k :| 0 <= k < |out| && out[k] == r;
    }
    if AnyLow(ps, n) {
      assert Occurs(ps, n);
      var r :| r in out && r.name == n;
      var k :| 0 <= k < |out| && out[k] == r;
    }
  }

  lemma MergedPartitionOfMergeLevels(x: seq<Partition>, y: seq<Partition>, n: string)
    ensures MergedPartition(MergeLevel(x) + MergeLevel(y), n) == MergedPartition(x + y, n)
  {
    var u := MergeLevel(x) + MergeLevel(y);
    PagesOfSpec(u, n);
    PagesOfSpec(x + y, n);
    MergeLevelKeepsContents(x, n);
    MergeLevelKeepsContents(y, n);
    var a, b := SortedUnique(PagesOf(u, n)), SortedUnique(PagesOf(x + y, n));
    assert Elems(a) == Elems(b) by {
      forall p ensures p in Elems(PagesOf(u, n)) <==> p in Elems(PagesOf(x + y, n)) {
        assert Contributes(u, n, p) <==> Contributes(MergeLevel(x), n, p) || Contributes(MergeLevel(y), n, p);
        assert Contributes(x + y, n, p) <==> Contributes(x, n, p) || Contributes(y, n, p);
      }
    }
    AscendingUnique(a, b);
    assert AnyLow(u, n) <==> AnyLow(MergeLevel(x), n) || AnyLow(MergeLevel(y), n);
    assert AnyLow(x + y, n) <==> AnyLow(x, n) || AnyLow(y, n);
  }

  /** Merging two merged levels is merging the records they came from. */
  lemma MergeOfMergeLevels(x: seq<Partition>, y: seq<Partition>)
    ensures MergeLevel(MergeLevel(x) + MergeLevel(y)) == MergeLevel(x + y)
  {
    var u := MergeLevel(x) + MergeLevel(y);
    FirstSeenOfMergeLevels(x, y);
    var l, r := MergeLevel(u), MergeLevel(x + y);
    forall j | 0 <= j < |l| ensures l[j] == r[j] {
      MergedPartitionOfMergeLevels(x, y, FirstSeen(u)[j]);
    }
  }

  lemma MergeLevelEmpty(ps: seq<Partition>)
    ensures MergeLevel(ps) == [] <==> ps == []
  {
  }

  // ----- The split level -----

  lemma HeadsAppend(a: seq<Split>, b: seq<Split>)
    ensures Heads(a + b) == Heads(a) + Heads(b)
  {
  }

  lemma HeadsOfMerged(ss: seq<Split>)
    ensures Heads(Merged(ss)) == MergeLevel(Heads(ss))
  {
    MergedShape(ss);
  }

  lemma {:induction false} PartitionsForAppend(a: seq<Split>, b: seq<Split>, n: string)
    ensures PartitionsFor(a + b, n) == PartitionsFor(a, n) + PartitionsFor(b, n)
    decreases |b|
  {
    if b == [] {
      assert a + b == a;
    } else {
      var init, last := b[..|b| - 1], b[|b| - 1];
      assert (a + b)[..|a + b| - 1] == a + init && (a + b)[|a + b| - 1] == last;
      PartitionsForAppend(a, init, n);
    }
  }

  /** In a list where only split `k` is named `n`, the partitions of category `n` are
      those of split `k`. */
  lemma {:induction false} PartitionsForOnly(ss: seq<Split>, n: string, k: nat)
    requires k < |ss| && ss[k].name == n
    requires forall j :: 0 <= j < |ss| && j != k ==> ss[j].name != n
    ensures PartitionsFor(ss, n) == ss[k].partitions.GetOr([])
  {
    var init, last := ss[..|ss| - 1], ss[|ss| - 1];
    if k == |ss| - 1 {
      PartitionsForSpec(init, n);
      assert !SplitNamed(init, n) by {
        forall j | 0 <= j < |init| ensures init[j].name != n {
          assert init[j] == ss[j];
        }
      }
    } else {
      PartitionsForOnly(init, n, k);
    }
  }

  /** The merged splits carry, per category, the merged partitions of that category. */
  lemma PartitionsForMerged(ss: seq<Split>, n: string)
    ensures PartitionsFor(Merged(ss), n) == MergeLevel(PartitionsFor(ss, n))
  {
    var out := Merged(ss);
    MergeOnePerName(ss);
    MergeNames(ss);
    PartitionsForSpec(ss, n);
    PartitionsForSpec(out, n);
    if SplitNamed(out, n) {
      var s :| s in out && s.name == n;
      var k :| 0 <= k < |out| && out[k] == s;
      PartitionsForOnly(out, n, k);
      assert out[k] == MergedSplit(ss, n);
      MergeLevelEmpty(PartitionsFor(ss, n));
    } else {
      assert forall x :: !PartitionOf(out, n, x);
      assert forall x :: !PartitionOf(ss, n, x);
      MergeLevelEmpty(PartitionsFor(ss, n));
    }
  }

  lemma MergedSplitOfMerges(a: seq<Split>, b: seq<Split>, n: string)
    ensures MergedSplit(Merged(a) + Merged(b), n) == MergedSplit(a + b, n)
  {
    var ma, mb := Merged(a), Merged(b);
    HeadsAppend(ma, mb);
    HeadsOfMerged(a);
    HeadsOfMerged(b);
    HeadsAppend(a, b);
    MergedPartitionOfMergeLevels(Heads(a), Heads(b), n);
    assert MergedPartition(Heads(ma + mb), n) == MergedPartition(Heads(a + b), n);
    PartitionsForAppend(ma, mb, n);
    PartitionsForMerged(a, n);
    PartitionsForMerged(b, n);
    PartitionsForAppend(a, b, n);
    var pa, pb := PartitionsFor(a, n), PartitionsFor(b, n);
    MergeLevelEmpty(pa);
    MergeLevelEmpty(pb);
    MergeOfMergeLevels(pa, pb);
  }

  /** Merging the merges of two runs of chunk results is merging both runs at once:
      the merge can be applied to partial results and again to their merges. */
  lemma MergeOfMerges(a: seq<Split>, b: seq<Split>)
    ensures Merged(Merged(a) + Merged(b)) == Merged(a + b)
  {
    var u := Merged(a) + Merged(b);
    HeadsAppend(Merged(a), Merged(b));
    HeadsOfMerged(a);
    HeadsOfMerged(b);
    HeadsAppend(a, b);
    FirstSeenOfMergeLevels(Heads(a), Heads(b));
    var l, r := Merged(u), Merged(a + b);
    forall j | 0 <= j < |l| ensures l[j] == r[j] {
      MergedSplitOfMerges(a, b, FirstSeen(Heads(u))[j]);
    }
  }
}
