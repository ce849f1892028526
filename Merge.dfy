/** `mergeSplits` / `_merge_splits` as the source runs it: a table from category
    name to a mutable record, filled split by split, then converted to splits. */
module Merge {
  import opened Wrappers
  import opened ClassifyTypes
  import opened SortedPages
  import opened MergeRules

  /** A partition record under construction, `{ pages, conf }`. */
  datatype PartData = PartData(pages: seq<int>, conf: Conf)

  /** A category record under construction (`CategoryMap`): its pushed pages, its
      confidence, and its partition records with their keys in insertion order. */
  datatype CategoryMap = CategoryMap(pages: seq<int>, conf: Conf,
                                     partitionOrder: seq<string>, partitions: map<string, PartData>)

  ghost function Keys(order: seq<string>): set<string> {
    set n | n in order
  }

  /** A partition table holds, for the partitions `ps` folded into it, one record
      per name with that name's pushed pages and its confidence. */
  ghost predicate PartsTally(order: seq<string>, parts: map<string, PartData>, ps: seq<Partition>) {
    && order == FirstSeen(ps)
    && parts.Keys == Keys(order)
    && forall n :: n in parts ==> parts[n] == PartData(PagesOf(ps, n), ConfOf(ps, n))
  }

  /** The whole table, keys in insertion order, after the splits `ss` have been folded in. */
  ghost predicate Tally(order: seq<string>, entries: map<string, CategoryMap>, ss: seq<Split>) {
    && order == FirstSeen(Heads(ss))
    && entries.Keys == Keys(order)
    && forall n :: n in entries ==> EntryTally(entries[n], ss, n)
  }

  /** The record of category `n` after the splits `ss` have been folded in. */
  ghost predicate EntryTally(e: CategoryMap, ss: seq<Split>, n: string) {
    && e.pages == PagesOf(Heads(ss), n)
    && e.conf == ConfOf(Heads(ss), n)
    && PartsTally(e.partitionOrder, e.partitions, PartitionsFor(ss, n))
  }

  lemma SnocPartition(ps: seq<Partition>, p: Partition, n: string)
    ensures (ps + [p])[..|ps|] == ps
    ensures FirstSeen(ps + [p]) == if p.name in FirstSeen(ps) then FirstSeen(ps) else FirstSeen(ps) + [p.name]
    ensures PagesOf(ps + [p], n) == PagesOf(ps, n) + (if p.name == n then p.pages else [])
    ensures ConfOf(ps + [p], n) == if p.name == n && p.conf == Low then Low else ConfOf(ps, n)
  {
    assert (ps + [p])[..|ps|] == ps;
    forall x ensures x in ps + [p] <==> x in ps || x == p { }
  }

  lemma SnocSplit(ss: seq<Split>, s: Split, n: string)
    ensures Heads(ss + [s]) == Heads(ss) + [Head(s)]
    ensures PartitionsFor(ss + [s], n) == PartitionsFor(ss, n) + (if s.name == n then s.partitions.GetOr([]) else [])
  {
    assert (ss + [s])[..|ss|] == ss;
  }

  lemma {:induction false} PagesOfUnseen(ps: seq<Partition>, n: string)
    requires !Occurs(ps, n)
    ensures PagesOf(ps, n) == []
  {
    if ps != [] {
      assert ps[|ps| - 1] in ps;
      assert !Occurs(ps[..|ps| - 1], n) by {
        forall x | x in ps[..|ps| - 1] ensures x.name != n { assert x in ps; }
      }
      PagesOfUnseen(ps[..|ps| - 1], n);
    }
  }

  /** A name not yet seen has no pages and is still `high`. */
  lemma UnseenName(ps: seq<Partition>, n: string)
    requires n !in FirstSeen(ps)
    ensures PagesOf(ps, n) == [] && ConfOf(ps, n) == High
  {
    FirstSeenSpec(ps);
    PagesOfUnseen(ps, n);
  }

  /** The record the partition loop stores for `p`, given the table before it. */
  function NextPart(parts: map<string, PartData>, p: Partition): PartData {
    var before := if p.name in parts then parts[p.name] else PartData([], High);
    PartData(before.pages + p.pages, if p.conf == Low then Low else before.conf)
  }

  /** One step of the partition loop keeps the table in step with the partitions
      folded so far. */
  lemma PartsTallyStep(order: seq<string>, parts: map<string, PartData>, ps: seq<Partition>, p: Partition)
    requires PartsTally(order, parts, ps)
    ensures PartsTally(if p.name in parts then order else order + [p.name],
                       parts[p.name := NextPart(parts, p)], ps + [p])
  {
    var order', parts' := if p.name in parts then order else order + [p.name], parts[p.name := NextPart(parts, p)];
    SnocPartition(ps, p, p.name);
    assert p.name in parts <==> p.name in FirstSeen(ps);
    assert order' == FirstSeen(ps + [p]);
    assert parts'.Keys == Keys(order');
    if p.name !in parts {
      UnseenName(ps, p.name);
    }
    assert parts'[p.name] == PartData(PagesOf(ps + [p], p.name), ConfOf(ps + [p], p.name));
    forall n | n in parts'
      ensures parts'[n] == PartData(PagesOf(ps + [p], n), ConfOf(ps + [p], n))
    {
      if n != p.name {
        SnocPartition(ps, p, n);
      }
    }
  }

  /** A category seen for the first time starts as `{ pages: [], conf: 'high',
      partitions: {} }`, which is what the splits folded so far say about it. */
  lemma FreshEntry(ss: seq<Split>, n: string)
    requires n !in FirstSeen(Heads(ss))
    ensures EntryTally(CategoryMap([], High, [], map[]), ss, n)
  {
    FirstSeenSpec(Heads(ss));
    HeadsMembers(ss);
    PagesOfUnseen(Heads(ss), n);
    PartitionsForUnnamed(ss, n);
  }

  lemma {:induction false} PartitionsForUnnamed(ss: seq<Split>, n: string)
    requires !SplitNamed(ss, n)
    ensures PartitionsFor(ss, n) == []
  {
    if ss != [] {
      assert ss[|ss| - 1] in ss;
      assert !SplitNamed(ss[..|ss| - 1], n) by {
        forall s | s in ss[..|ss| - 1] ensures s.name != n { assert s in ss; }
      }
      PartitionsForUnnamed(ss[..|ss| - 1], n);
    }
  }

  lemma FirstSeenEmpty(ps: seq<Partition>)
    ensures FirstSeen(ps) == [] <==> ps == []
  {
    if ps != [] {
      assert ps[|ps| - 1].name in FirstSeen(ps);
    }
  }

  lemma KeysEmpty(order: seq<string>)
    ensures Keys(order) == {} <==> order == []
  {
    if order != [] {
      assert order[0] in Keys(order);
    }
  }

  /** Folding split `s` into the record of its own category. */
  lemma EntryStep(e: CategoryMap, ss: seq<Split>, s: Split, cat: CategoryMap)
    requires EntryTally(e, ss, s.name)
    requires cat.pages == e.pages + s.pages
    requires cat.conf == if s.conf == Low then Low else e.conf
    requires PartsTally(cat.partitionOrder, cat.partitions, PartitionsFor(ss, s.name) + s.partitions.GetOr([]))
    ensures EntryTally(cat, ss + [s], s.name)
  {
    SnocSplit(ss, s, s.name);
    SnocPartition(Heads(ss), Head(s), s.name);
  }

  /** Folding split `s` leaves the records of other categories as they were. */
  lemma OtherEntryStep(e: CategoryMap, ss: seq<Split>, s: Split, n: string)
    requires n != s.name && EntryTally(e, ss, n)
    ensures EntryTally(e, ss + [s], n)
  {
    SnocSplit(ss, s, n);
    SnocPartition(Heads(ss), Head(s), n);
    assert PartitionsFor(ss + [s], n) == PartitionsFor(ss, n);
    assert PagesOf(Heads(ss + [s]), n) == PagesOf(Heads(ss), n);
  }

  lemma OrderStep(ss: seq<Split>, s: Split)
    ensures FirstSeen(Heads(ss + [s])) ==
      if s.name in FirstSeen(Heads(ss)) then FirstSeen(Heads(ss)) else FirstSeen(Heads(ss)) + [s.name]
  {
    SnocSplit(ss, s, s.name);
    SnocPartition(Heads(ss), Head(s), s.name);
  }

  /** Storing the updated record of the split's category keeps the whole table in step. */
  lemma TallyStep(order: seq<string>, entries: map<string, CategoryMap>, ss: seq<Split>, s: Split, cat: CategoryMap)
    requires Tally(order, entries, ss)
    requires EntryTally(cat, ss + [s], s.name)
    ensures Tally(if s.name in entries then order else order + [s.name], entries[s.name := cat], ss + [s])
  {
    var order', entries' := if s.name in entries then order else order + [s.name], entries[s.name := cat];
    OrderStep(ss, s);
    assert s.name in entries <==> s.name in FirstSeen(Heads(ss));
    assert order' == FirstSeen(Heads(ss + [s]));
    assert entries'.Keys == Keys(order');
    forall n | n in entries'
      ensures EntryTally(entries'[n], ss + [s], n)
    {
      if n != s.name {
        OtherEntryStep(entries[n], ss, s, n);
      }
    }
  }

  /** Converting one record gives the merged split of its category. */
  lemma ConvertEntry(data: CategoryMap, ss: seq<Split>, n: string)
    requires EntryTally(data, ss, n)
    ensures forall m :: m in data.partitionOrder ==> m in data.partitions
    ensures Split(n, SortedUnique(data.pages), data.conf,
                  if |data.partitions| > 0 then Some(PartitionList(data.partitionOrder, data.partitions)) else None)
            == MergedSplit(ss, n)
  {
    var ps := PartitionsFor(ss, n);
    FirstSeenSpec(ps);
    if |data.partitions| > 0 {
      PartitionListIsMergeLevel(data.partitionOrder, data.partitions, ps);
      assert ps != [];
    } else {
      KeysEmpty(data.partitionOrder);
      FirstSeenEmpty(ps);
    }
  }

  /** The partition loop of `mergeSplits`: for each partition, create its record on
      first sight of the name, push its pages, and turn it `low` if the partition
      is `low`. The category's own pages and confidence are left alone. */
  method FoldPartitions(cat: CategoryMap, parts: seq<Partition>, ghost prior: seq<Partition>)
    returns (r: CategoryMap)
    requires PartsTally(cat.partitionOrder, cat.partitions, prior)
    ensures r.pages == cat.pages && r.conf == cat.conf
    ensures PartsTally(r.partitionOrder, r.partitions, prior + parts)
  {
    r := cat;
    var k := 0;
    ghost var done := prior;
    PrefixStep(prior, parts, 0);
    assert parts[..0] == [];
    while k < |parts|
      invariant 0 <= k <= |parts|
      invariant done == prior + parts[..k]
      invariant r.pages == cat.pages && r.conf == cat.conf
      invariant PartsTally(r.partitionOrder, r.partitions, done)
    {
      var p := parts[k];
      PartsTallyStep(r.partitionOrder, r.partitions, done, p);
      ghost var next := NextPart(r.partitions, p);
      var part: PartData;
      if p.name in r.partitions {
        part := r.partitions[p.name];
      } else {
        part := PartData([], High);
        r := r.(partitionOrder := r.partitionOrder + [p.name]);
      }
      part := part.(pages := part.pages + p.pages);
      if p.conf == Low {
        part := part.(conf := Low);
      }
      assert part == next;
      r := r.(partitions := r.partitions[p.name := part]);
      PrefixStep(prior, parts, k);
      done := done + [p];
      k := k + 1;
    }
    PrefixStep(prior, parts, k);
  }

  /** Extending the processed prefix of `parts` by one element. */
  lemma PrefixStep<T>(prior: seq<T>, parts: seq<T>, k: nat)
    requires k <= |parts|
    ensures k < |parts| ==> prior + parts[..k] + [parts[k]] == prior + parts[..k + 1]
    ensures prior + parts[..|parts|] == prior + parts
  {
    assert parts[..|parts|] == parts;
    if k < |parts| {
      assert parts[..k + 1] == parts[..k] + [parts[k]];
    }
  }

  /** The table that `mergeSplits` fills: `categoryMap` with its keys in insertion
      order. `added` is the list of splits folded in so far. */
  class CategoryTable {
    var order: seq<string>
    var entries: map<string, CategoryMap>
    ghost var added: seq<Split>

    ghost predicate Valid()
      reads this
    {
      Tally(order, entries, added)
    }

    constructor ()
      ensures Valid() && added == []
    {
      order, entries := [], map[];
      added := [];
    }

    /** Folds one split in: create the record on first sight of the name, push the
        pages, turn the confidence `low` if the split is `low`, and do the same for
        each partition the split carries. */
    method Add(split: Split)
      requires Valid()
      modifies this
      ensures Valid() && added == old(added) + [split]
    {
      var cat: CategoryMap;
      if split.name in entries {
        cat := entries[split.name];
      } else {
        FreshEntry(added, split.name);
        cat := CategoryMap([], High, [], map[]);
      }
      ghost var e := cat;
      cat := cat.(pages := cat.pages + split.pages);
      if split.conf == Low {
        cat := cat.(conf := Low);
      }
      ghost var prior := PartitionsFor(added, split.name);
      if split.partitions.Some? {
        cat := FoldPartitions(cat, split.partitions.value, prior);
      } else {
        assert prior + split.partitions.GetOr([]) == prior;
      }
      EntryStep(e, added, split, cat);
      TallyStep(order, entries, added, split, cat);
      if split.name !in entries {
        order := order + [split.name];
      }
      entries := entries[split.name := cat];
      added := added + [split];
    }

    /** The conversion loop: one split per key in insertion order, its pages
        deduplicated and sorted, its partitions listed the same way, or absent when
        the record has none. */
    method ToSplits() returns (splits: seq<Split>)
      requires Valid()
      ensures splits == Merged(added)
    {
      splits := [];
      var i := 0;
      while i < |order|
        invariant 0 <= i <= |order|
        invariant splits == MergedSplits(added, order[..i])
      {
        var name := order[i];
        assert name in Keys(order);
        var data := entries[name];
        ConvertEntry(data, added, name);
        var pages := SortedUnique(data.pages);
        var partitions: Option<seq<Partition>> := None;
        if |data.partitions| > 0 {
          partitions := Some(PartitionList(data.partitionOrder, data.partitions));
        }
        MergedSplitsSnoc(added, order, i, splits);
        splits := splits + [Split(name, pages, data.conf, partitions)];
        i := i + 1;
      }
      assert order[..i] == order;
    }
  }

  /** One more key converted extends the merged splits of the keys before it. */
  lemma MergedSplitsSnoc(ss: seq<Split>, order: seq<string>, i: nat, splits: seq<Split>)
    requires i < |order| && splits == MergedSplits(ss, order[..i])
    ensures splits + [MergedSplit(ss, order[i])] == MergedSplits(ss, order[..i + 1])
  {
    assert order[..i + 1] == order[..i] + [order[i]];
  }

  /** `Object.entries(data.partitions).map(...)`: each partition record, keys in
      insertion order, with its pages deduplicated and sorted. */
  function PartitionList(order: seq<string>, parts: map<string, PartData>): seq<Partition>
    requires forall n :: n in order ==> n in parts
  {
    seq(|order|, j requires 0 <= j < |order| => Partition(order[j], SortedUnique(parts[order[j]].pages), parts[order[j]].conf))
  }

  lemma PartitionListIsMergeLevel(order: seq<string>, parts: map<string, PartData>, ps: seq<Partition>)
    requires PartsTally(order, parts, ps)
    ensures forall n :: n in order ==> n in parts
    ensures PartitionList(order, parts) == MergeLevel(ps)
  {
  }

  /** `mergeSplits(chunkResults)`: fold every split of every chunk result, in order,
      into a fresh table, then convert. The result is the merge specification of
      the concatenated splits. */
  method MergeSplits(chunkResults: seq<ClassifyResult>) returns (r: ClassifyResult)
    ensures r.splits == Merged(AllSplits(chunkResults))
  {
    var table := new CategoryTable();
    for i := 0 to |chunkResults|
      invariant table.Valid() && table.added == AllSplits(chunkResults[..i])
    {
      var splits := chunkResults[i].splits;
      for j := 0 to |splits|
        invariant table.Valid() && table.added == AllSplits(chunkResults[..i]) + splits[..j]
      {
        table.Add(splits[j]);
        assert splits[..j + 1] == splits[..j] + [splits[j]];
      }
      assert chunkResults[..i + 1][..i] == chunkResults[..i];
      assert splits[..|splits|] == splits;
    }
    assert chunkResults[..|chunkResults|] == chunkResults;
    var merged := table.ToSplits();
    r := ClassifyResult(merged);
  }
}
