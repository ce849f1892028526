/** Page lists as the merge emits them: `Array.from(new Set(pages)).sort((a, b) => a - b)`
    in node-ocr and `sorted(set(pages))` in python-ocr. */
module SortedPages {

  ghost predicate StrictlyAscending(s: seq<int>) {
    forall i, j :: 0 <= i < j < |s| ==> s[i] < s[j]
  }

  ghost function Elems(s: seq<int>): set<int> {
    set x | x in s
  }

  lemma ElemsEmpty(s: seq<int>)
    ensures Elems(s) == {} <==> s == []
  {
    if s != [] {
      assert s[0] in Elems(s);
    }
  }

  /** Putting `h` in front of an ascending list that starts above it keeps it ascending. */
  lemma ConsAscending(h: int, rest: seq<int>)
    requires StrictlyAscending(rest) && (rest != [] ==> h < rest[0])
    ensures StrictlyAscending([h] + rest)
    ensures Elems([h] + rest) == {h} + Elems(rest)
  {
    var r := [h] + rest;
    forall i, j | 0 <= i < j < |r| ensures r[i] < r[j] {
      if i == 0 && j > 1 {
        assert r[j] == rest[j - 1] && rest[0] < rest[j - 1];
      }
    }
  }

  /** The tail of an ascending list is ascending and holds every element but the head. */
  lemma TailAscending(s: seq<int>)
    requires StrictlyAscending(s) && s != []
    ensures StrictlyAscending(s[1..])
    ensures Elems(s) == {s[0]} + Elems(s[1..])
    ensures s[1..] != [] ==> s[0] < s[1..][0]
  {
    assert s == [s[0]] + s[1..];
  }

  /** Adds `x` to an ascending, duplicate-free list. */
  function InsertUnique(x: int, s: seq<int>): (r: seq<int>)
    requires StrictlyAscending(s)
    ensures StrictlyAscending(r)
    ensures Elems(r) == Elems(s) + {x}
    ensures r != [] && (s != [] ==> r[0] == if x < s[0] then x else s[0])
  {
    if s == [] then [x]
    else if x < s[0] then
      ConsAscending(x, s);
      [x] + s
    else if x == s[0] then
      assert s[0] in Elems(s);
      s
    else
      TailAscending(s);
      var rest := InsertUnique(x, s[1..]);
      ConsAscending(s[0], rest);
      [s[0]] + rest
  }

  /** The distinct values of `xs` in ascending order: nothing lost, nothing repeated. */
  function SortedUnique(xs: seq<int>): (r: seq<int>)
    ensures StrictlyAscending(r)
    ensures Elems(r) == Elems(xs)
  {
    if xs == [] then []
    else
      var init := xs[..|xs| - 1];
      assert xs == init + [xs[|xs| - 1]];
      assert Elems(xs) == Elems(init) + {xs[|xs| - 1]};
      InsertUnique(xs[|xs| - 1], SortedUnique(init))
  }

  /** An ascending duplicate-free list is determined by its elements, so the page
      list of a merged split depends only on the set of pages contributed. */
  lemma {:induction false} AscendingUnique(a: seq<int>, b: seq<int>)
    requires StrictlyAscending(a) && StrictlyAscending(b)
    requires Elems(a) == Elems(b)
    ensures a == b
  {
    if a != [] {
      assert a[0] in Elems(b);
      assert b != [];
      assert b[0] in Elems(a);
      assert a[0] == b[0] by {
        var i :| 0 <= i < |b| && b[i] == a[0];
        var j :| 0 <= j < |a| && a[j] == b[0];
      }
      assert Elems(a[1..]) == Elems(a) - {a[0]} by {
        forall x | x in Elems(a[1..]) ensures x != a[0] {
          var i :| 0 <= i < |a[1..]| && a[1..][i] == x;
          assert a[i + 1] == x;
        }
      }
      assert Elems(b[1..]) == Elems(b) - {b[0]} by {
        forall x | x in Elems(b[1..]) ensures x != b[0] {
          var i :| 0 <= i < |b[1..]| && b[1..][i] == x;
          assert b[i + 1] == x;
        }
      }
      AscendingUnique(a[1..], b[1..]);
    } else {
      ElemsEmpty(b);
    }
  }
}
