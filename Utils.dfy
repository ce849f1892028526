/** The helpers of node-ocr's `utils.ts` that the providers lean on: recognising a
    URL, telling images from PDFs by the file extension, and turning a Mistral OCR
    response into markdown plus images. */
module Utils {
  import opened Wrappers
  import opened Text

  // ----- isURL -----

  /** `isURL`: the path starts with `http://` or `https://`, case-sensitively. */
  predicate IsUrl(path: string) {
    StartsWith(path, "http://") || StartsWith(path, "https://")
  }

  /** Only the prefix counts: whatever follows a URL scheme, the path stays a URL,
      and a path is a URL exactly when its first 7 or 8 characters are one of the
      two schemes. */
  lemma UrlPrefixes(path: string, rest: string)
    ensures IsUrl(path) <==> (|path| >= 7 && path[..7] == "http://") || (|path| >= 8 && path[..8] == "https://")
    ensures IsUrl(path) ==> IsUrl(path + rest)
  {
    if IsUrl(path) {
      if StartsWith(path, "http://") {
        assert (path + rest)[..7] == path[..7];
      } else {
        assert (path + rest)[..8] == path[..8];
      }
    }
  }

  /** The scheme is matched case-sensitively and nothing but http(s) counts. */
  lemma UrlExamples()
    ensures IsUrl("https://example.com/a.pdf")
    ensures !IsUrl("HTTP://example.com/a.pdf")
    ensures !IsUrl("ftp://example.com/a.pdf")
    ensures !IsUrl("./docs/a.pdf")
  {
    assert "HTTP://example.com/a.pdf"[0] != "http://"[0];
    assert "HTTP://example.com/a.pdf"[0] != "https://"[0];
    assert "ftp://example.com/a.pdf"[0] != "http://"[0];
    assert "./docs/a.pdf"[0] != "http://"[0];
  }

  // ----- path.extname (POSIX) -----

  /** The end of the last path segment once trailing slashes are ignored. */
  function SegmentEnd(s: string, i: nat): (e: nat)
    requires i <= |s|
    ensures e <= i
    ensures forall k :: e <= k < i ==> s[k] == '/'
    ensures e > 0 ==> s[e - 1] != '/'
  {
    if i > 0 && s[i - 1] == '/' then SegmentEnd(s, i - 1) else i
  }

  /** The start of the segment ending at `e`: just after the slash before it. */
  function SegmentStart(s: string, e: nat): (b: nat)
    requires e <= |s|
    ensures b <= e
    ensures forall k :: b <= k < e ==> s[k] != '/'
    ensures b > 0 ==> s[b - 1] == '/'
  {
    if e > 0 && s[e - 1] != '/' then SegmentStart(s, e - 1) else e
  }

  /** The last dot in `s[lo..i]`. */
  function LastDot(s: string, lo: nat, i: nat): (d: Option<nat>)
    requires lo <= i <= |s|
    ensures d.Some? ==> lo <= d.value < i && s[d.value] == '.' && forall k :: d.value < k < i ==> s[k] != '.'
    ensures d.None? ==> forall k :: lo <= k < i ==> s[k] != '.'
    decreases i
  {
    if i == lo then None else if s[i - 1] == '.' then Some(i - 1) else LastDot(s, lo, i - 1)
  }

  /** Node's POSIX `path.extname`: in the last segment (trailing slashes ignored),
      from the last dot to the end; empty when the segment has no dot, when its only
      dot is its first character (`.bashrc`), or when the segment is `..`. The result
      is empty or a dot followed by characters that are neither dots nor slashes. */
  function Extname(path: string): (ext: string)
    ensures ext == [] || (ext[0] == '.' && forall k :: 0 < k < |ext| ==> ext[k] != '.' && ext[k] != '/')
  {
    var e := SegmentEnd(path, |path|);
    var b := SegmentStart(path, e);
    match LastDot(path, b, e)
    case None => ""
    case Some(d) =>
      if d == b || (d == b + 1 && d == e - 1 && path[b] == '.') then "" else path[d..e]
  }

  /** Two strings with slashes and dots in the same places. */
  ghost predicate SameShape(s: string, t: string) {
    |s| == |t| && forall k :: 0 <= k < |s| ==> (s[k] == '/' <==> t[k] == '/') && (s[k] == '.' <==> t[k] == '.')
  }

  lemma {:induction false} SegmentEndShape(s: string, t: string, i: nat)
    requires SameShape(s, t) && i <= |s|
    ensures SegmentEnd(s, i) == SegmentEnd(t, i)
  {
    if i > 0 && s[i - 1] == '/' {
      SegmentEndShape(s, t, i - 1);
    }
  }

  lemma {:induction false} SegmentStartShape(s: string, t: string, e: nat)
    requires SameShape(s, t) && e <= |s|
    ensures SegmentStart(s, e) == SegmentStart(t, e)
  {
    if e > 0 && s[e - 1] != '/' {
      SegmentStartShape(s, t, e - 1);
    }
  }

  lemma {:induction false} LastDotShape(s: string, t: string, lo: nat, i: nat)
    requires SameShape(s, t) && lo <= i <= |s|
    ensures LastDot(s, lo, i) == LastDot(t, lo, i)
    decreases i
  {
    if i > lo && s[i - 1] != '.' {
      LastDotShape(s, t, lo, i - 1);
    }
  }

  /** Lower-casing moves no slash and no dot, so it commutes with `extname`. */
  lemma ExtnameLower(path: string)
    ensures Extname(Lower(path)) == Lower(Extname(path))
  {
    var low := Lower(path);
    assert SameShape(path, low);
    var e := SegmentEnd(path, |path|);
    SegmentEndShape(path, low, |path|);
    var b := SegmentStart(path, e);
    SegmentStartShape(path, low, e);
    LastDotShape(path, low, b, e);
    match LastDot(path, b, e)
    case None =>
    case Some(d) =>
      if !(d == b || (d == b + 1 && d == e - 1 && path[b] == '.')) {
        assert low[d..e] == Lower(path[d..e]);
      }
  }

  // ----- getFileType -----

  datatype FileType = Image | Pdf | UnknownType

  const ImageExtensions: seq<string> := [".jpg", ".jpeg", ".png", ".gif", ".webp"]

  /** `getFileType`: the lower-cased extension decides. */
  function GetFileType(path: string): FileType {
    var ext := Lower(Extname(path));
    if ext in ImageExtensions then Image
    else if ext == ".pdf" then Pdf
    else UnknownType
  }

  /** Paths that differ only in letter case have the same type. */
  lemma FileTypeIgnoresCase(p: string, q: string)
    requires Lower(p) == Lower(q)
    ensures GetFileType(p) == GetFileType(q)
  {
    ExtnameLower(p);
    ExtnameLower(q);
    var ep, eq := Lower(Extname(p)), Lower(Extname(q));
    assert ep == Extname(Lower(p)) == Extname(Lower(q)) == eq;
  }

  /** The extension's case does not matter. */
  lemma UpperCasePdf()
    ensures GetFileType("scan.PDF") == Pdf
  {
    assert LastDot("scan.PDF", 0, 8) == Some(4);
    assert Extname("scan.PDF") == ".PDF";
    assert Lower(".PDF") == ".pdf";
  }

  /** Trailing slashes are ignored and only the last segment counts. */
  lemma TrailingSlashImage()
    ensures GetFileType("scans.pdf/photo.PNG/") == Image
  {
    var path := "scans.pdf/photo.PNG/";
    assert SegmentEnd(path, 20) == 19;
    assert SegmentStart(path, 19) == 10;
    assert LastDot(path, 10, 19) == Some(15);
    assert Extname(path) == ".PNG";
    assert Lower(".PNG") == ".png";
  }

  /** A leading dot alone is not an extension. */
  lemma DotfileUnknown()
    ensures GetFileType("docs/.pdf") == UnknownType
  {
    assert SegmentStart("docs/.pdf", 9) == 5;
    assert LastDot("docs/.pdf", 5, 9) == Some(5);
    assert Lower("") == "";
  }

  /** Extensions outside the list, such as `.bmp`, are unknown. */
  lemma BitmapUnknown()
    ensures GetFileType("picture.bmp") == UnknownType
  {
    assert LastDot("picture.bmp", 0, 11) == Some(7);
    assert Extname("picture.bmp") == ".bmp";
    assert Lower(".bmp") == ".bmp";
  }

  // ----- handleMistralOCRResponse -----

  datatype OcrImage = OcrImage(id: string, imageBase64: Option<string>)

  datatype OcrPage = OcrPage(index: int, markdown: string, images: seq<OcrImage>)

  /** A Mistral OCR response; `pages` may be missing. */
  class MistralOcrResponse {
    var pages: Option<seq<OcrPage>>

    constructor(pages: Option<seq<OcrPage>>)
      ensures this.pages == pages
    {
      this.pages := pages;
    }
  }

  datatype OcrResult = OcrResult(markdown: string, images: seq<OcrImage>, rawResponse: MistralOcrResponse)

  predicate SortedByIndex(ps: seq<OcrPage>) {
    forall i, j :: 0 <= i < j < |ps| ==> ps[i].index <= ps[j].index
  }

  /** The pages carrying index `k`, in their order. */
  function WithIndex(ps: seq<OcrPage>, k: int): seq<OcrPage> {
    if ps == [] then []
    else WithIndex(ps[..|ps| - 1], k) + (if ps[|ps| - 1].index == k then [ps[|ps| - 1]] else [])
  }

  lemma {:induction false} WithIndexSnoc(ps: seq<OcrPage>, p: OcrPage, k: int)
    ensures WithIndex(ps + [p], k) == WithIndex(ps, k) + (if p.index == k then [p] else [])
  {
    assert (ps + [p])[..|ps|] == ps;
  }

  /** Inserts `p` after every page whose index is at most `p.index`. */
  function InsertByIndex(p: OcrPage, ps: seq<OcrPage>): (r: seq<OcrPage>)
    requires SortedByIndex(ps)
    ensures SortedByIndex(r)
    ensures multiset(r) == multiset(ps) + multiset{p}
  {
    if ps == [] || ps[|ps| - 1].index <= p.index then ps + [p]
    else
      var init, last := ps[..|ps| - 1], ps[|ps| - 1];
      var front := InsertByIndex(p, init);
      InsertBelowLast(p, ps, front);
      front + [last]
  }

  /** The recursive case of the insertion: `last` may follow everything the
      insertion into the rest produced. */
  lemma InsertBelowLast(p: OcrPage, ps: seq<OcrPage>, front: seq<OcrPage>)
    requires SortedByIndex(ps) && ps != [] && p.index < ps[|ps| - 1].index
    requires SortedByIndex(front) && multiset(front) == multiset(ps[..|ps| - 1]) + multiset{p}
    ensures SortedByIndex(front + [ps[|ps| - 1]])
    ensures multiset(front + [ps[|ps| - 1]]) == multiset(ps) + multiset{p}
  {
    var init, last := ps[..|ps| - 1], ps[|ps| - 1];
    assert ps == init + [last];
    var r := front + [last];
    forall i, j | 0 <= i < j < |r| ensures r[i].index <= r[j].index {
      if j == |r| - 1 {
        var x := r[i];
        assert x in multiset(front);
        if x != p {
          assert x in multiset(init);
          var m :| 0 <= m < |init| && init[m] == x;
          assert ps[m] == x;
        }
      }
    }
  }

  /** Insertion keeps the pages of every index in their order, with `p` after
      those already there. */
  lemma {:induction false} InsertStable(p: OcrPage, ps: seq<OcrPage>, k: int)
    requires SortedByIndex(ps)
    ensures WithIndex(InsertByIndex(p, ps), k) == WithIndex(ps, k) + (if p.index == k then [p] else [])
  {
    if ps == [] || ps[|ps| - 1].index <= p.index {
      WithIndexSnoc(ps, p, k);
    } else {
      var init, last := ps[..|ps| - 1], ps[|ps| - 1];
      assert ps == init + [last];
      InsertStable(p, init, k);
      StableBelowLast(p, init, last, InsertByIndex(p, init), k);
    }
  }

  /** The recursive case of `InsertStable`: `last` lies above `p`, so at most one
      of the two joins the group of `k`, and their order there does not matter. */
  lemma StableBelowLast(p: OcrPage, init: seq<OcrPage>, last: OcrPage, front: seq<OcrPage>, k: int)
    requires p.index < last.index
    requires WithIndex(front, k) == WithIndex(init, k) + (if p.index == k then [p] else [])
    ensures WithIndex(front + [last], k) == WithIndex(init + [last], k) + (if p.index == k then [p] else [])
  {
    WithIndexSnoc(front, last, k);
    WithIndexSnoc(init, last, k);
  }

  /** The stable sort `Array.prototype.sort` performs with the comparator
      `a.index - b.index`: ascending by index and a permutation of the input. */
  function SortByIndex(ps: seq<OcrPage>): (r: seq<OcrPage>)
    ensures SortedByIndex(r)
    ensures multiset(r) == multiset(ps)
  {
    if ps == [] then []
    else
      assert ps == ps[..|ps| - 1] + [ps[|ps| - 1]];
      InsertByIndex(ps[|ps| - 1], SortByIndex(ps[..|ps| - 1]))
  }

  /** The sort is stable: the pages sharing an index keep their relative order. */
  lemma {:induction false} SortStable(ps: seq<OcrPage>, k: int)
    ensures WithIndex(SortByIndex(ps), k) == WithIndex(ps, k)
  {
    if ps != [] {
      var init, last := ps[..|ps| - 1], ps[|ps| - 1];
      assert ps == init + [last];
      PagesEmptyIffNoMembers(WithIndex(init, k));
      SortStable(init, k);
      InsertStable(last, SortByIndex(init), k);
      WithIndexSnoc(init, last, k);
    }
  }

  lemma {:induction false} WithIndexMembers(ps: seq<OcrPage>, k: int)
    ensures forall x :: x in WithIndex(ps, k) <==> x in ps && x.index == k
  {
    if ps != [] {
      var init, last := ps[..|ps| - 1], ps[|ps| - 1];
      assert ps == init + [last];
      PagesEmptyIffNoMembers(WithIndex(init, k));
      WithIndexMembers(init, k);
    }
  }

  /** The group of the last page ends with that page. */
  lemma GroupOfLast(ps: seq<OcrPage>)
    ensures ps != [] ==> var last := ps[|ps| - 1];
      WithIndex(ps, last.index) == WithIndex(ps[..|ps| - 1], last.index) + [last]
  {
  }

  lemma LastIsMax(r: seq<OcrPage>, x: OcrPage)
    requires SortedByIndex(r) && x in r
    ensures x.index <= r[|r| - 1].index
  {
    var i :| 0 <= i < |r| && r[i] == x;
  }

  /** Dropping the same last page from two lists with the same group of `k`
      leaves them with the same group of `k`. */
  lemma SnocGroupAt(init1: seq<OcrPage>, init2: seq<OcrPage>, a: OcrPage, k: int)
    requires WithIndex(init1 + [a], k) == WithIndex(init2 + [a], k)
    ensures WithIndex(init1, k) == WithIndex(init2, k)
  {
    WithIndexSnoc(init1, a, k);
    WithIndexSnoc(init2, a, k);
    var g1, g2 := WithIndex(init1, k), WithIndex(init2, k);
    if a.index == k {
      assert g1 + [a] == g2 + [a];
      assert g1 == (g1 + [a])[..|g1|];
      assert g2 == (g2 + [a])[..|g2|];
    } else {
      assert g1 + [] == g2 + [];
    }
  }

  /** Two lists with the same groups whose last pages share an index end with the
      same page, and what precedes it has the same groups. */
  lemma SnocGroupsAgree(init1: seq<OcrPage>, a: OcrPage, init2: seq<OcrPage>, b: OcrPage)
    requires a.index == b.index
    requires forall k :: WithIndex(init1 + [a], k) == WithIndex(init2 + [b], k)
    ensures a == b
    ensures forall k :: WithIndex(init1, k) == WithIndex(init2, k)
  {
    var m := a.index;
    assert WithIndex(init1 + [a], m) == WithIndex(init2 + [b], m);
    WithIndexSnoc(init1, a, m);
    WithIndexSnoc(init2, b, m);
    var g1, g2 := WithIndex(init1, m), WithIndex(init2, m);
    assert g1 + [a] == g2 + [b];
    assert |g1| == |g2|;
    assert a == (g1 + [a])[|g1|] && b == (g2 + [b])[|g2|];
    forall k ensures WithIndex(init1, k) == WithIndex(init2, k) {
      assert WithIndex(init1 + [a], k) == WithIndex(init2 + [b], k);
      SnocGroupAt(init1, init2, a, k);
    }
  }

  /** In a sorted list, a page with the last page's index that is among the pages of
      another list bounds that list's last index from below. */
  lemma LastIndexBound(r1: seq<OcrPage>, r2: seq<OcrPage>)
    requires SortedByIndex(r1) && r1 != [] && r2 != []
    requires WithIndex(r1, r2[|r2| - 1].index) == WithIndex(r2, r2[|r2| - 1].index)
    ensures r2[|r2| - 1].index <= r1[|r1| - 1].index
  {
    var b := r2[|r2| - 1];
    GroupOfLast(r2);
    WithIndexMembers(r1, b.index);
    assert b in WithIndex(r2, b.index);
    LastIsMax(r1, b);
  }

  /** Two sorted lists with the same groups end with the same page, and what
      precedes it has the same groups. */
  lemma LastPagesAgree(init1: seq<OcrPage>, a: OcrPage, init2: seq<OcrPage>, b: OcrPage)
    requires SortedByIndex(init1 + [a]) && SortedByIndex(init2 + [b])
    requires forall k :: WithIndex(init1 + [a], k) == WithIndex(init2 + [b], k)
    ensures a == b
    ensures SortedByIndex(init1) && SortedByIndex(init2)
    ensures forall k :: WithIndex(init1, k) == WithIndex(init2, k)
  {
    var r1, r2 := init1 + [a], init2 + [b];
    assert forall i :: 0 <= i < |init1| ==> init1[i] == r1[i];
    assert forall i :: 0 <= i < |init2| ==> init2[i] == r2[i];
    assert r1[|r1| - 1] == a && r2[|r2| - 1] == b;
    LastIndexBound(r1, r2);
    LastIndexBound(r2, r1);
    SnocGroupsAgree(init1, a, init2, b);
  }

  /** Only the empty list has no group. */
  lemma EmptyGroupsAgree(r1: seq<OcrPage>, r2: seq<OcrPage>)
    requires forall k :: WithIndex(r1, k) == WithIndex(r2, k)
    ensures r1 == [] <==> r2 == []
  {
    GroupOfLast(r1);
    GroupOfLast(r2);
    if r1 != [] {
      assert WithIndex(r2, r1[|r1| - 1].index) != [];
    }
    if r2 != [] {
      assert WithIndex(r1, r2[|r2| - 1].index) != [];
    }
  }

  /** A sorted list is determined by its groups: two sorted lists whose pages of
      every index agree, in order, are the same list. */
  lemma {:induction false} SortedGroupsUnique(r1: seq<OcrPage>, r2: seq<OcrPage>)
    requires SortedByIndex(r1) && SortedByIndex(r2)
    requires forall k :: WithIndex(r1, k) == WithIndex(r2, k)
    ensures r1 == r2
    decreases |r1| + |r2|
  {
    EmptyGroupsAgree(r1, r2);
    if r1 != [] {
      var init1, init2 := r1[..|r1| - 1], r2[..|r2| - 1];
      assert r1 == init1 + [r1[|r1| - 1]] && r2 == init2 + [r2[|r2| - 1]];
      LastPagesAgree(init1, r1[|r1| - 1], init2, r2[|r2| - 1]);
      SortedGroupsUnique(init1, init2);
    }
  }

  /** The sorted pages depend only on the pages of each index and their order. */
  lemma SortDependsOnlyOnGroups(ps: seq<OcrPage>, qs: seq<OcrPage>)
    requires forall k :: WithIndex(ps, k) == WithIndex(qs, k)
    ensures SortByIndex(ps) == SortByIndex(qs)
  {
    forall k ensures WithIndex(SortByIndex(ps), k) == WithIndex(SortByIndex(qs), k) {
      SortStable(ps, k);
      SortStable(qs, k);
    }
    SortedGroupsUnique(SortByIndex(ps), SortByIndex(qs));
  }

  lemma PagesEmptyIffNoMembers(ps: seq<OcrPage>)
    ensures ps == [] <==> forall x :: x !in ps
  {
    if ps != [] {
      assert ps[0] in ps;
    }
  }

  ghost predicate DistinctIndexes(ps: seq<OcrPage>) {
    forall i, j :: 0 <= i < j < |ps| ==> ps[i].index != ps[j].index
  }

  lemma {:induction false} WithIndexAtMostOne(ps: seq<OcrPage>, k: int)
    requires DistinctIndexes(ps)
    ensures |WithIndex(ps, k)| <= 1
  {
    if ps != [] {
      var init, last := ps[..|ps| - 1], ps[|ps| - 1];
      assert DistinctIndexes(init) by {
        forall i, j | 0 <= i < j < |init| ensures init[i].index != init[j].index {
          assert init[i] == ps[i] && init[j] == ps[j];
        }
      }
      WithIndexAtMostOne(init, k);
      WithIndexMembers(init, k);
      assert forall x :: x in init ==> x.index != last.index by {
        forall x | x in init ensures x.index != last.index {
          var i :| 0 <= i < |init| && init[i] == x;
          assert ps[i] == x;
        }
      }
      assert ps == init + [last];
      PagesEmptyIffNoMembers(WithIndex(init, k));
    }
  }

  /** With distinct indexes, two lists holding the same pages have the same group
      for every index. */
  lemma SameGroupsFromMultiset(ps: seq<OcrPage>, qs: seq<OcrPage>, k: int)
    requires DistinctIndexes(ps) && DistinctIndexes(qs) && multiset(ps) == multiset(qs)
    ensures WithIndex(ps, k) == WithIndex(qs, k)
  {
    WithIndexMembers(ps, k);
    WithIndexMembers(qs, k);
    WithIndexAtMostOne(ps, k);
    WithIndexAtMostOne(qs, k);
    var gp, gq := WithIndex(ps, k), WithIndex(qs, k);
    if gp != [] {
      assert gp[0] in gp && gp[0] in multiset(ps);
      assert gp[0] in gq;
    }
    if gq != [] {
      assert gq[0] in gq && gq[0] in multiset(qs);
      assert gq[0] in gp;
    }
  }

  /** When every page has its own index, the order in which the pages arrive does
      not matter: any reordering sorts to the same pages, hence the same markdown
      and images. */
  lemma ReorderedPagesSortAlike(ps: seq<OcrPage>, qs: seq<OcrPage>)
    requires DistinctIndexes(ps) && DistinctIndexes(qs) && multiset(ps) == multiset(qs)
    ensures SortByIndex(ps) == SortByIndex(qs)
  {
    forall k ensures WithIndex(ps, k) == WithIndex(qs, k) {
      SameGroupsFromMultiset(ps, qs, k);
    }
    SortDependsOnlyOnGroups(ps, qs);
  }

  /** Sorting a list with a page added at the end inserts that page into the
      sorted rest. */
  lemma SortSnoc(init: seq<OcrPage>, last: OcrPage)
    ensures SortByIndex(init + [last]) == InsertByIndex(last, SortByIndex(init))
  {
    var ps := init + [last];
    assert ps[..|ps| - 1] == init && ps[|ps| - 1] == last;
  }

  /** A prefix of a list in index order is in index order. */
  lemma SortedInit(ps: seq<OcrPage>)
    requires SortedByIndex(ps) && ps != []
    ensures SortedByIndex(ps[..|ps| - 1])
    ensures ps[..|ps| - 1] == [] || ps[|ps| - 2].index <= ps[|ps| - 1].index
  {
    var init := ps[..|ps| - 1];
    forall i, j | 0 <= i < j < |init| ensures init[i].index <= init[j].index {
      assert init[i] == ps[i] && init[j] == ps[j];
    }
  }

  /** Pages already in index order are left where they are. */
  lemma {:induction false} SortKeepsSorted(ps: seq<OcrPage>)
    requires SortedByIndex(ps)
    ensures SortByIndex(ps) == ps
  {
    if ps != [] {
      var init, last := ps[..|ps| - 1], ps[|ps| - 1];
      SortedInit(ps);
      SortKeepsSorted(init);
      assert init + [last] == ps;
      SortSnoc(init, last);
    }
  }

  /** Sorting twice is sorting once: the pages a response is left with are a fixed
      point of the sort. */
  lemma SortIdempotent(ps: seq<OcrPage>)
    ensures SortByIndex(SortByIndex(ps)) == SortByIndex(ps)
  {
    SortKeepsSorted(SortByIndex(ps));
  }

  /** `Array.prototype.join`. */
  function Join(parts: seq<string>, sep: string): string {
    if parts == [] then ""
    else if |parts| == 1 then parts[0]
    else Join(parts[..|parts| - 1], sep) + sep + parts[|parts| - 1]
  }

  /** Joining two non-empty lists puts one separator between their joins. */
  lemma {:induction false} JoinAppend(xs: seq<string>, ys: seq<string>, sep: string)
    requires xs != [] && ys != []
    ensures Join(xs + ys, sep) == Join(xs, sep) + sep + Join(ys, sep)
    decreases |ys|
  {
    var zs, init, last := xs + ys, ys[..|ys| - 1], ys[|ys| - 1];
    assert zs[..|zs| - 1] == xs + init && zs[|zs| - 1] == last;
    assert Join(zs, sep) == Join(xs + init, sep) + sep + last;
    if |ys| == 1 {
      assert xs + init == xs;
    } else {
      JoinAppend(xs, init, sep);
      assert Join(ys, sep) == Join(init, sep) + sep + last;
    }
  }

  function Markdowns(ps: seq<OcrPage>): (ms: seq<string>)
    ensures |ms| == |ps| && forall i :: 0 <= i < |ps| ==> ms[i] == ps[i].markdown
  {
    seq(|ps|, i requires 0 <= i < |ps| => ps[i].markdown)
  }

  /** `flatMap(page => page.images)`. */
  function FlatImages(ps: seq<OcrPage>): seq<OcrImage> {
    if ps == [] then [] else FlatImages(ps[..|ps| - 1]) + ps[|ps| - 1].images
  }

  /** The images of two page lists are the images of each, one after the other. */
  lemma {:induction false} FlatImagesAppend(ps: seq<OcrPage>, qs: seq<OcrPage>)
    ensures FlatImages(ps + qs) == FlatImages(ps) + FlatImages(qs)
    decreases |qs|
  {
    if qs != [] {
      var zs := ps + qs;
      assert zs[..|zs| - 1] == ps + qs[..|qs| - 1];
      FlatImagesAppend(ps, qs[..|qs| - 1]);
    } else {
      assert ps + qs == ps;
    }
  }

  /** `handleMistralOCRResponse`. A response without pages is rejected and left as
      it was. Otherwise its pages are sorted by index in place, and the result holds
      their markdown in that order separated by blank lines, their images in that
      order, and the (now sorted) response itself. */
  method HandleMistralOcrResponse(response: MistralOcrResponse) returns (r: Result<OcrResult>)
    modifies response
    ensures old(response.pages).None? || old(response.pages).value == [] ==>
      r == Err("No pages found in OCR response") && response.pages == old(response.pages)
    ensures old(response.pages).Some? && old(response.pages).value != [] ==>
      && response.pages == Some(SortByIndex(old(response.pages).value))
      && r == Ok(OcrResult(Join(Markdowns(response.pages.value), "\n\n"), FlatImages(response.pages.value), response))
  {
    if response.pages.None? || |response.pages.value| == 0 {
      return Err("No pages found in OCR response");
    }
    response.pages := Some(SortByIndex(response.pages.value));
    var sorted := response.pages.value;
    var markdown := Join(Markdowns(sorted), "\n\n");
    var images := FlatImages(sorted);
    r := Ok(OcrResult(markdown, images, response));
  }

  /** A single page gives its own markdown and images. */
  lemma SinglePageResponse(p: OcrPage)
    ensures Join(Markdowns(SortByIndex([p])), "\n\n") == p.markdown
    ensures FlatImages(SortByIndex([p])) == p.images
  {
    assert SortByIndex([p]) == [p] by { SortKeepsSorted([p]); }
    assert [p][..0] == [];
  }
}
