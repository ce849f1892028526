/** The string built-ins the validators and path helpers rely on: JavaScript's
    `String.prototype.trim`, Python's `str.strip()`, `startsWith`, and lower-casing. */
module Text {
  import opened Wrappers

  /** The two runtimes whose whitespace tables differ. */
  datatype Runtime = Node | Python

  /** Characters `trim()` (ECMAScript WhiteSpace and LineTerminator) or `str.strip()`
      (Python's `str.isspace`) removes. They agree except that only JavaScript strips
      U+FEFF and only Python strips U+001C..U+001F and U+0085. */
  predicate IsSpace(rt: Runtime, c: char) {
    || ('\U{9}' <= c <= '\U{D}')
    || c == ' ' || c == '\U{A0}' || c == '\U{1680}'
    || ('\U{2000}' <= c <= '\U{200A}')
    || c == '\U{2028}' || c == '\U{2029}' || c == '\U{202F}' || c == '\U{205F}' || c == '\U{3000}'
    || (rt == Node && c == '\U{FEFF}')
    || (rt == Python && (('\U{1C}' <= c <= '\U{1F}') || c == '\U{85}'))
  }

  ghost predicate AllSpace(rt: Runtime, s: string) {
    forall i :: 0 <= i < |s| ==> IsSpace(rt, s[i])
  }

  function TrimStart(rt: Runtime, s: string): string {
    if |s| > 0 && IsSpace(rt, s[0]) then TrimStart(rt, s[1..]) else s
  }

  function TrimEnd(rt: Runtime, s: string): string {
    if |s| > 0 && IsSpace(rt, s[|s| - 1]) then TrimEnd(rt, s[..|s| - 1]) else s
  }

  /** `s.trim()` under Node, `s.strip()` under Python. */
  function Trim(rt: Runtime, s: string): string {
    TrimEnd(rt, TrimStart(rt, s))
  }

  /** The guard `!x?.trim()` (JavaScript) or `not x or not x.strip()` (Python):
      the value is missing or trims to the empty string. */
  predicate IsBlank(rt: Runtime, x: Option<string>) {
    x.None? || Trim(rt, x.value) == []
  }

  lemma {:induction false} TrimStartEmpty(rt: Runtime, s: string)
    ensures TrimStart(rt, s) == [] <==> AllSpace(rt, s)
    ensures TrimStart(rt, s) != [] ==> !IsSpace(rt, TrimStart(rt, s)[0])
  {
    if |s| > 0 && IsSpace(rt, s[0]) {
      TrimStartEmpty(rt, s[1..]);
      assert AllSpace(rt, s) <==> AllSpace(rt, s[1..]) by {
        if AllSpace(rt, s[1..]) {
          forall i | 0 <= i < |s| ensures IsSpace(rt, s[i]) {
            if i > 0 { assert s[i] == s[1..][i - 1]; }
          }
        }
      }
    }
  }

  lemma {:induction false} TrimEndKeepsHead(rt: Runtime, s: string)
    requires |s| > 0 && !IsSpace(rt, s[0])
    ensures TrimEnd(rt, s) != []
  {
    if IsSpace(rt, s[|s| - 1]) {
      TrimEndKeepsHead(rt, s[..|s| - 1]);
    }
  }

  /** A string is blank exactly when every character of it is whitespace. */
  lemma TrimEmptyIffAllSpace(rt: Runtime, s: string)
    ensures Trim(rt, s) == [] <==> AllSpace(rt, s)
  {
    TrimStartEmpty(rt, s);
    if TrimStart(rt, s) != [] {
      TrimEndKeepsHead(rt, TrimStart(rt, s));
    }
  }

  /** The value is present and holds some non-whitespace character. */
  ghost predicate HasContent(rt: Runtime, x: Option<string>) {
    x.Some? && exists i :: 0 <= i < |x.value| && !IsSpace(rt, x.value[i])
  }

  lemma BlankIffNoContent(rt: Runtime, x: Option<string>)
    ensures IsBlank(rt, x) <==> !HasContent(rt, x)
  {
    if x.Some? {
      TrimEmptyIffAllSpace(rt, x.value);
    }
  }

  /** The byte-order mark U+FEFF makes a key blank for the Node validator but not
      for the Python one. */
  lemma ByteOrderMarkBlankOnlyInNode()
    ensures IsBlank(Node, Some("\U{FEFF}"))
    ensures !IsBlank(Python, Some("\U{FEFF}"))
  {
    TrimEmptyIffAllSpace(Node, "\U{FEFF}");
    TrimEmptyIffAllSpace(Python, "\U{FEFF}");
  }

  /** `s.startsWith(prefix)`. */
  predicate StartsWith(s: string, prefix: string) {
    prefix <= s
  }

  /** Lower-casing restricted to ASCII: the only characters whose lower-case forms
      are the ASCII letters compared against below, apart from KELVIN SIGN (U+212A,
      which becomes `k`, a letter no compared extension contains). */
  function LowerChar(c: char): char {
    if 'A' <= c <= 'Z' then (c as int - 'A' as int + 'a' as int) as char else c
  }

  function Lower(s: string): (r: string)
    ensures |r| == |s|
    ensures forall i :: 0 <= i < |s| ==> r[i] == LowerChar(s[i])
  {
    seq(|s|, i requires 0 <= i < |s| => LowerChar(s[i]))
  }
}
