/** The Python string built-ins the core relies on, written out:
    `str.strip`, `str.upper`, `str.rfind`, `<` on strings and `str.join`. */
module Text {

  /** `sub` occurs in `s` starting at position `i`. */
  predicate OccursAt(s: string, sub: string, i: int) {
    0 <= i && i + |sub| <= |s| && s[i..i + |sub|] == sub
  }

  /** Python's `str.isspace` for one character (whitespace bidirectional
      classes B, S, WS and the space separators). */
  predicate IsSpace(c: char) {
    ('\t' <= c <= '\r') || ('\U{1C}' <= c <= '\U{1F}') || c == ' ' || c == '\U{85}'
    || c == '\U{A0}' || c == '\U{1680}' || ('\U{2000}' <= c <= '\U{200A}')
    || c == '\U{2028}' || c == '\U{2029}' || c == '\U{202F}' || c == '\U{205F}'
    || c == '\U{3000}'
  }

  /** True when `s` has no whitespace at either end (so `strip` leaves it alone). */
  predicate IsStripped(s: string) {
    s == [] || (!IsSpace(s[0]) && !IsSpace(s[|s| - 1]))
  }

  /** `s.lstrip()`: drops the longest all-whitespace prefix. */
  function StripLeft(s: string): (r: string)
    ensures |r| <= |s| && r == s[|s| - |r|..]
    ensures r == [] || !IsSpace(r[0])
    ensures forall k :: 0 <= k < |s| - |r| ==> IsSpace(s[k])
  {
    if s != [] && IsSpace(s[0]) then StripLeft(s[1..]) else s
  }

  /** `s.rstrip()`: drops the longest all-whitespace suffix. */
  function StripRight(s: string): (r: string)
    ensures |r| <= |s| && r == s[..|r|]
    ensures r == [] || !IsSpace(r[|r| - 1])
    ensures forall k :: |r| <= k < |s| ==> IsSpace(s[k])
  {
    if s != [] && IsSpace(s[|s| - 1]) then StripRight(s[..|s| - 1]) else s
  }

  /** `r` is `s` with the whitespace before position `i` and after `r` cut off. */
  predicate TrimmedAt(s: string, r: string, i: int) {
    OccursAt(s, r, i)
    && (forall k :: 0 <= k < i ==> IsSpace(s[k]))
    && (forall k :: i + |r| <= k < |s| ==> IsSpace(s[k]))
  }

  /** `s.strip()`: the infix of `s` with no whitespace at its ends that is left
      once only whitespace has been cut off; a stripped string is a fixed point. */
  function Strip(s: string): (r: string)
    ensures IsStripped(r)
    ensures exists i :: TrimmedAt(s, r, i)
    ensures IsStripped(s) ==> r == s
  {
    var l := StripLeft(s);
    var r := StripRight(l);
    var i := |s| - |l|;
    assert TrimmedAt(s, r, i);
    assert r == [] || !IsSpace(r[0]) by {
      if r != [] { assert r[0] == l[0]; }
    }
    r
  }

  /** ASCII upper-casing of one character. */
  function UpperChar(c: char): (u: char)
  {
    if 'a' <= c <= 'z' then (c as int - 32) as char else c
  }

  /** `s.upper()`, restricted to the ASCII letters. */
  function Upper(s: string): (r: string)
    ensures |r| == |s|
    ensures forall k :: 0 <= k < |r| ==> !('a' <= r[k] <= 'z')
    ensures forall k :: 0 <= k < |r| ==> r[k] == UpperChar(s[k])
  {
    seq(|s|, k requires 0 <= k < |s| => UpperChar(s[k]))
  }

  /** The right-to-left search of `rfind`, starting at position `i`. */
  function RFindFrom(s: string, sub: string, i: int): (r: int)
    requires i <= |s| - |sub|
    ensures r == -1 || 0 <= r <= i
    ensures r == -1 <==> forall j :: 0 <= j <= i ==> !OccursAt(s, sub, j)
    ensures r != -1 ==> OccursAt(s, sub, r) && forall j :: r < j <= i ==> !OccursAt(s, sub, j)
    decreases i + 1
  {
    if i < 0 then -1
    else if s[i..i + |sub|] == sub then assert OccursAt(s, sub, i); i
    else RFindFrom(s, sub, i - 1)
  }

  /** `s.rfind(sub)`: the last position where `sub` occurs in `s`, or -1. */
  function RFind(s: string, sub: string): (r: int)
    ensures r == -1 <==> forall j {:trigger OccursAt(s, sub, j)} :: !OccursAt(s, sub, j)
    ensures r != -1 ==> OccursAt(s, sub, r) && forall j :: r < j ==> !OccursAt(s, sub, j)
  {
    RFindFrom(s, sub, |s| - |sub|)
  }

  /** `a < b` on Python strings: lexicographic on code points. */
  predicate LexLess(a: string, b: string) {
    if a == [] then b != []
    else if b == [] then false
    else if a[0] != b[0] then a[0] < b[0]
    else LexLess(a[1..], b[1..])
  }

  /** No string is below itself. */
  lemma {:induction false} LexLessIrreflexive(a: string)
    ensures !LexLess(a, a)
  {
    if a != [] { LexLessIrreflexive(a[1..]); }
  }

  /** `a < b` and `b < a` never both hold. */
  lemma {:induction false} LexLessAsymmetric(a: string, b: string)
    ensures !(LexLess(a, b) && LexLess(b, a))
  {
    if a != [] && b != [] && a[0] == b[0] { LexLessAsymmetric(a[1..], b[1..]); }
  }

  /** Two different strings are always ordered one way or the other. */
  lemma {:induction false} LexLessTotal(a: string, b: string)
    requires a != b
    ensures LexLess(a, b) || LexLess(b, a)
  {
    if a != [] && b != [] && a[0] == b[0] {
      assert a == [a[0]] + a[1..] && b == [b[0]] + b[1..];
      LexLessTotal(a[1..], b[1..]);
    }
  }

  /** `sep.join(parts)`. */
  function Join(parts: seq<string>, sep: string): (r: string)
    ensures parts == [] ==> r == []
    ensures |parts| > 0 ==> |r| >= |parts[0]| && r[..|parts[0]|] == parts[0]
  {
    if parts == [] then []
    else if |parts| == 1 then parts[0]
    else parts[0] + sep + Join(parts[1..], sep)
  }

  /** An occurrence in `s` is an occurrence in `pre + s`, shifted by `|pre|`. */
  lemma OccursAfter(pre: string, s: string, sub: string, i: int)
    requires OccursAt(s, sub, i)
    ensures OccursAt(pre + s, sub, |pre| + i)
  {
    assert (pre + s)[|pre| + i..|pre| + i + |sub|] == s[i..i + |sub|];
  }

  lemma OccursBefore(s: string, post: string, sub: string, i: int)
    requires OccursAt(s, sub, i)
    ensures OccursAt(s + post, sub, i)
  {
    assert (s + post)[i..i + |sub|] == s[i..i + |sub|];
  }

  /** Stripping keeps every infix that neither starts nor ends with whitespace. */
  lemma StripKeepsInner(s: string, sub: string, p: int)
    requires OccursAt(s, sub, p) && sub != []
    requires !IsSpace(sub[0]) && !IsSpace(sub[|sub| - 1])
    ensures exists i :: OccursAt(Strip(s), sub, i)
  {
    var r := Strip(s);
    var i0 :| TrimmedAt(s, r, i0);
    TrimmedKeepsInner(s, r, i0, sub, p);
  }

  /** An infix with non-whitespace ends lies inside the trimmed part. */
  lemma TrimmedKeepsInner(s: string, r: string, i0: int, sub: string, p: int)
    requires TrimmedAt(s, r, i0)
    requires OccursAt(s, sub, p) && sub != []
    requires !IsSpace(sub[0]) && !IsSpace(sub[|sub| - 1])
    ensures OccursAt(r, sub, p - i0)
  {
    var last := p + |sub| - 1;
    assert s[p] == sub[0] by { assert s[p..p + |sub|][0] == s[p]; }
    assert s[last] == sub[|sub| - 1] by { assert s[p..p + |sub|][|sub| - 1] == s[last]; }
    assert !IsSpace(s[p]) && !IsSpace(s[last]);
    assert i0 <= p && last < i0 + |r|;
    assert r == s[i0..i0 + |r|];
    forall t | 0 <= t < |sub| ensures r[p - i0..p - i0 + |sub|][t] == sub[t] {
      assert r[p - i0 + t] == s[p + t];
      assert sub[t] == s[p..p + |sub|][t];
    }
  }

  /** Every part occurs in the joined string. */
  lemma {:induction false} JoinContains(parts: seq<string>, sep: string, k: nat)
    requires k < |parts|
    ensures exists i :: OccursAt(Join(parts, sep), parts[k], i)
  {
    if k == 0 {
      assert OccursAt(Join(parts, sep), parts[0], 0);
    } else {
      JoinContains(parts[1..], sep, k - 1);
      var i :| OccursAt(Join(parts[1..], sep), parts[1..][k - 1], i);
      OccursAfter(parts[0] + sep, Join(parts[1..], sep), parts[k], i);
      assert Join(parts, sep) == (parts[0] + sep) + Join(parts[1..], sep);
      assert OccursAt(Join(parts, sep), parts[k], |parts[0] + sep| + i);
    }
  }

  /** Every part occurs in a joined string after a prefix. */
  lemma {:induction false} JoinedAfterContains(pre: string, parts: seq<string>, sep: string, k: nat)
    requires k < |parts|
    ensures exists i :: OccursAt(pre + Join(parts, sep), parts[k], i)
  {
    JoinContains(parts, sep, k);
    var i :| OccursAt(Join(parts, sep), parts[k], i);
    OccursAfter(pre, Join(parts, sep), parts[k], i);
  }

  /** The position of the first occurrence of `x` in `s`. */
  function FirstIndex(s: seq<string>, x: string): (i: nat)
    requires x in s
    ensures i < |s| && s[i] == x
    ensures forall j :: 0 <= j < i ==> s[j] != x
  {
    if s[0] == x then 0 else 1 + FirstIndex(s[1..], x)
  }

  /** The first occurrence of a value in a prefix is its first occurrence in the whole. */
  lemma FirstIndexPrefix(s: seq<string>, n: nat, x: string)
    requires n <= |s| && x in s[..n]
    ensures FirstIndex(s[..n], x) == FirstIndex(s, x)
  {
    var i := FirstIndex(s[..n], x);
    var k := FirstIndex(s, x);
    assert s[i] == x;
    assert k <= i;
    assert s[..n][k] == x;
  }

  /** The keys of a dict built by inserting `s` in order: the same values, without
      repeats (their order is `DedupOrder`). */
  function Dedup(s: seq<string>): (r: seq<string>)
    ensures forall x :: x in r <==> x in s
    ensures forall i, j :: 0 <= i < j < |r| ==> r[i] != r[j]
    ensures |r| <= |s|
  {
    if s == [] then []
    else
      var n := |s| - 1;
      var init := Dedup(s[..n]);
      assert s == s[..n] + [s[n]];
      if s[n] in init then init else init + [s[n]]
  }

  /** The keys come in the order of their first occurrence in `s`. */
  lemma {:induction false} DedupOrder(s: seq<string>)
    ensures forall i, j :: 0 <= i < j < |Dedup(s)| ==> FirstIndex(s, Dedup(s)[i]) < FirstIndex(s, Dedup(s)[j])
  {
    if s != [] {
      var n := |s| - 1;
      var init := Dedup(s[..n]);
      DedupOrder(s[..n]);
      assert s == s[..n] + [s[n]];
      forall i | 0 <= i < |init| ensures FirstIndex(s[..n], init[i]) == FirstIndex(s, init[i]) && FirstIndex(s, init[i]) < n {
        FirstIndexPrefix(s, n, init[i]);
      }
      if s[n] !in init {
        assert FirstIndex(s, s[n]) == n by {
          assert s[n] !in s[..n];
          assert forall j :: 0 <= j < n ==> s[j] == s[..n][j];
        }
      }
    }
  }
}
