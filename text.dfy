/** String helpers with Python's semantics: `str.strip()` and the lowercasing
    that `str.lower()` performs on the characters file extensions are made of. */
module Text {

  /** The characters for which Python's `str.isspace()` holds; `str.strip()`
      with no argument removes exactly these from both ends. */
  predicate IsSpace(c: char) {
    || c == ' '
    || '\t' <= c <= '\r'
    || '\U{1c}' <= c <= '\U{1f}'
    || c == '\U{85}' || c == '\U{a0}' || c == '\U{1680}'
    || '\U{2000}' <= c <= '\U{200a}'
    || c == '\U{2028}' || c == '\U{2029}' || c == '\U{202f}' || c == '\U{205f}' || c == '\U{3000}'
  }

  predicate AllSpace(s: string) {
    forall i :: 0 <= i < |s| ==> IsSpace(s[i])
  }

  /** Neither end of `s` is whitespace. */
  predicate IsStripped(s: string) {
    s == [] || (!IsSpace(s[0]) && !IsSpace(s[|s| - 1]))
  }

  /** The end of the run of whitespace that starts at position `i`. */
  function SkipSpace(s: string, i: nat): (e: nat)
    requires i <= |s|
    ensures i <= e <= |s|
    ensures forall k :: i <= k < e ==> IsSpace(s[k])
    ensures e == |s| || !IsSpace(s[e])
    decreases |s| - i
  {
    if i < |s| && IsSpace(s[i]) then SkipSpace(s, i + 1) else i
  }

  /** The start of the run of whitespace that ends at position `j`, not going
      below `lo`. */
  function SkipSpaceBack(s: string, lo: nat, j: nat): (b: nat)
    requires lo <= j <= |s|
    ensures lo <= b <= j
    ensures forall k :: b <= k < j ==> IsSpace(s[k])
    ensures b == lo || !IsSpace(s[b - 1])
  {
    if lo < j && IsSpace(s[j - 1]) then SkipSpaceBack(s, lo, j - 1) else j
  }

  /** `s.strip()`: `s` with its leading and trailing whitespace removed. The
      result is the infix of `s` that starts after the leading whitespace, only
      whitespace surrounds it, and neither of its ends is whitespace. */
  function Strip(s: string): (r: string)
    ensures IsStripped(r)
    ensures SkipSpace(s, 0) + |r| <= |s|
    ensures forall k :: 0 <= k < |r| ==> r[k] == s[SkipSpace(s, 0) + k]
    ensures forall k :: 0 <= k < SkipSpace(s, 0) ==> IsSpace(s[k])
    ensures forall k :: SkipSpace(s, 0) + |r| <= k < |s| ==> IsSpace(s[k])
  {
    var a := SkipSpace(s, 0);
    var b := SkipSpaceBack(s, a, |s|);
    var r := seq(b - a, k requires 0 <= k < b - a => s[a + k]);
    assert IsStripped(r) by {
      if a < b {
        assert r[0] == s[a] && r[b - a - 1] == s[b - 1];
      }
    }
    r
  }

  /** A scan stops exactly at the first non-whitespace character. */
  lemma SkipSpaceAt(s: string, i: nat, m: nat)
    requires i <= m <= |s|
    requires forall k :: i <= k < m ==> IsSpace(s[k])
    requires m == |s| || !IsSpace(s[m])
    ensures SkipSpace(s, i) == m
  {
  }

  lemma SkipSpaceBackAt(s: string, lo: nat, j: nat, m: nat)
    requires lo <= m <= j <= |s|
    requires forall k :: m <= k < j ==> IsSpace(s[k])
    requires m == lo || !IsSpace(s[m - 1])
    ensures SkipSpaceBack(s, lo, j) == m
  {
  }

  /** Whatever whitespace surrounds a stripped string, `Strip` recovers exactly
      that string. */
  lemma StripExact(pre: string, mid: string, post: string)
    requires AllSpace(pre) && AllSpace(post) && IsStripped(mid)
    ensures Strip(pre + mid + post) == mid
  {
    var s := pre + mid + post;
    var m := |pre| + |mid|;
    assert forall k :: 0 <= k < |pre| ==> s[k] == pre[k];
    assert forall k :: |pre| <= k < m ==> s[k] == mid[k - |pre|];
    assert forall k :: m <= k < |s| ==> s[k] == post[k - m];
    if mid == [] {
      SkipSpaceAt(s, 0, |s|);
      SkipSpaceBackAt(s, |s|, |s|, |s|);
    } else {
      SkipSpaceAt(s, 0, |pre|);
      SkipSpaceBackAt(s, |pre|, |s|, m);
    }
  }

  lemma StripIdempotent(s: string)
    ensures Strip(Strip(s)) == Strip(s)
  {
    var r := Strip(s);
    SkipSpaceAt(r, 0, 0);
    SkipSpaceBackAt(r, 0, |r|, |r|);
    assert |Strip(r)| == |r|;
  }

  /** The lowercasing of `str.lower()` on ASCII letters; every other character
      is kept (no other character lowercases to an ASCII letter a file
      extension here is compared with). */
  function LowerChar(c: char): (l: char)
    ensures 'A' <= c <= 'Z' ==> l as int == c as int + 32
    ensures !('A' <= c <= 'Z') ==> l == c
  {
    if 'A' <= c <= 'Z' then (c as int + 32) as char else c
  }

  function Lower(s: string): (r: string)
    ensures |r| == |s|
    ensures forall i :: 0 <= i < |s| ==> r[i] == LowerChar(s[i])
  {
    seq(|s|, i requires 0 <= i < |s| => LowerChar(s[i]))
  }
}
