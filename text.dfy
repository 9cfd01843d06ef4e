/** The two PHP string built-ins the submission handler relies on:
    `trim` with its default character list and `strtolower`. Strings are
    sequences of Unicode code points, so `mb_strlen` is plain `|s|`. */
module Text {

  /** PHP's default `trim` list: space, tab, line feed, carriage return,
      NUL and vertical tab. */
  predicate IsTrimChar(c: char) {
    c == ' ' || c == '\t' || c == '\n' || c == '\r' || c == '\0' || c == '\U{000B}'
  }

  predicate AllTrimChars(s: string) {
    forall i :: 0 <= i < |s| ==> IsTrimChar(s[i])
  }

  /** True when `s` neither starts nor ends with a trimmable character. */
  predicate IsTrimmed(s: string) {
    s == [] || (!IsTrimChar(s[0]) && !IsTrimChar(s[|s| - 1]))
  }

  /** `r` is `s` with the first `i` characters and some suffix removed, and
      everything removed is a trim character. */
  predicate CutAt(s: string, i: int, r: string) {
    0 <= i <= |s| - |r| && r == s[i..i + |r|]
    && AllTrimChars(s[..i]) && AllTrimChars(s[i + |r|..])
  }

  /** How many trim characters `s` starts with. */
  function LeadingTrim(s: string): (n: nat)
    ensures n <= |s|
    ensures forall j :: 0 <= j < n ==> IsTrimChar(s[j])
    ensures n < |s| ==> !IsTrimChar(s[n])
  {
    if |s| > 0 && IsTrimChar(s[0]) then 1 + LeadingTrim(s[1..]) else 0
  }

  /** How many trim characters `s` ends with. */
  function TrailingTrim(s: string): (n: nat)
    ensures n <= |s|
    ensures forall j :: |s| - n <= j < |s| ==> IsTrimChar(s[j])
    ensures n < |s| ==> !IsTrimChar(s[|s| - 1 - n])
  {
    if |s| > 0 && IsTrimChar(s[|s| - 1]) then 1 + TrailingTrim(s[..|s| - 1]) else 0
  }

  /** PHP `trim($s)`: the result is an infix of `s`, what was cut off on
      either side consists of trim characters only, and the result itself
      has no trimmable character at either end. */
  function Trim(s: string): (r: string)
    ensures |r| <= |s|
    ensures IsTrimmed(r)
    ensures exists i {:trigger CutAt(s, i, r)} :: CutAt(s, i, r)
  {
    var i := LeadingTrim(s);
    var t := s[i..];
    var r := t[..|t| - TrailingTrim(t)];
    assert r == s[i..i + |r|];
    assert AllTrimChars(s[..i]);
    assert forall j :: i + |r| <= j < |s| ==> s[j] == t[j - i];
    assert CutAt(s, i, r);
    r
  }

  /** Trimming is idempotent: a trimmed body is left unchanged by a second trim. */
  lemma TrimIdempotent(s: string)
    ensures Trim(Trim(s)) == Trim(s)
  {
    TrimOfTrimmed(Trim(s));
  }

  /** `trim($s) === ''` holds exactly when `s` consists of trim characters only. */
  lemma TrimEmptyIff(s: string)
    ensures Trim(s) == [] <==> AllTrimChars(s)
  {
    var i := LeadingTrim(s);
    if AllTrimChars(s) {
      assert i == |s|;
    } else {
      assert i < |s| && !IsTrimChar(s[i]);
      var t := s[i..];
      assert t[0] == s[i];
      assert TrailingTrim(t) < |t|;
    }
  }

  /** A string with no trimmable character at either end survives `trim` unchanged. */
  lemma TrimOfTrimmed(s: string)
    requires IsTrimmed(s)
    ensures Trim(s) == s
  {
    if s != [] {
      assert LeadingTrim(s) == 0;
      assert s[0..] == s;
      assert TrailingTrim(s) == 0;
    }
  }

  /** ASCII `strtolower`: only `A`..`Z` change. */
  function LowerChar(c: char): (d: char)
    ensures !('A' <= d <= 'Z')
    ensures ('A' <= c <= 'Z') || d == c
    ensures ('A' <= c <= 'Z') ==> d as int == c as int + 32
  {
    if 'A' <= c <= 'Z' then (c as int + 32) as char else c
  }

  /** PHP `strtolower`, which since PHP 8.2 folds ASCII letters only. */
  function Lower(s: string): (r: string)
    ensures |r| == |s|
    ensures forall i :: 0 <= i < |s| ==> r[i] == LowerChar(s[i])
  {
    if s == [] then [] else [LowerChar(s[0])] + Lower(s[1..])
  }

  /** `Lower(s)` is `t` when `t` is `s` folded character by character. */
  lemma LowerIs(s: string, t: string)
    requires |s| == |t|
    requires forall i :: 0 <= i < |s| ==> LowerChar(s[i]) == t[i]
    ensures Lower(s) == t
  {
  }

  /** Lower-casing twice is the same as lower-casing once. */
  lemma {:induction false} LowerIdempotent(s: string)
    ensures Lower(Lower(s)) == Lower(s)
  {
    var l := Lower(s);
    var ll := Lower(l);
    assert |ll| == |l|;
    forall i | 0 <= i < |l| ensures ll[i] == l[i] {
      assert ll[i] == LowerChar(l[i]);
    }
  }
}
