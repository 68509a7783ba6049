/** String helpers with Python's meaning, restricted to ASCII character classes. */
module Text {
  import opened Wrappers

  predicate IsDigit(c: char) { '0' <= c <= '9' }
  predicate IsLower(c: char) { 'a' <= c <= 'z' }
  predicate IsUpper(c: char) { 'A' <= c <= 'Z' }
  predicate IsAlpha(c: char) { IsLower(c) || IsUpper(c) }
  predicate IsAlnum(c: char) { IsAlpha(c) || IsDigit(c) }

  /** `str.isspace()` on the ASCII range. */
  predicate IsSpace(c: char) {
    c == ' ' || c == '\t' || c == '\n' || c == '\r' || c == '\U{B}' || c == '\U{C}'
    || ('\U{1C}' <= c <= '\U{1F}')
  }

  /** An optional string used as a Python condition: present and non-empty. */
  predicate Truthy(s: Option<string>) { s.Some? && s.value != [] }

  predicate AllDigits(s: string) { forall i :: 0 <= i < |s| ==> IsDigit(s[i]) }

  predicate StartsWith(s: string, p: string) { |p| <= |s| && s[..|p|] == p }
  predicate EndsWith(s: string, p: string) { |p| <= |s| && s[|s| - |p|..] == p }

  predicate OccursAt(s: string, sub: string, i: nat) { i + |sub| <= |s| && s[i..i + |sub|] == sub }

  /** Python's `sub in s`. */
  predicate Contains(s: string, sub: string) { exists i :: 0 <= i <= |s| && OccursAt(s, sub, i) }

  /** Regrouping three concatenated pieces. */
  lemma AppendAssoc<T>(x: seq<T>, y: seq<T>, z: seq<T>)
    ensures x + (y + z) == (x + y) + z
  {
  }

  /** The first index at or after `i` that does not hold whitespace, or `|s|`. */
  function SpaceRunEnd(s: string, i: nat): (e: nat)
    requires i <= |s|
    ensures i <= e <= |s| && (e == |s| || !IsSpace(s[e]))
    ensures forall k :: i <= k < e ==> IsSpace(s[k])
    decreases |s| - i
  {
    if i < |s| && IsSpace(s[i]) then SpaceRunEnd(s, i + 1) else i
  }

  /** The index just past the last non-whitespace character before `j`, or 0. */
  function SpaceRunStart(s: string, j: nat): (b: nat)
    requires j <= |s|
    ensures b <= j && (b == 0 || !IsSpace(s[b - 1]))
    ensures forall k :: b <= k < j ==> IsSpace(s[k])
  {
    if j > 0 && IsSpace(s[j - 1]) then SpaceRunStart(s, j - 1) else j
  }

  /** Python's `str.lstrip()`. */
  function LStrip(s: string): (r: string)
    ensures |r| <= |s| && forall i :: 0 <= i < |r| ==> r[i] == s[|s| - |r| + i]
    ensures r == [] || !IsSpace(r[0])
    ensures forall i :: 0 <= i < |s| - |r| ==> IsSpace(s[i])
  {
    s[SpaceRunEnd(s, 0)..]
  }

  /** Python's `str.rstrip()`. */
  function RStrip(s: string): (r: string)
    ensures |r| <= |s| && forall i :: 0 <= i < |r| ==> r[i] == s[i]
    ensures r == [] || !IsSpace(r[|r| - 1])
    ensures forall i :: |r| <= i < |s| ==> IsSpace(s[i])
  {
    s[..SpaceRunStart(s, |s|)]
  }

  /** Python's `str.strip()`. */
  function Strip(s: string): string { RStrip(LStrip(s)) }

  /** `strip()` cuts one piece out of the string, starting after the leading whitespace. */
  lemma StripPiece(s: string)
    ensures |s| - |LStrip(s)| + |Strip(s)| <= |s|
    ensures forall i :: 0 <= i < |Strip(s)| ==> Strip(s)[i] == s[|s| - |LStrip(s)| + i]
  {
    var l := LStrip(s);
    var r := RStrip(l);
    forall i | 0 <= i < |r|
      ensures r[i] == s[|s| - |l| + i]
    {
      assert r[i] == l[i];
    }
  }

  /** A non-space character of `s` survives `strip()`, shifted left by the leading whitespace. */
  lemma StripKeepsAt(s: string, k: nat)
    requires k < |s| && !IsSpace(s[k])
    ensures |s| - |LStrip(s)| <= k < |s| - |LStrip(s)| + |Strip(s)|
    ensures Strip(s)[k - (|s| - |LStrip(s)|)] == s[k]
  {
    var l := LStrip(s);
    var j := k - (|s| - |l|);
    assert l[j] == s[k];
    var r := RStrip(l);
    assert r[j] == l[j];
  }

  /** `strip()` gives the piece of the string that starts after the leading whitespace. */
  lemma StripOccurs(s: string)
    ensures OccursAt(s, Strip(s), |s| - |LStrip(s)|)
  {
    StripPiece(s);
    assert s[|s| - |LStrip(s)|..|s| - |LStrip(s)| + |Strip(s)|] == Strip(s);
  }

  /** What `strip()` removes on either side is whitespace. */
  lemma StripSurround(s: string)
    ensures forall k :: 0 <= k < |s| - |LStrip(s)| ==> IsSpace(s[k])
    ensures forall k :: |s| - |LStrip(s)| + |Strip(s)| <= k < |s| ==> IsSpace(s[k])
  {
    var l := LStrip(s);
    var lead := |s| - |l|;
    forall k | lead + |Strip(s)| <= k < |s|
      ensures IsSpace(s[k])
    {
      assert s[k] == l[k - lead];
    }
  }

  lemma StripEnds(s: string)
    ensures Strip(s) == [] || (!IsSpace(Strip(s)[0]) && !IsSpace(Strip(s)[|Strip(s)| - 1]))
  {
    var l := LStrip(s);
    var r := RStrip(l);
    if r != [] {
      assert r[0] == l[0];
    }
  }

  function LowerChar(c: char): char { if IsUpper(c) then (c as int + 32) as char else c }

  /** `str.lower()` on the ASCII range. */
  function Lower(s: string): (r: string)
    ensures |r| == |s| && forall i :: 0 <= i < |s| ==> r[i] == LowerChar(s[i])
  {
    seq(|s|, i requires 0 <= i < |s| => LowerChar(s[i]))
  }

  function DigitChar(d: nat): char requires d < 10 { ('0' as int + d) as char }

  /** The decimal text of a natural number, as `str(n)` prints it. */
  function NatToString(n: nat): (r: string)
    ensures |r| >= 1 && AllDigits(r)
    decreases n
  {
    if n < 10 then [DigitChar(n)] else NatToString(n / 10) + [DigitChar(n % 10)]
  }

  /** `str(i)` for an integer, with a leading '-' when negative. */
  function IntToString(i: int): string
  {
    if i < 0 then "-" + NatToString(-i) else NatToString(i)
  }

  /** The value of a run of decimal digits, as `int(s)` reads it. */
  function DigitsValue(s: string): nat
    requires AllDigits(s)
  {
    if s == [] then 0 else DigitsValue(s[..|s| - 1]) * 10 + (s[|s| - 1] as int - '0' as int)
  }

  lemma {:induction false} NatToStringValue(n: nat)
    ensures DigitsValue(NatToString(n)) == n
    decreases n
  {
    if n >= 10 {
      var s := NatToString(n / 10) + [DigitChar(n % 10)];
      assert s[..|s| - 1] == NatToString(n / 10);
      NatToStringValue(n / 10);
    }
  }

  /** The end of the run of digits that starts at `i`. */
  function DigitRunEnd(s: string, i: nat): (e: nat)
    requires i <= |s|
    ensures i <= e <= |s| && AllDigits(s[i..e]) && (e == |s| || !IsDigit(s[e]))
    ensures forall k :: i <= k < e ==> IsDigit(s[k])
    decreases |s| - i
  {
    if i < |s| && IsDigit(s[i]) then DigitRunEnd(s, i + 1) else i
  }

  /** A run of digits followed by a non-digit (or the end) is the run `DigitRunEnd` finds. */
  lemma {:induction false} DigitsUpTo(s: string, i: nat, e: nat)
    requires i <= e <= |s|
    requires forall k :: i <= k < e ==> IsDigit(s[k])
    requires e == |s| || !IsDigit(s[e])
    ensures DigitRunEnd(s, i) == e
    decreases e - i
  {
    if i < e {
      DigitsUpTo(s, i + 1, e);
    }
  }

  /** Python's `s.split(sep)` for a one-character separator. */
  function Split(s: string, sep: char): (parts: seq<string>)
    ensures |parts| >= 1
    ensures forall k :: 0 <= k < |parts| ==> sep !in parts[k]
  {
    SplitFrom(s, sep, [])
  }

  function SplitFrom(s: string, sep: char, current: string): (parts: seq<string>)
    requires sep !in current
    ensures |parts| >= 1
    ensures forall k :: 0 <= k < |parts| ==> sep !in parts[k]
  {
    if s == [] then [current]
    else if s[0] == sep then [current] + SplitFrom(s[1..], sep, [])
    else SplitFrom(s[1..], sep, current + [s[0]])
  }

  /** The position of the first occurrence of `c`, or `|s|`. */
  function IndexOf(s: string, c: char): (k: nat)
    ensures k <= |s| && c !in s[..k] && (k < |s| ==> s[k] == c)
  {
    if s == [] then 0 else if s[0] == c then 0 else 1 + IndexOf(s[1..], c)
  }

  /** `tag` occurs at `k` and a digit follows it. */
  predicate TagDigitAt(s: string, tag: string, k: nat) {
    OccursAt(s, tag, k) && k + |tag| < |s| && IsDigit(s[k + |tag|])
  }

  /** The leftmost position at or after `from` where `tag` is followed by a digit. */
  function FirstTagDigit(s: string, tag: string, from: nat): (r: Option<nat>)
    requires from <= |s|
    ensures r.Some? ==> from <= r.value < |s| && TagDigitAt(s, tag, r.value)
    ensures r.Some? ==> forall k :: from <= k < r.value ==> !TagDigitAt(s, tag, k)
    ensures r.None? ==> forall k :: from <= k <= |s| ==> !TagDigitAt(s, tag, k)
    decreases |s| - from
  {
    if TagDigitAt(s, tag, from) then Some(from)
    else if from == |s| then None
    else FirstTagDigit(s, tag, from + 1)
  }

  /** `re.search(tag + r'(\d+)', s).group(1)`: the digits after the leftmost `tag` that a digit follows. */
  function TaggedDigits(s: string, tag: string): (r: Option<string>)
    ensures r.Some? <==> exists k :: 0 <= k <= |s| && TagDigitAt(s, tag, k)
    ensures r.Some? ==> |r.value| >= 1 && AllDigits(r.value)
    ensures r.Some? ==> exists k ::
      && 0 <= k <= |s| && TagDigitAt(s, tag, k)
      && (forall j :: 0 <= j < k ==> !TagDigitAt(s, tag, j))
      && WholeRunAt(s, tag, r.value, k)
  {
    match FirstTagDigit(s, tag, 0)
    case None => None
    case Some(k) =>
      var e := DigitRunEnd(s, k + |tag|);
      assert s[k..e] == s[k..k + |tag|] + s[k + |tag|..e];
      assert WholeRunAt(s, tag, s[k + |tag|..e], k);
      Some(s[k + |tag|..e])
  }

  /** `tag` and then `digits` occur at `k`, and no digit follows them. */
  predicate WholeRunAt(s: string, tag: string, digits: string, k: nat) {
    OccursAt(s, tag + digits, k) && (k + |tag| + |digits| == |s| || !IsDigit(s[k + |tag| + |digits|]))
  }
}
