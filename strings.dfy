/**
 * The few Python `str` builtins the core relies on, written out as functions
 * over `seq<char>`: `strip()`, `split(sep, 1)`, one-character `replace` and
 * `str()` of an integer.
 */
module Strings {
  import opened Wrappers

  /** Python's `str.isspace` for a single character: the characters that
      `strip()` with no argument removes. */
  predicate IsSpace(c: char) {
    var n := c as int;
    (9 <= n <= 13) || (28 <= n <= 32) || n == 0x85 || n == 0xA0 || n == 0x1680
    || (0x2000 <= n <= 0x200A) || n == 0x2028 || n == 0x2029 || n == 0x202F
    || n == 0x205F || n == 0x3000
  }

  predicate IsDigit(c: char) {
    '0' <= c <= '9'
  }

  /** `s` with its leading whitespace removed. */
  function TrimStart(s: string): (r: string)
    ensures |r| <= |s| && r == s[|s| - |r|..]
    ensures r == [] || !IsSpace(r[0])
  {
    if s != [] && IsSpace(s[0]) then TrimStart(s[1..]) else s
  }

  /** Everything `TrimStart` drops is whitespace. */
  lemma {:induction false} TrimStartDropsSpaces(s: string)
    ensures forall i :: 0 <= i < |s| - |TrimStart(s)| ==> IsSpace(s[i])
  {
    if s != [] && IsSpace(s[0]) {
      TrimStartDropsSpaces(s[1..]);
      forall i | 1 <= i < |s| - |TrimStart(s)| ensures IsSpace(s[i]) {
        assert s[i] == s[1..][i - 1];
      }
    }
  }

  /** `s` with its trailing whitespace removed. */
  function TrimEnd(s: string): (r: string)
    ensures |r| <= |s| && r == s[..|r|]
    ensures r == [] || !IsSpace(r[|r| - 1])
  {
    if s != [] && IsSpace(s[|s| - 1]) then TrimEnd(s[..|s| - 1]) else s
  }

  /** Everything `TrimEnd` drops is whitespace. */
  lemma {:induction false} TrimEndDropsSpaces(s: string)
    ensures forall i :: |TrimEnd(s)| <= i < |s| ==> IsSpace(s[i])
  {
    if s != [] && IsSpace(s[|s| - 1]) {
      TrimEndDropsSpaces(s[..|s| - 1]);
      forall i | |TrimEnd(s)| <= i < |s| - 1 ensures IsSpace(s[i]) {
        assert s[i] == s[..|s| - 1][i];
      }
    }
  }

  /** The number of whitespace characters `s` starts with. */
  function LeadingSpaces(s: string): (n: nat)
    ensures n <= |s| && (n < |s| ==> !IsSpace(s[n]))
  {
    |s| - |TrimStart(s)|
  }

  /** Python's `s.strip()`. */
  function Strip(s: string): string {
    TrimEnd(TrimStart(s))
  }

  lemma StripIsSlice(s: string)
    ensures LeadingSpaces(s) + |Strip(s)| <= |s|
    ensures Strip(s) == s[LeadingSpaces(s)..LeadingSpaces(s) + |Strip(s)|]
  {
    var t := TrimStart(s);
    var r := TrimEnd(t);
    var k := |s| - |t|;
    forall i | 0 <= i < |r| ensures r[i] == s[k + i] {
      assert r[i] == t[i] == s[k..][i];
    }
  }

  lemma StripEndsWithNonSpace(s: string)
    ensures var r := Strip(s);
            r == [] || (!IsSpace(r[0]) && !IsSpace(r[|r| - 1]))
  {
    var t := TrimStart(s);
    var r := TrimEnd(t);
    if r != [] {
      assert r[0] == t[0];
    }
  }

  lemma StripDropsTrailingSpaces(s: string)
    ensures LeadingSpaces(s) + |Strip(s)| <= |s|
    ensures forall i :: LeadingSpaces(s) + |Strip(s)| <= i < |s| ==> IsSpace(s[i])
  {
    var t := TrimStart(s);
    var r := TrimEnd(t);
    var k := |s| - |t|;
    assert t == s[k..];
    TrimEndDropsSpaces(t);
    forall i | k + |r| <= i < |s| ensures IsSpace(s[i]) {
      assert s[i] == t[i - k];
    }
  }

  /** `strip()` keeps the infix of `s` left after dropping its leading and
      trailing whitespace; the result neither starts nor ends with whitespace. */
  lemma StripSpec(s: string)
    ensures var r := Strip(s);
            && (r == [] || (!IsSpace(r[0]) && !IsSpace(r[|r| - 1])))
            && LeadingSpaces(s) + |r| <= |s|
            && r == s[LeadingSpaces(s)..LeadingSpaces(s) + |r|]
            && (forall i :: 0 <= i < LeadingSpaces(s) ==> IsSpace(s[i]))
            && (forall i :: LeadingSpaces(s) + |r| <= i < |s| ==> IsSpace(s[i]))
  {
    StripIsSlice(s);
    StripEndsWithNonSpace(s);
    TrimStartDropsSpaces(s);
    StripDropsTrailingSpaces(s);
  }

  /** Stripping twice is stripping once. */
  lemma StripIdempotent(s: string)
    ensures Strip(Strip(s)) == Strip(s)
  {
    var r := Strip(s);
    if r != [] {
      assert TrimStart(r) == r;
      assert TrimEnd(r) == r;
    }
  }

  function StartsWith(s: string, prefix: string): bool {
    |prefix| <= |s| && s[..|prefix|] == prefix
  }

  /** Does `sep` occur in `s` at position `k`? */
  predicate OccursAt(s: string, sep: string, k: int) {
    0 <= k && k + |sep| <= |s| && s[k..k + |sep|] == sep
  }

  /** The least position at or after `from` where `sep` occurs in `s`. */
  function FindFrom(s: string, sep: string, from: nat): (r: Option<nat>)
    requires |sep| > 0
    ensures r.Some? ==> from <= r.value && OccursAt(s, sep, r.value)
    ensures r.Some? ==> forall k :: from <= k < r.value ==> !OccursAt(s, sep, k)
    ensures r.None? ==> forall k :: from <= k ==> !OccursAt(s, sep, k)
    decreases |s| - from
  {
    if from + |sep| > |s| then None
    else if s[from..from + |sep|] == sep then Some(from)
    else FindFrom(s, sep, from + 1)
  }

  /** Python's `s.split(sep, 1)` when it yields two parts (the text before the
      first occurrence of `sep` and all the text after it); `None` when `sep`
      does not occur and `split` yields the single part `[s]`. Python raises on
      an empty separator. */
  function SplitOnce(s: string, sep: string): (r: Option<(string, string)>)
    requires |sep| > 0
    ensures r.Some? ==> r.value.0 + sep + r.value.1 == s
    ensures r.Some? ==> OccursAt(s, sep, |r.value.0|)
                        && forall k :: 0 <= k < |r.value.0| ==> !OccursAt(s, sep, k)
    ensures r.None? <==> forall k :: !OccursAt(s, sep, k)
  {
    match FindFrom(s, sep, 0)
    case None => None
    case Some(k) =>
      assert s[..k] + sep + s[k + |sep|..] == s;
      Some((s[..k], s[k + |sep|..]))
  }

  /** Python's `s.replace(from, to)` for one-character `from` and `to`. */
  function ReplaceChar(s: string, from: char, to: char): (r: string)
    ensures |r| == |s|
    ensures forall i :: 0 <= i < |s| ==> r[i] == (if s[i] == from then to else s[i])
  {
    if s == [] then []
    else [if s[0] == from then to else s[0]] + ReplaceChar(s[1..], from, to)
  }

  /** After replacing every `from` by a different `to`, no `from` is left. */
  lemma ReplaceRemovesOld(s: string, from: char, to: char)
    requires from != to
    ensures from !in ReplaceChar(s, from, to)
  {
    var r := ReplaceChar(s, from, to);
    forall i | 0 <= i < |r| ensures r[i] != from {
    }
  }

  /** Replacing `a` by `b` and then `b` by `a` gives back `s` exactly when `s`
      held no `b` to begin with. */
  lemma ReplaceRoundTrip(s: string, a: char, b: char)
    requires a != b
    ensures ReplaceChar(ReplaceChar(s, a, b), b, a) == s <==> b !in s
  {
    var r := ReplaceChar(ReplaceChar(s, a, b), b, a);
    if b in s {
      var i :| 0 <= i < |s| && s[i] == b;
      assert r[i] == a;
    } else {
      assert forall i :: 0 <= i < |s| ==> r[i] == s[i];
    }
  }

  /** The decimal digit for `d < 10`. */
  function DigitChar(d: nat): (c: char)
    requires d < 10
    ensures IsDigit(c) && (c as int) - ('0' as int) == d
  {
    ['0', '1', '2', '3', '4', '5', '6', '7', '8', '9'][d]
  }

  /** Python's `str(n)` for a natural number: its decimal digits, no leading zero. */
  function NatToDecimal(n: nat): (r: string)
    ensures |r| > 0 && forall i :: 0 <= i < |r| ==> IsDigit(r[i])
    ensures |r| > 1 ==> r[0] != '0'
  {
    if n < 10 then [DigitChar(n)] else NatToDecimal(n / 10) + [DigitChar(n % 10)]
  }

  /** Python's `str()` of an integer: a minus sign exactly for a negative
      number, then the digits of its magnitude, with no leading zero. */
  function IntToDecimal(i: int): (r: string)
    ensures |r| > 0 && (r[0] == '-' <==> i < 0)
    ensures forall k :: 0 <= k < |r| ==> IsDigit(r[k]) || (k == 0 && i < 0)
    ensures i >= 0 ==> DecimalValue(r) == i && (|r| > 1 ==> r[0] != '0')
    ensures i < 0 ==> |r| > 1 && r[1] != '0' && DecimalValue(r[1..]) == -i
  {
    if i < 0 then
      SignedDecimalRoundTrip(-i);
      "-" + NatToDecimal(-i)
    else
      DecimalRoundTrip(i);
      NatToDecimal(i)
  }

  /** Dropping the sign of `"-" + str(n)` reads back `n`. */
  lemma SignedDecimalRoundTrip(n: nat)
    ensures var r := "-" + NatToDecimal(n);
            r[1..] == NatToDecimal(n) && DecimalValue(r[1..]) == n
  {
    var d := NatToDecimal(n);
    assert ("-" + d)[1..] == d;
    DecimalRoundTrip(n);
  }

  function DigitValue(c: char): nat
    requires IsDigit(c)
  {
    (c as int) - ('0' as int)
  }

  /** The number a string of decimal digits denotes (Python's `int(s)`). */
  function DecimalValue(s: string): nat
    requires forall i :: 0 <= i < |s| ==> IsDigit(s[i])
  {
    if s == [] then 0
    else 10 * DecimalValue(s[..|s| - 1]) + DigitValue(s[|s| - 1])
  }

  /** `int(str(n)) == n`: the decimal rendering loses nothing. */
  lemma {:induction false} DecimalRoundTrip(n: nat)
    ensures DecimalValue(NatToDecimal(n)) == n
  {
    if n >= 10 {
      var r := NatToDecimal(n);
      assert r[..|r| - 1] == NatToDecimal(n / 10);
      DecimalRoundTrip(n / 10);
    }
  }
}
