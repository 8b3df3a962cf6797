/** The parts of java.lang.String and Long.toString that the bookstore core
    relies on: trim, ASCII case mapping, startsWith, contains, and the
    decimal rendering of (possibly null) long values. */
module Text {
  import opened Base

  // ---------------------------------------------------------------- trim

  /** String.trim() strips every character whose code is at most U+0020. */
  predicate IsTrimmed(c: char) {
    c <= ' '
  }

  /** The leading trimmed characters removed. */
  function TrimStart(s: string): (r: string)
    ensures |r| <= |s| && r == s[|s| - |r|..]
    ensures r != [] ==> !IsTrimmed(r[0])
    ensures forall i :: 0 <= i < |s| - |r| ==> IsTrimmed(s[i])
  {
    if s != [] && IsTrimmed(s[0]) then TrimStart(s[1..]) else s
  }

  /** The trailing trimmed characters removed. */
  function TrimEnd(s: string): (r: string)
    ensures |r| <= |s| && r == s[..|r|]
    ensures r != [] ==> !IsTrimmed(r[|r| - 1])
    ensures forall i :: |r| <= i < |s| ==> IsTrimmed(s[i])
  {
    if s != [] && IsTrimmed(s[|s| - 1]) then TrimEnd(s[..|s| - 1]) else s
  }

  /** A suffix `t` of `s` after trimmed characters, and a prefix `r` of
      `t` before trimmed characters, cut `s` into a trimmed prefix, the
      infix `r` and a trimmed suffix. */
  lemma TrimSplit(s: string, t: string, r: string)
    requires |t| <= |s| && t == s[|s| - |t|..]
    requires forall k :: 0 <= k < |s| - |t| ==> IsTrimmed(s[k])
    requires |r| <= |t| && r == t[..|r|]
    requires forall k :: |r| <= k < |t| ==> IsTrimmed(t[k])
    ensures var i := |s| - |t|;
      && OccursAt(s, r, i)
      && (forall k :: 0 <= k < i ==> IsTrimmed(s[k]))
      && (forall k :: i + |r| <= k < |s| ==> IsTrimmed(s[k]))
  {
    var i := |s| - |t|;
    assert s[i..i + |r|] == r;
    forall k | i + |r| <= k < |s|
      ensures IsTrimmed(s[k])
    {
      assert s[k] == t[k - i];
    }
  }

  /** String.trim(): the longest infix of `s` that neither starts nor ends
      with a trimmed character; everything outside it is trimmed. */
  function Trim(s: string): (r: string)
    ensures exists i ::
              && OccursAt(s, r, i)
              && (forall k :: 0 <= k < i ==> IsTrimmed(s[k]))
              && (forall k :: i + |r| <= k < |s| ==> IsTrimmed(s[k]))
    ensures r != [] ==> !IsTrimmed(r[0]) && !IsTrimmed(r[|r| - 1])
  {
    var t := TrimStart(s);
    var r := TrimEnd(t);
    TrimSplit(s, t, r);
    r
  }

  /** `s.trim().isEmpty()`. */
  predicate IsBlank(s: string) {
    Trim(s) == []
  }

  /** A string trims to nothing exactly when every character of it is trimmed. */
  lemma BlankIffAllTrimmed(s: string)
    ensures IsBlank(s) <==> forall i :: 0 <= i < |s| ==> IsTrimmed(s[i])
  {
    var t := TrimStart(s);
    if !forall i :: 0 <= i < |s| ==> IsTrimmed(s[i]) {
      var i :| 0 <= i < |s| && !IsTrimmed(s[i]);
      assert |s| - |t| <= i;
      assert t[i - (|s| - |t|)] == s[i];
    }
  }

  // ------------------------------------------------------- case mapping

  predicate IsAsciiUpper(c: char) {
    'A' <= c <= 'Z'
  }

  predicate IsAsciiLower(c: char) {
    'a' <= c <= 'z'
  }

  function LowerChar(c: char): (d: char)
    ensures !IsAsciiUpper(d)
    ensures IsAsciiUpper(c) ==> d as int == c as int + 32
    ensures !IsAsciiUpper(c) ==> d == c
  {
    if IsAsciiUpper(c) then (c as int + 32) as char else c
  }

  function UpperChar(c: char): (d: char)
    ensures !IsAsciiLower(d)
    ensures IsAsciiLower(c) ==> d as int == c as int - 32
    ensures !IsAsciiLower(c) ==> d == c
  {
    if IsAsciiLower(c) then (c as int - 32) as char else c
  }

  /** String.toLowerCase() on the ASCII letters. */
  function ToLower(s: string): (r: string)
    ensures |r| == |s|
    ensures forall i :: 0 <= i < |s| ==> r[i] == LowerChar(s[i])
  {
    if s == [] then [] else [LowerChar(s[0])] + ToLower(s[1..])
  }

  /** String.toUpperCase() on the ASCII letters. */
  function ToUpper(s: string): (r: string)
    ensures |r| == |s|
    ensures forall i :: 0 <= i < |s| ==> r[i] == UpperChar(s[i])
  {
    if s == [] then [] else [UpperChar(s[0])] + ToUpper(s[1..])
  }

  // ------------------------------------------------- startsWith / contains

  /** String.startsWith(p). */
  predicate StartsWith(s: string, p: string) {
    |p| <= |s| && s[..|p|] == p
  }

  /** `s` starts with `p` exactly when it agrees with `p` on each of the
      positions of `p`. */
  lemma StartsWithIffAgrees(s: string, p: string)
    ensures StartsWith(s, p) <==> |p| <= |s| && forall i :: 0 <= i < |p| ==> s[i] == p[i]
  {
  }

  /** `q` occurs in `s` beginning at index `i`. */
  predicate OccursAt(s: string, q: string, i: int) {
    0 <= i && i + |q| <= |s| && s[i..i + |q|] == q
  }

  /** String.contains(q), scanning the start positions left to right. */
  function Contains(s: string, q: string): (r: bool)
    ensures StartsWith(s, q) ==> r
    ensures r ==> |q| <= |s|
  {
    if StartsWith(s, q) then true
    else if s == [] then false
    else Contains(s[1..], q)
  }

  /** `s.contains(q)` holds exactly when `q` occurs somewhere in `s`. */
  lemma {:induction false} ContainsIffOccurs(s: string, q: string)
    ensures Contains(s, q) <==> exists i :: OccursAt(s, q, i)
  {
    if StartsWith(s, q) {
      assert OccursAt(s, q, 0);
    } else if s == [] {
    } else {
      ContainsIffOccurs(s[1..], q);
      if exists i :: OccursAt(s[1..], q, i) {
        var i :| OccursAt(s[1..], q, i);
        assert s[1..][i..i + |q|] == s[i + 1..i + 1 + |q|];
        assert OccursAt(s, q, i + 1);
      }
      if exists i :: OccursAt(s, q, i) {
        var i :| OccursAt(s, q, i);
        assert s[1..][i - 1..i - 1 + |q|] == s[i..i + |q|];
        assert OccursAt(s[1..], q, i - 1);
      }
    }
  }

  // ------------------------------------------------------------ decimals

  predicate IsDigit(c: char) {
    '0' <= c <= '9'
  }

  predicate AllDigits(s: string) {
    forall i :: 0 <= i < |s| ==> IsDigit(s[i])
  }

  function DigitChar(d: nat): (c: char)
    requires d < 10
    ensures IsDigit(c) && c as int - '0' as int == d
  {
    ('0' as int + d) as char
  }

  function DigitValue(c: char): (d: nat)
    requires IsDigit(c)
    ensures d < 10
  {
    c as int - '0' as int
  }

  /** The decimal rendering Java gives a non-negative long: digits only,
      and no leading zero. */
  function NatToDecimal(n: nat): (r: string)
    ensures |r| >= 1 && AllDigits(r)
    ensures r[0] == '0' ==> n == 0
    ensures n < Pow10(|r|) && (|r| > 1 ==> Pow10(|r| - 1) <= n)
    decreases n
  {
    if n < 10 then [DigitChar(n)] else NatToDecimal(n / 10) + [DigitChar(n % 10)]
  }

  function Pow10(k: nat): (p: nat)
    ensures p >= 1
  {
    if k == 0 then 1 else 10 * Pow10(k - 1)
  }

  /** A number below 10000 renders in at most four digits. */
  lemma FourDigitsBelow10000(n: nat)
    requires n < 10000
    ensures |NatToDecimal(n)| <= 4
  {
    var k := |NatToDecimal(n)|;
    if k > 4 {
      PowMonotone(4, k - 1);
      assert false;
    }
  }

  lemma {:induction false} PowMonotone(j: nat, k: nat)
    requires j <= k
    ensures Pow10(j) <= Pow10(k)
    decreases k
  {
    if j < k {
      PowMonotone(j, k - 1);
    }
  }

  /** Reads a string of digits as a number. */
  function DecimalValue(s: string): nat
    requires AllDigits(s)
  {
    if s == [] then 0 else DecimalValue(s[..|s| - 1]) * 10 + DigitValue(s[|s| - 1])
  }

  /** Reading back the rendering of `n` gives `n`. */
  lemma {:induction false} DecimalRoundTrip(n: nat)
    ensures DecimalValue(NatToDecimal(n)) == n
    decreases n
  {
    var r := NatToDecimal(n);
    if n >= 10 {
      DecimalRoundTrip(n / 10);
      assert r[..|r| - 1] == NatToDecimal(n / 10);
    }
  }

  /** Long.toString: a minus sign before the digits of a negative value. */
  function LongToString(i: int): (r: string)
    ensures r != [] && (r[0] == '-' <==> i < 0)
    ensures ':' !in r && ',' !in r
  {
    if i < 0 then "-" + NatToDecimal(-i) else NatToDecimal(i)
  }

  /** String concatenation of a Long reference: "null" for null. */
  function NullableLongToString(o: Option<int>): (r: string)
    ensures ':' !in r && ',' !in r
  {
    match o
    case None => "null"
    case Some(i) => LongToString(i)
  }

  /** Reads back what NullableLongToString writes; None for "null" and for
      anything that is not a rendering of a long. */
  function ParseNullableLong(s: string): Option<int> {
    if s == "null" then None
    else if s != [] && s[0] == '-' && AllDigits(s[1..]) then Some(0 - DecimalValue(s[1..]) as int)
    else if AllDigits(s) then Some(DecimalValue(s))
    else None
  }

  /** Rendering a nullable long and reading it back gives it back; hence
      two different ids never render alike. */
  lemma NullableLongRoundTrip(o: Option<int>)
    ensures ParseNullableLong(NullableLongToString(o)) == o
  {
    match o
    case None =>
    case Some(i) =>
      var r := LongToString(i);
      assert r != "null" by { assert r[0] != 'n'; }
      if i < 0 {
        DecimalRoundTrip(-i);
        assert r[1..] == NatToDecimal(-i);
      } else {
        DecimalRoundTrip(i);
      }
  }

  /** Index of the first `c` in `s`; its length when there is none, where
      String.indexOf gives -1. */
  function IndexOf(s: string, c: char): (k: nat)
    ensures k <= |s|
    ensures k < |s| ==> s[k] == c
    ensures forall i :: 0 <= i < k ==> s[i] != c
  {
    if s == [] || s[0] == c then 0 else 1 + IndexOf(s[1..], c)
  }

  lemma {:induction false} IndexOfAfter(s: string, c: char, rest: string)
    requires c !in s
    ensures IndexOf(s + [c] + rest, c) == |s|
  {
    if s != [] {
      assert (s + [c] + rest)[1..] == s[1..] + [c] + rest;
      IndexOfAfter(s[1..], c, rest);
    }
  }

  /** Index of the last `c` in `s` (-1 when there is none), as
      String.lastIndexOf finds it. */
  function LastIndexOf(s: string, c: char): (k: int)
    ensures -1 <= k < |s|
    ensures k >= 0 ==> s[k] == c
    ensures forall i :: k < i < |s| ==> s[i] != c
  {
    if s == [] then -1
    else if s[|s| - 1] == c then |s| - 1
    else LastIndexOf(s[..|s| - 1], c)
  }

  /** Past a text that is empty or ends with `c`, a text without `c` leaves
      the last `c` where it was. */
  lemma {:induction false} LastIndexOfAfter(p: string, t: string, c: char)
    requires p == [] || p[|p| - 1] == c
    requires c !in t
    ensures LastIndexOf(p + t, c) == |p| - 1
    decreases |t|
  {
    if t == [] {
      assert p + t == p;
    } else {
      var init := t[..|t| - 1];
      assert (p + t)[..|p + t| - 1] == p + init;
      LastIndexOfAfter(p, init, c);
    }
  }

  /** When "a:" is a prefix of "b:" + rest and neither `a` nor `b` holds a
      colon, then `a` and `b` are the same string. */
  lemma KeyPrefixDetermined(a: string, b: string, rest: string)
    requires ':' !in a && ':' !in b
    requires StartsWith(b + ":" + rest, a + ":")
    ensures a == b
  {
    var line := b + ":" + rest;
    assert line == a + ":" + line[|a| + 1..];
    IndexOfAfter(a, ':', line[|a| + 1..]);
    IndexOfAfter(b, ':', rest);
    assert a == line[..|a|] == b;
  }
}
