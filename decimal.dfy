/** Decimal integers as the C++ stream library writes them (`out << n`) and
    reads them back (`in >> n` into a signed 64-bit variable). */
module Decimal {
  import opened Nodes

  predicate IsDigit(c: char) { '0' <= c <= '9' }

  /** The characters `isspace` accepts in the "C" locale. */
  predicate IsSpace(c: char)
  {
    c == ' ' || c == '\t' || c == '\n' || c == '\r' || c == '\U{B}' || c == '\U{C}'
  }

  predicate AllDigits(s: string) { forall k :: 0 <= k < |s| ==> IsDigit(s[k]) }

  function DigitChar(d: nat): (c: char)
    requires d < 10
    ensures IsDigit(c)
  {
    ['0', '1', '2', '3', '4', '5', '6', '7', '8', '9'][d]
  }

  function DigitValue(c: char): (d: nat)
    requires IsDigit(c)
    ensures d < 10
  {
    (c as int - '0' as int) as nat
  }

  /** The numeral of `n`, most significant digit first, no leading zeros. */
  function Digits(n: nat): (s: string)
    ensures |s| > 0 && AllDigits(s)
    ensures n > 0 ==> s[0] != '0'
  {
    if n < 10 then [DigitChar(n)] else Digits(n / 10) + [DigitChar(n % 10)]
  }

  /** `out << x` for an integer: a minus sign for negatives, then the numeral. */
  function Show(x: int): (s: string)
    ensures |s| > 0 && (IsDigit(s[0]) || s[0] == '-')
    ensures '|' !in s && '\n' !in s
  {
    var s := if x < 0 then "-" + Digits(-x) else Digits(x);
    assert forall k :: 0 <= k < |s| ==> s[k] == '-' || IsDigit(s[k]);
    s
  }

  /** The value of a numeral. */
  function Value(s: string): (r: nat)
    requires AllDigits(s)
  {
    if s == [] then 0 else 10 * Value(s[..|s| - 1]) + DigitValue(s[|s| - 1])
  }

  /** Length of the run of digits at the front of `s`. */
  function DigitRun(s: string): (k: nat)
    ensures k <= |s| && AllDigits(s[..k])
    ensures k < |s| ==> !IsDigit(s[k])
  {
    if s != [] && IsDigit(s[0]) then
      var k := 1 + DigitRun(s[1..]);
      assert s[..k] == [s[0]] + s[1..][..k - 1];
      k
    else 0
  }

  /** `s` without its leading white space. */
  function SkipSpace(s: string): (t: string)
    ensures |t| <= |s| && t == s[|s| - |t|..]
    ensures t != [] ==> !IsSpace(t[0])
  {
    if s != [] && IsSpace(s[0]) then SkipSpace(s[1..]) else s
  }

  /** The outcome of one `>>` extraction: whether the stream is still good
      (neither failed nor at end of input), the value stored in the target
      variable, and the characters not consumed. */
  datatype Extraction = Extraction(good: bool, value: Time, rest: string)

  /** `in >> v` for a 64-bit `v` on a good stream holding `s`. Leading white
      space is skipped, then an optional sign and a run of digits are read.
      No digits: failure and 0 is stored. Out of range: failure and the
      nearest bound is stored. Reaching the end of input clears `good` but
      keeps a value read. Where the library leaves the variable untouched
      (end of input while skipping white space) the model stores 0. */
  function ReadLong(s: string): (r: Extraction)
    ensures |r.rest| <= |s|
    ensures r.good ==> r.rest != [] && !IsDigit(r.rest[0])
  {
    var t := SkipSpace(s);
    if t == [] then Extraction(false, 0, [])
    else if t[0] == '-' then ReadMagnitude(true, t[1..])
    else if t[0] == '+' then ReadMagnitude(false, t[1..])
    else ReadMagnitude(false, t)
  }

  /** The digits after the optional sign. */
  function ReadMagnitude(negative: bool, u: string): (r: Extraction)
    ensures |r.rest| <= |u|
    ensures r.good ==> r.rest != [] && !IsDigit(r.rest[0])
  {
    var k := DigitRun(u);
    if k == 0 then Extraction(false, 0, u)
    else
      var m: int := Value(u[..k]);
      var v := if negative then -m else m;
      if v < MinTime then Extraction(false, MinTime, u[k..])
      else if v > MaxTime then Extraction(false, MaxTime, u[k..])
      else Extraction(u[k..] != [], v, u[k..])
  }

  lemma {:induction false} ValueDigits(n: nat)
    ensures Value(Digits(n)) == n
  {
    var s := Digits(n);
    if n >= 10 {
      ValueDigits(n / 10);
      assert s[..|s| - 1] == Digits(n / 10);
      assert s[|s| - 1] == DigitChar(n % 10);
    } else {
      assert s[..|s| - 1] == [];
    }
    CharRoundTrip(if n < 10 then n else n % 10);
  }

  lemma CharRoundTrip(d: nat)
    requires d < 10
    ensures DigitValue(DigitChar(d)) == d
  {
  }

  lemma {:induction false} DigitRunPrefix(p: string, q: string)
    requires AllDigits(p)
    requires q == [] || !IsDigit(q[0])
    ensures DigitRun(p + q) == |p|
  {
    if p != [] {
      assert (p + q)[1..] == p[1..] + q;
      DigitRunPrefix(p[1..], q);
    }
  }

  /** A numeral followed by input that does not continue it is read whole. */
  lemma ReadNumeral(negative: bool, n: nat, tail: string)
    requires tail == [] || !IsDigit(tail[0])
    requires MinTime <= (if negative then -(n as int) else n) <= MaxTime
    ensures ReadMagnitude(negative, Digits(n) + tail)
         == Extraction(tail != [], if negative then -(n as int) else n, tail)
  {
    var u := Digits(n) + tail;
    DigitRunPrefix(Digits(n), tail);
    assert u[..|Digits(n)|] == Digits(n);
    assert u[|Digits(n)|..] == tail;
    ValueDigits(n);
  }

  /** Reading back what `Show` wrote yields the same value and stops in front
      of whatever follows, provided that does not continue the numeral; the
      stream stays good unless the input ends there. */
  lemma ReadShow(x: Time, tail: string)
    requires tail == [] || !IsDigit(tail[0])
    ensures ReadLong(Show(x) + tail) == Extraction(tail != [], x, tail)
  {
    var v: int := x;
    if v < 0 {
      ReadNegative(-v, tail);
    } else {
      ReadNonNegative(v, tail);
    }
  }

  lemma ReadNegative(n: nat, tail: string)
    requires 0 < n <= -MinTime
    requires tail == [] || !IsDigit(tail[0])
    ensures ReadLong(Show(-(n as int)) + tail) == Extraction(tail != [], -(n as int), tail)
  {
    var u := Digits(n) + tail;
    ShowNegative(n, tail);
    ReadMinus(u);
    ReadNumeral(true, n, tail);
  }

  lemma ShowNegative(n: nat, tail: string)
    requires 0 < n
    ensures Show(-(n as int)) + tail == "-" + (Digits(n) + tail)
  {
    assert Show(-(n as int)) == "-" + Digits(n);
  }

  /** After a minus sign, `>>` reads a negative magnitude. */
  lemma ReadMinus(u: string)
    ensures ReadLong("-" + u) == ReadMagnitude(true, u)
  {
    var s := "-" + u;
    assert s[0] == '-' && !IsSpace(s[0]);
    assert SkipSpace(s) == s;
    assert s[1..] == u;
  }

  lemma ReadNonNegative(n: nat, tail: string)
    requires n <= MaxTime
    requires tail == [] || !IsDigit(tail[0])
    ensures ReadLong(Show(n) + tail) == Extraction(tail != [], n, tail)
  {
    assert Show(n) == Digits(n);
    ReadDigitFirst(Digits(n) + tail);
    ReadNumeral(false, n, tail);
  }

  /** Input that starts with a digit is read as a non-negative magnitude. */
  lemma ReadDigitFirst(u: string)
    requires u != [] && IsDigit(u[0])
    ensures ReadLong(u) == ReadMagnitude(false, u)
  {
    assert !IsSpace(u[0]);
    assert SkipSpace(u) == u;
  }
}
