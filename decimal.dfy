/** Decimal integers in text: what `%d` prints through `snprintf` and what `%d`
    reads through `sscanf`. */
module Decimal {
  import opened Bytes

  predicate IsDigit(c: byte)
  {
    '0' <= c <= '9'
  }

  /** `isspace` in the C locale: space, tab, newline, vertical tab, form feed, carriage return. */
  predicate IsSpace(c: byte)
  {
    c == ' ' || 9 <= c as int <= 13
  }

  predicate AllDigits(s: Bytes)
  {
    forall i :: 0 <= i < |s| ==> IsDigit(s[i])
  }

  function DigitValue(c: byte): nat
    requires IsDigit(c)
  {
    c as int - '0' as int
  }

  function DigitChar(d: nat): (c: byte)
    requires d < 10
    ensures IsDigit(c) && DigitValue(c) == d
  {
    ('0' as int + d) as char
  }

  /** The digits `%d` prints for a non-negative value: no sign, no leading zero. */
  function NatToString(n: nat): (r: Bytes)
    ensures |r| > 0 && AllDigits(r)
    ensures r[0] == '0' ==> n == 0
    decreases n
  {
    if n < 10 then [DigitChar(n)] else NatToString(n / 10) + [DigitChar(n % 10)]
  }

  /** What `%d` prints for any value: a minus sign for negatives, then the digits. */
  function IntToString(n: int): (r: Bytes)
    ensures |r| > 0 && NUL !in r && !IsSpace(r[0])
    ensures n < 0 <==> r[0] == '-'
  {
    if n < 0 then ['-'] + NatToString(-n) else NatToString(n)
  }

  /** The range of a C `int` (32 bits, two's complement). */
  predicate IsInt32(n: int)
  {
    -0x8000_0000 <= n < 0x8000_0000
  }

  function Pow10(k: nat): (p: nat)
    ensures p >= 1
  {
    if k == 0 then 1 else 10 * Pow10(k - 1)
  }

  /** A value below 10^k takes at most k digits. */
  lemma {:induction false} NatToStringLength(n: nat, k: nat)
    requires 0 < k && n < Pow10(k)
    ensures |NatToString(n)| <= k
  {
    if n >= 10 {
      assert k >= 2;
      assert n / 10 < Pow10(k - 1);
      NatToStringLength(n / 10, k - 1);
    }
  }

  /** What `%d` prints for a C `int` takes at most 11 bytes, sign included. */
  lemma IntToStringInt32(n: int)
    requires IsInt32(n)
    ensures |IntToString(n)| <= 11
  {
    assert Pow10(10) == 10_000_000_000;
    if n < 0 {
      NatToStringLength(-n, 10);
    } else {
      NatToStringLength(n, 10);
    }
  }

  /** The number a run of decimal digits denotes, most significant digit first. */
  function DigitsValue(s: Bytes): nat
    requires AllDigits(s)
  {
    if s == [] then 0 else 10 * DigitsValue(s[..|s| - 1]) + DigitValue(s[|s| - 1])
  }

  lemma {:induction false} NatToStringValue(n: nat)
    ensures DigitsValue(NatToString(n)) == n
  {
    if n >= 10 {
      var s := NatToString(n);
      assert s[..|s| - 1] == NatToString(n / 10);
      NatToStringValue(n / 10);
    }
  }

  /** The length of the run of digits at the start of `s`. */
  function DigitRun(s: Bytes): (k: nat)
    ensures k <= |s| && AllDigits(s[..k])
    ensures k < |s| ==> !IsDigit(s[k])
  {
    if s != [] && IsDigit(s[0]) then
      var k := 1 + DigitRun(s[1..]);
      assert s[..k] == [s[0]] + s[1..][..k - 1];
      k
    else 0
  }

  /** The length of the run of white space at the start of `s`. */
  function SpaceRun(s: Bytes): (k: nat)
    ensures k <= |s|
    ensures forall i :: 0 <= i < k ==> IsSpace(s[i])
    ensures k < |s| ==> !IsSpace(s[k])
  {
    if s != [] && IsSpace(s[0]) then 1 + SpaceRun(s[1..]) else 0
  }

  lemma {:induction false} DigitRunOfDigits(ds: Bytes, rest: Bytes)
    requires AllDigits(ds)
    requires rest == [] || !IsDigit(rest[0])
    ensures DigitRun(ds + rest) == |ds|
  {
    if ds != [] {
      assert (ds + rest)[1..] == ds[1..] + rest;
      DigitRunOfDigits(ds[1..], rest);
    } else {
      assert ds + rest == rest;
    }
  }

  /** A successful `%d` conversion: the value read and how many bytes it consumed. */
  datatype Scanned = Scanned(n: int, used: nat)

  /** One `%d` conversion of `sscanf` at the start of `s`: white space is skipped,
      an optional sign is taken, then the longest run of digits, which must not be
      empty. None is a matching failure: the target variable keeps its value. */
  function ScanDecimal(s: Bytes): (r: Option<Scanned>)
    ensures r.Some? ==> 0 < r.value.used <= |s|
    ensures r.Some? ==> IsDigit(s[r.value.used - 1])
    ensures r.Some? && r.value.used < |s| ==> !IsDigit(s[r.value.used])
  {
    var w := SpaceRun(s);
    match ScanSigned(s[w..])
    case None => None
    case Some(field) => Some(Scanned(field.n, w + field.used))
  }

  /** An optional sign, then digits. */
  function ScanSigned(t: Bytes): (r: Option<Scanned>)
    ensures r.Some? ==> 0 < r.value.used <= |t|
    ensures r.Some? ==> IsDigit(t[r.value.used - 1])
    ensures r.Some? && r.value.used < |t| ==> !IsDigit(t[r.value.used])
  {
    if |t| > 0 && (t[0] == '-' || t[0] == '+') then
      match ScanDigits(t[1..])
      case None => None
      case Some(field) => Some(Scanned(if t[0] == '-' then -field.n else field.n, 1 + field.used))
    else ScanDigits(t)
  }

  /** The longest run of digits, which must not be empty. */
  function ScanDigits(d: Bytes): (r: Option<Scanned>)
    ensures r.Some? ==> 0 < r.value.used <= |d| && r.value.n >= 0
    ensures r.Some? ==> IsDigit(d[r.value.used - 1])
    ensures r.Some? && r.value.used < |d| ==> !IsDigit(d[r.value.used])
  {
    var k := DigitRun(d);
    if k == 0 then None
    else
      assert d[k - 1] == d[..k][k - 1];
      Some(Scanned(DigitsValue(d[..k]), k))
  }

  /** Reading back what `%d` printed gives the value, and stops right after the
      printed digits, provided no further digit follows them. */
  lemma ScanIntToString(x: int, rest: Bytes)
    requires rest == [] || !IsDigit(rest[0])
    ensures ScanDecimal(IntToString(x) + rest) == Some(Scanned(x, |IntToString(x)|))
  {
    if x < 0 {
      ScanNegative(-x, rest);
    } else {
      ScanNonNegative(x, rest);
    }
  }

  lemma ScanNonNegative(n: nat, rest: Bytes)
    requires rest == [] || !IsDigit(rest[0])
    ensures ScanDecimal(NatToString(n) + rest) == Some(Scanned(n, |NatToString(n)|))
  {
    var ds := NatToString(n);
    var s := ds + rest;
    assert s[0] == ds[0];
    ScanDecimalNoSpace(s);
    NatToStringValue(n);
    ScanUnsigned(ds, rest);
  }

  lemma ScanNegative(n: nat, rest: Bytes)
    requires rest == [] || !IsDigit(rest[0])
    ensures ScanDecimal(['-'] + NatToString(n) + rest) == Some(Scanned(-(n as int), 1 + |NatToString(n)|))
  {
    var ds := NatToString(n);
    var s := ['-'] + ds + rest;
    assert s == ['-'] + (ds + rest);
    ScanDecimalNoSpace(s);
    NatToStringValue(n);
    ScanUnsigned(ds, rest);
    ScanSignedSign('-', ds + rest, Scanned(n, |ds|));
  }

  /** Without leading white space, `%d` starts at the first byte. */
  lemma ScanDecimalNoSpace(s: Bytes)
    requires s != [] && !IsSpace(s[0])
    ensures ScanDecimal(s) == ScanSigned(s)
  {
    assert SpaceRun(s) == 0;
    assert s[0..] == s;
  }

  /** `%d` on a run of digits reads the whole run. */
  lemma ScanUnsigned(ds: Bytes, rest: Bytes)
    requires ds != [] && AllDigits(ds)
    requires rest == [] || !IsDigit(rest[0])
    ensures ScanDigits(ds + rest) == Some(Scanned(DigitsValue(ds), |ds|))
  {
    DigitRunOfDigits(ds, rest);
    assert (ds + rest)[..|ds|] == ds;
  }

  /** The value of a `%d` field with optional sign `sign` and digits `ds`: the
      digits' value, negated after a minus. */
  function SignedValue(sign: Bytes, ds: Bytes): int
    requires AllDigits(ds)
  {
    if sign != [] && sign[0] == '-' then -(DigitsValue(ds) as int) else DigitsValue(ds)
  }

  /** Any `%d` field: white space, an optional sign, a non-empty run of digits, and
      no further digit after it. The conversion reads the digits' value, negated
      after a minus, and consumes exactly the field. */
  lemma ScanField(ws: Bytes, sign: Bytes, ds: Bytes, rest: Bytes)
    requires forall i :: 0 <= i < |ws| ==> IsSpace(ws[i])
    requires |sign| <= 1 && (sign != [] ==> sign[0] == '+' || sign[0] == '-')
    requires ds != [] && AllDigits(ds)
    requires rest == [] || !IsDigit(rest[0])
    ensures ScanDecimal(ws + (sign + ds + rest)) ==
      Some(Scanned(SignedValue(sign, ds), |ws| + (|sign| + |ds|)))
  {
    var t := sign + ds + rest;
    ScanSignedField(sign, ds, rest, t);
    ScanAfterSpace(ws, t, SignedValue(sign, ds), |sign| + |ds|);
  }

  /** `%d` skips the white space before a field. */
  lemma ScanAfterSpace(ws: Bytes, t: Bytes, n: int, used: nat)
    requires forall i :: 0 <= i < |ws| ==> IsSpace(ws[i])
    requires t != [] && !IsSpace(t[0])
    requires ScanSigned(t) == Some(Scanned(n, used))
    ensures ScanDecimal(ws + t) == Some(Scanned(n, |ws| + used))
  {
    SpaceRunOf(ws, t);
    assert (ws + t)[|ws|..] == t;
  }

  /** The sign and digits of a `%d` field, with no white space before them. */
  lemma ScanSignedField(sign: Bytes, ds: Bytes, rest: Bytes, t: Bytes)
    requires |sign| <= 1 && (sign != [] ==> sign[0] == '+' || sign[0] == '-')
    requires ds != [] && AllDigits(ds)
    requires rest == [] || !IsDigit(rest[0])
    requires t == sign + ds + rest
    ensures t != [] && !IsSpace(t[0])
    ensures ScanSigned(t) ==
      Some(Scanned(SignedValue(sign, ds), |sign| + |ds|))
  {
    var d := ds + rest;
    ScanUnsigned(ds, rest);
    AppendAssoc(sign, ds, rest);
    if sign == [] {
      assert t == d && t[0] == ds[0];
      ScanSignedDigits(d);
    } else {
      var c := sign[0];
      assert sign == [c] && t[0] == c;
      ScanSignedSign(c, d, Scanned(DigitsValue(ds), |ds|));
    }
  }

  /** Without a sign, `%d` reads the digits at the start. */
  lemma ScanSignedDigits(d: Bytes)
    requires d != [] && IsDigit(d[0])
    ensures ScanSigned(d) == ScanDigits(d)
  {
  }

  /** A sign is taken, and a minus negates the digits that follow it. */
  lemma ScanSignedSign(sign: char, d: Bytes, field: Scanned)
    requires sign == '+' || sign == '-'
    requires ScanDigits(d) == Some(field)
    ensures ScanSigned([sign] + d) == Some(Scanned(if sign == '-' then -field.n else field.n, 1 + field.used))
  {
    assert ([sign] + d)[1..] == d;
  }

  /** The white space run of `ws + t` is `ws` when `t` does not start with white
      space. */
  lemma {:induction false} SpaceRunOf(ws: Bytes, t: Bytes)
    requires forall i :: 0 <= i < |ws| ==> IsSpace(ws[i])
    requires t == [] || !IsSpace(t[0])
    ensures SpaceRun(ws + t) == |ws|
  {
    if ws == [] {
      assert ws + t == t;
    } else {
      assert (ws + t)[1..] == ws[1..] + t;
      SpaceRunOf(ws[1..], t);
    }
  }

  /** A `%d` conversion fails exactly when no digit follows the leading white space
      and the optional sign. */
  lemma ScanDecimalFails(s: Bytes)
    ensures ScanDecimal(s).None? <==>
      var t := s[SpaceRun(s)..];
      var d := if t != [] && (t[0] == '+' || t[0] == '-') then t[1..] else t;
      d == [] || !IsDigit(d[0])
  {
  }
}
