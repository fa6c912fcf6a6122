/** What the digits of a query stand for: `strtol` with base 0, told by the ways to write a number. */
module QueryNumber {
  import opened QueryText

  ghost predicate AllDigits(d: string) {
    forall i :: 0 <= i < |d| ==> IsDigit(d[i])
  }

  function DigitChar(n: nat): char
    requires n < 10
  {
    ('0' as int + n) as char
  }

  /** A number in base 10. */
  function Digits(n: nat): string {
    if n < 10 then [DigitChar(n)] else Digits(n / 10) + [DigitChar(n % 10)]
  }

  /** A number in base 8. */
  function OctalDigits(n: nat): string {
    if n < 8 then [DigitChar(n)] else OctalDigits(n / 8) + [DigitChar(n % 8)]
  }

  ghost predicate AllZeros(z: string) {
    forall i :: 0 <= i < |z| ==> z[i] == '0'
  }

  /** The end, or a digit that no octal number has. */
  ghost predicate EndsOctal(rest: string) {
    rest == "" || rest[0] == '8' || rest[0] == '9'
  }

  /** Zeros, a number in base 8, and perhaps more from a digit 8 or 9 on, which is not read. */
  ghost predicate Octal(d: string, n: nat) {
    exists z: string, rest: string ::
      AllZeros(z) && EndsOctal(rest) && d == z + ((if n == 0 then "" else OctalDigits(n)) + rest)
  }

  /** The digits stand for the number: in base 10, or behind a zero in base 8. No digits stand for zero. */
  ghost predicate Denotes(d: string, n: nat) {
    if d == "" then n == 0 else if d[0] == '0' then Octal(d, n) else d == Digits(n)
  }

  /** A minus sign makes it negative. */
  ghost predicate StandsFor(w: string, v: int) {
    if w != "" && w[0] == '-' then v <= 0 && Denotes(w[1..], -v) else v >= 0 && Denotes(w, v)
  }

  // ----- Base 10 -----

  lemma {:induction false} DigitsValue(n: nat)
    ensures AllDigits(Digits(n)) && Digits(n) != "" && DecimalValue(Digits(n)) == n
    ensures Digits(n)[0] == '0' ==> n == 0
  {
    var d := Digits(n);
    assert d[|d| - 1] == DigitChar(n % 10);
    if n < 10 {
      assert d[..0] == "";
    } else {
      DigitsValue(n / 10);
      assert d[..|d| - 1] == Digits(n / 10);
    }
  }

  lemma MoreDigits(n: nat, c: nat)
    requires n > 0 && c < 10
    ensures Digits(n * 10 + c) == Digits(n) + [DigitChar(c)]
  {
    assert (n * 10 + c) / 10 == n && (n * 10 + c) % 10 == c;
  }

  /** Digits without a leading zero are those of their value. */
  lemma {:induction false} ValueDigits(d: string)
    requires AllDigits(d) && d != "" && d[0] != '0'
    ensures DecimalValue(d) > 0 && Digits(DecimalValue(d)) == d
  {
    var m := |d| - 1;
    var c := DigitValue(d[m]);
    assert d == d[..m] + [d[m]] && DigitChar(c) == d[m];
    if m == 0 {
      assert DecimalValue(d[..0]) == 0;
    } else {
      ValueDigits(d[..m]);
      MoreDigits(DecimalValue(d[..m]), c);
    }
  }

  // ----- Base 8 -----

  predicate IsOctal(c: char) {
    '0' <= c <= '7'
  }

  ghost predicate AllOctal(o: string) {
    forall i :: 0 <= i < |o| ==> IsOctal(o[i])
  }

  lemma {:induction false} OctalPrefix(o: string, rest: string, acc: int)
    requires AllOctal(o)
    ensures OctalValue(o + rest, acc) == OctalValue(rest, OctalValue(o, acc))
    decreases |o|
  {
    if o == "" {
      assert o + rest == rest;
    } else {
      assert (o + rest)[0] == o[0] && (o + rest)[1..] == o[1..] + rest;
      OctalPrefix(o[1..], rest, acc * 8 + DigitValue(o[0]));
    }
  }

  lemma OctalAppend(o: string, c: char)
    requires AllOctal(o) && IsOctal(c)
    ensures OctalValue(o + [c], 0) == OctalValue(o, 0) * 8 + DigitValue(c)
  {
    OctalPrefix(o, [c], 0);
    assert [c][1..] == "";
  }

  lemma {:induction false} OctalDigitsValue(n: nat)
    ensures AllOctal(OctalDigits(n)) && OctalDigits(n) != "" && OctalValue(OctalDigits(n), 0) == n
  {
    if n < 8 {
      assert [DigitChar(n)] == "" + [DigitChar(n)];
      OctalAppend("", DigitChar(n));
    } else {
      OctalDigitsValue(n / 8);
      OctalAppend(OctalDigits(n / 8), DigitChar(n % 8));
    }
  }

  lemma MoreOctalDigits(n: nat, c: nat)
    requires n > 0 && c < 8
    ensures OctalDigits(n * 8 + c) == OctalDigits(n) + [DigitChar(c)]
  {
    assert (n * 8 + c) / 8 == n && (n * 8 + c) % 8 == c;
  }

  lemma {:induction false} ValueOctalDigits(o: string)
    requires AllOctal(o) && o != "" && o[0] != '0'
    ensures OctalValue(o, 0) > 0 && OctalDigits(OctalValue(o, 0)) == o
  {
    var m := |o| - 1;
    var p, c := o[..m], o[m];
    assert o == p + [c] && DigitChar(DigitValue(c)) == c;
    OctalAppend(p, c);
    if m > 0 {
      ValueOctalDigits(p);
      MoreOctalDigits(OctalValue(p, 0), DigitValue(c));
    }
  }

  lemma {:induction false} SkipZeros(z: string, s: string)
    requires AllZeros(z)
    ensures OctalValue(z + s, 0) == OctalValue(s, 0)
    decreases |z|
  {
    if z == "" {
      assert z + s == s;
    } else {
      assert (z + s)[0] == '0' && (z + s)[1..] == z[1..] + s;
      SkipZeros(z[1..], s);
    }
  }

  lemma OctalParts(z: string, o: string, rest: string)
    requires AllZeros(z) && AllOctal(o) && EndsOctal(rest)
    ensures OctalValue(z + (o + rest), 0) == OctalValue(o, 0)
  {
    SkipZeros(z, o + rest);
    OctalPrefix(o, rest, 0);
  }

  lemma OctalIsRead(d: string, n: nat)
    requires Octal(d, n)
    ensures OctalValue(d, 0) == n
  {
    var z: string, rest: string :| AllZeros(z) && EndsOctal(rest) && d == z + ((if n == 0 then "" else OctalDigits(n)) + rest);
    OctalDigitsValue(n);
    OctalParts(z, if n == 0 then "" else OctalDigits(n), rest);
  }

  lemma {:induction false} CutZeros(d: string) returns (z: string, s: string)
    ensures d == z + s && AllZeros(z) && (s == "" || s[0] != '0')
  {
    if d == "" || d[0] != '0' {
      z, s := "", d;
    } else {
      z, s := CutZeros(d[1..]);
      z := "0" + z;
      assert d == "0" + d[1..];
    }
  }

  lemma {:induction false} CutOctal(d: string) returns (o: string, rest: string)
    requires AllDigits(d)
    ensures d == o + rest && AllOctal(o) && EndsOctal(rest) && (o == "" || o[0] == d[0])
  {
    if d == "" || !IsOctal(d[0]) {
      o, rest := "", d;
    } else {
      o, rest := CutOctal(d[1..]);
      o := [d[0]] + o;
      assert d == [d[0]] + d[1..];
    }
  }

  lemma ReadIsOctal(d: string)
    requires AllDigits(d)
    ensures OctalValue(d, 0) >= 0 && Octal(d, OctalValue(d, 0))
  {
    var z, s := CutZeros(d);
    assert forall i :: 0 <= i < |s| ==> s[i] == d[|z| + i];
    var o, rest := CutOctal(s);
    OctalParts(z, o, rest);
    if o != "" { ValueOctalDigits(o); }
  }

  // ----- Both -----

  /** `strtol` without a sign. */
  lemma DenotesIff(d: string, n: nat)
    requires AllDigits(d)
    ensures Denotes(d, n) <==> n == if d != "" && d[0] == '0' then OctalValue(d, 0) else DecimalValue(d)
  {
    if d != "" && d[0] == '0' {
      ReadIsOctal(d);
      if Octal(d, n) { OctalIsRead(d, n); }
    } else if d != "" {
      DigitsValue(n);
      ValueDigits(d);
    }
  }

  /** `strtol` reads a numeral as a value if and only if the numeral stands for it. */
  lemma StandsForIff(w: string, v: int)
    requires w != "" && (IsDigit(w[0]) || w[0] == '-') && AllDigits(w[1..])
    ensures StrToL(w) == v <==> StandsFor(w, v)
  {
    var d := if w[0] == '-' then w[1..] else w;
    assert AllDigits(d) by { assert w == [w[0]] + w[1..]; }
    DenotesIff(d, if v < 0 then -v else v);
    if v != 0 { NotNegative(d); }
  }

  lemma {:induction false} DecimalNotNegative(d: string)
    requires AllDigits(d)
    ensures DecimalValue(d) >= 0
  {
    if d != "" { DecimalNotNegative(d[..|d| - 1]); }
  }

  lemma NotNegative(d: string)
    requires AllDigits(d)
    ensures DecimalValue(d) >= 0 && OctalValue(d, 0) >= 0
  {
    DecimalNotNegative(d);
    ReadIsOctal(d);
  }

  /** Behind a zero a number in base 8 is read back, with either sign, and nothing from a digit 8 or 9 on. */
  lemma OctalReads(n: nat, rest: string)
    requires EndsOctal(rest)
    ensures StrToL("0" + OctalDigits(n) + rest) == n
    ensures StrToL("-0" + OctalDigits(n) + rest) == 0 - n
  {
    OctalDigitsValue(n);
    OctalParts("0", OctalDigits(n), rest);
    var d := "0" + (OctalDigits(n) + rest);
    assert "0" + OctalDigits(n) + rest == d;
    var w := "-0" + OctalDigits(n) + rest;
    assert w[0] == '-' && w[1..] == d;
  }
}
