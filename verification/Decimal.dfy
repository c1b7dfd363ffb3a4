/** Decimal numerals, as `%d` and `%zu` print them and the reader reads them. */
module Decimal {
  import opened Bytes
  import opened Resp

  // ----- What a numeral is worth -----

  predicate AllDigits(s: bytes) {
    forall i :: 0 <= i < |s| ==> 48 <= s[i] <= 57
  }

  /** The value of a numeral; the empty one is 0. */
  function Worth(s: bytes): nat
    requires AllDigits(s)
  {
    if s == [] then 0 else Worth(s[..|s| - 1]) * 10 + (s[|s| - 1] - 48)
  }

  /** The numeral that is printed for a number: digits, and no zero in front of others. */
  predicate Canonical(s: bytes) {
    AllDigits(s) && s != [] && (s[0] == 48 ==> |s| == 1)
  }

  lemma WorthNext(s: bytes, i: nat)
    requires i < |s| && AllDigits(s[..i]) && IsDigit(s[i])
    ensures AllDigits(s[..i + 1]) && Worth(s[..i + 1]) == Worth(s[..i]) * 10 + (s[i] - ZERO)
  {
    assert s[..i + 1][..i] == s[..i];
  }

  // ----- Printing -----

  function Dec(n: nat): (s: bytes)
    ensures |s| >= 1
  {
    if n < 10 then [ZERO + n] else Dec(n / 10) + [ZERO + n % 10]
  }

  /** `%d` */
  function PrintInt(n: int): (s: bytes)
    ensures |s| >= 1
  {
    if n < 0 then [MINUS] + Dec(-n) else Dec(n)
  }

  lemma {:induction false} DecDigits(n: nat)
    ensures forall i :: 0 <= i < |Dec(n)| ==> IsDigit(Dec(n)[i])
  {
    if n >= 10 { DecDigits(n / 10); }
  }

  /** A number is printed as the canonical numeral of its value. */
  lemma {:induction false} DecIs(n: nat)
    ensures Canonical(Dec(n)) && Worth(Dec(n)) == n && (Dec(n)[0] == 48 ==> n == 0)
  {
    var s := Dec(n);
    if n >= 10 {
      DecIs(n / 10);
      assert s[..|s| - 1] == Dec(n / 10);
    } else {
      assert s[..0] == [];
    }
  }

  /** And there is no other. */
  lemma {:induction false} DecOnly(s: bytes)
    requires Canonical(s)
    ensures Dec(Worth(s)) == s
  {
    hide Dec;
    var init, last := s[..|s| - 1], s[|s| - 1];
    assert s == init + [last];
    DecStep(Worth(init), last - 48);
    if init != [] {
      assert init[0] == s[0];
      DecOnly(init);
      CanonicalPositive(init);
    }
  }

  lemma DecStep(v: nat, d: nat)
    requires d < 10
    ensures Dec(v * 10 + d) == if v == 0 then [48 + d] else Dec(v) + [48 + d]
  {
    assert (v * 10 + d) / 10 == v && (v * 10 + d) % 10 == d;
  }

  lemma {:induction false} CanonicalPositive(s: bytes)
    requires AllDigits(s) && s != [] && s[0] != 48
    ensures Worth(s) > 0
  {
    if |s| > 1 {
      CanonicalPositive(s[..|s| - 1]);
    } else {
      assert s[..0] == [];
    }
  }

  // ----- Reading -----

  lemma WrapStep(v: int, d: int)
    ensures Wrap64(Wrap64(v) * 10 + d) == Wrap64(v * 10 + d)
  {
    var q := (v + 0x8000_0000_0000_0000) / 0x1_0000_0000_0000_0000;
    assert Wrap64(v) == v - q * 0x1_0000_0000_0000_0000;
    assert Wrap64(v) * 10 + d == v * 10 + d - (10 * q) * 0x1_0000_0000_0000_0000;
  }

  lemma WrapNegated(v: int)
    ensures Wrap64(-Wrap64(v)) == Wrap64(-v)
  {
    var q := (v + 0x8000_0000_0000_0000) / 0x1_0000_0000_0000_0000;
    assert Wrap64(v) == v - q * 0x1_0000_0000_0000_0000;
    assert -Wrap64(v) == -v + q * 0x1_0000_0000_0000_0000;
  }

  /** Reading digits leaves their value accumulated, as far as 64 bits hold it. */
  lemma {:induction false} AccumulateDigits(s: bytes, rest: bytes)
    requires AllDigits(s)
    ensures Accumulate(s + rest, 0) == Accumulate(rest, Wrap64(Worth(s)))
  {
    hide Wrap64;
    if s == [] {
      assert s + rest == rest;
      assert Wrap64(0) == 0 by { WrapZero(); }
    } else {
      var init, last := s[..|s| - 1], [s[|s| - 1]];
      assert s + rest == init + (last + rest) && (last + rest)[1..] == rest;
      AccumulateDigits(init, last + rest);
      WrapStep(Worth(init), last[0] - 48);
    }
  }

  lemma WrapZero()
    ensures Wrap64(0) == 0
  {
  }

  /** A line of digits with or without a sign in front reads as its value in 64 bits. */
  lemma ReadDigits(s: bytes)
    requires AllDigits(s)
    ensures ReadNumber(s) == ReadNumber([43] + s) == Wrap64(Worth(s))
    ensures ReadNumber([45] + s) == Wrap64(0 - Worth(s))
  {
    hide Wrap64, Worth, Accumulate;
    AccumulateAll(s);
    assert ([43] + s)[1..] == s && ([45] + s)[1..] == s;
    assert s != [] ==> s[0] != MINUS && s[0] != PLUS;
    WrapNegated(Worth(s));
  }

  lemma AccumulateAll(s: bytes)
    requires AllDigits(s)
    ensures Accumulate(s, 0) == Some(Wrap64(Worth(s)))
  {
    hide Wrap64, Worth;
    AccumulateDigits(s, []);
    assert s + [] == s;
  }

  /** Anything else before the end of the line or a CR makes it -1. */
  lemma ReadGarbage(sign: bytes, s: bytes, b: byte, rest: bytes)
    requires AllDigits(s) && !(48 <= b <= 57) && b != 13
    requires sign == [43] || sign == [45] || (sign == [] && (s != [] || (b != 43 && b != 45)))
    ensures ReadNumber(sign + s + [b] + rest) == -1
  {
    hide Wrap64;
    var line := sign + s + [b] + rest;
    AccumulateDigits(s, [b] + rest);
    assert line == sign + (s + ([b] + rest));
    assert sign != [] ==> line[0] == sign[0] && line[1..] == s + ([b] + rest);
    assert sign == [] ==> line == s + ([b] + rest);
    assert Accumulate([b] + rest, Wrap64(Worth(s))) == None;
  }

  /** The reader undoes the printer. */
  lemma ReadPrinted(n: int)
    ensures ReadNumber(PrintInt(n)) == Wrap64(n)
  {
    hide Wrap64, ReadNumber;
    if n < 0 {
      DecIs(-n);
      ReadDigits(Dec(-n));
    } else {
      DecIs(n);
      ReadDigits(Dec(n));
    }
  }

  lemma ReadNumberDec(n: nat)
    requires n < 0x8000_0000_0000_0000
    ensures ReadNumber(Dec(n)) == n
  {
    hide ReadNumber, Dec;
    ReadPrinted(n);
  }

  /** A numeral and its line end form the first line of whatever starts with them. */
  lemma FirstCrlfInt(n: int, rest: bytes)
    ensures FirstCrlf(PrintInt(n) + CRLF + rest) == Some(|PrintInt(n)|)
  {
    DecDigits(if n < 0 then -n else n);
    var s := PrintInt(n) + CRLF + rest;
    assert forall j :: 0 <= j < |PrintInt(n)| ==> s[j] == PrintInt(n)[j];
    FirstCrlfUnique(s, |PrintInt(n)|);
  }

  lemma FirstCrlfDec(n: nat, rest: bytes)
    ensures FirstCrlf(Dec(n) + CRLF + rest) == Some(|Dec(n)|)
  {
    FirstCrlfInt(n, rest);
  }
}
