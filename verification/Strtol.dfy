/** duda_utils_strtol: a decimal number of a given length. */
module Strtol {
  import opened Bytes
  import opened Decimal

  const LONG_MAX: int := 0x7FFF_FFFF_FFFF_FFFF
  const LONG_MIN: int := -0x8000_0000_0000_0000
  const TWO64: int := 0x1_0000_0000_0000_0000

  function Sign(s: bytes): nat {
    if s != [] && (s[0] == MINUS || s[0] == PLUS) then 1 else 0
  }

  /** The number after one optional sign. */
  function Signed(s: bytes): int
    requires AllDigits(s[Sign(s)..])
  {
    if s != [] && s[0] == MINUS then 0 - Worth(s[1..]) else Worth(s[Sign(s)..])
  }

  /** A printed number, also with a plus in front, is read as itself. */
  lemma SignedPrinted(n: int)
    ensures var s := PrintInt(n); AllDigits(s[Sign(s)..]) && Signed(s) == n
    ensures n >= 0 ==> var s := [43] + PrintInt(n); AllDigits(s[Sign(s)..]) && Signed(s) == n
    ensures LONG_MIN == -0x8000_0000_0000_0000 && LONG_MAX == 0x7FFF_FFFF_FFFF_FFFF
  {
    hide Worth;
    var m := if n < 0 then -n else n;
    DecIs(m);
    assert ([45] + Dec(m))[1..] == Dec(m) && ([43] + Dec(m))[1..] == Dec(m) && Dec(m)[0..] == Dec(m);
  }

  /** Read as `long`. */
  function AsLong(acc: nat): int {
    if acc > LONG_MAX then acc - TWO64 else acc
  }

  /** Success is exactly a numeral whose value fits. Negative numbers have one value more,
      and the accumulator does not wrap before its limit is tested. */
  method StrToLong(src: bytes) returns (ok: bool, result: int)
    ensures ok <==> AllDigits(src[Sign(src)..]) && LONG_MIN <= Signed(src) <= LONG_MAX
    ensures result == if ok then Signed(src) else 0
  {
    var neg, k := false, 0;
    if |src| > 0 && src[0] == MINUS {
      neg, k := true, 1;
    } else if |src| > 0 && src[0] == PLUS {
      k := 1;
    }
    var any, acc := Accumulate(src[k..], if neg then -LONG_MIN else LONG_MAX);
    if any < 0 {
      return false, 0;
    }
    if neg {
      acc := (TWO64 - acc) % TWO64;
    }
    return true, AsLong(acc);
  }

  method Accumulate(s: bytes, limit: nat) returns (any: int, acc: nat)
    requires LONG_MAX <= limit <= LONG_MAX + 1
    ensures any >= 0 <==> AllDigits(s) && Worth(s) <= limit
    ensures any >= 0 ==> acc == Worth(s)
  {
    var cutlim, cutoff := limit % 10, limit / 10;
    any, acc := 0, 0;
    for i := 0 to |s|
      invariant AllDigits(s[..i])
      invariant any >= 0 <==> Worth(s[..i]) <= limit
      invariant any >= 0 ==> acc == Worth(s[..i])
    {
      if !IsDigit(s[i]) {
        return -1, acc;
      }
      WorthNext(s, i);
      var c := s[i] - ZERO;
      if any < 0 || acc > cutoff || (acc == cutoff && c > cutlim) {
        any := -1;
      } else {
        any := 1;
        assert acc * 10 + c < TWO64;
        acc := (acc * 10 + c) % TWO64;
      }
    }
    assert s[..|s|] == s;
  }
}
