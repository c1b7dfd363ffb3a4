/** Bytes of C strings and buffers, the character constants the code tests for,
    and the optional values its lookups return. */
module Bytes {

  type byte = b: int | 0 <= b < 256

  type bytes = seq<byte>

  const NUL: byte := 0
  const TAB: byte := 9
  const LF: byte := 10
  const CR: byte := 13
  const SPACE: byte := 32
  const QUOTE: byte := 34
  const PERCENT: byte := 37
  const DOLLAR: byte := 36
  const STAR: byte := 42
  const PLUS: byte := 43
  const MINUS: byte := 45
  const ZERO: byte := 48
  const COLON: byte := 58
  const BACKSLASH: byte := 92

  const CRLF: bytes := [CR, LF]

  datatype Option<+T> = None | Some(value: T)

  predicate IsDigit(b: byte) {
    ZERO <= b <= ZERO + 9
  }

  /** A lower-case hexadecimal digit. */
  function HexDigit(d: nat): byte
    requires d < 16
  {
    if d < 10 then ZERO + d else 87 + d
  }

  /** The character a C string begins with; its end reads as a zero byte. */
  function At(s: bytes): byte {
    if s == [] then NUL else s[0]
  }

  /** The same by position. */
  function CharAt(text: bytes, i: nat): byte {
    if i < |text| then text[i] else NUL
  }

  lemma CharAtIs(text: bytes, i: nat)
    requires i <= |text|
    ensures CharAt(text, i) == At(text[i..])
    ensures i < |text| ==> text[i..][1..] == text[i + 1..]
    ensures i + 2 <= |text| ==> text[i..][2..] == text[i + 2..]
  {
  }

  /** The bytes of a text. */
  function Ascii(s: string): bytes
    requires forall i :: 0 <= i < |s| ==> s[i] as int < 256
  {
    seq(|s|, i requires 0 <= i < |s| => s[i] as int)
  }

  /** Two's complement value of x in 64 bits (`long long`). */
  function Wrap64(x: int): int {
    (x + 0x8000_0000_0000_0000) % 0x1_0000_0000_0000_0000 - 0x8000_0000_0000_0000
  }

  /** Two's complement value of x in 32 bits (a conversion to `int`). */
  function Wrap32(x: int): int {
    (x + 0x8000_0000) % 0x1_0000_0000 - 0x8000_0000
  }

  const INT_MAX: int := 0x7FFF_FFFF

  /** The wrapped value is in range, and differs from x by a multiple of the modulus. */
  lemma WrapIs(x: int)
    ensures -0x8000_0000 <= Wrap32(x) < 0x8000_0000 && (x - Wrap32(x)) % 0x1_0000_0000 == 0
    ensures -0x8000_0000_0000_0000 <= Wrap64(x) < 0x8000_0000_0000_0000
    ensures (x - Wrap64(x)) % 0x1_0000_0000_0000_0000 == 0
  {
  }

  lemma Regroup<T>(a: seq<T>, b: seq<T>, c: seq<T>)
    ensures a + (b + c) == a + b + c && a + [] == a
  {
  }

  /** Copy s into the buffer at position `at`. */
  method Store<T>(buf: array<T>, at: nat, s: seq<T>) returns (q: nat)
    requires at + |s| <= buf.Length
    modifies buf
    ensures q == at + |s| && buf[..q] == old(buf[..at]) + s
  {
    for i := 0 to |s|
      invariant buf[..at + i] == old(buf[..at]) + s[..i]
    {
      buf[at + i] := s[i];
    }
    q := at + |s|;
  }

  /** The concatenation of a sequence of byte strings. */
  function Concat(parts: seq<bytes>): bytes {
    if parts == [] then [] else parts[0] + Concat(parts[1..])
  }

  lemma {:induction false} ConcatAppend(parts: seq<bytes>, last: bytes)
    ensures Concat(parts + [last]) == Concat(parts) + last
  {
    if parts == [] {
      assert parts + [last] == [last];
      assert Concat([last]) == last + Concat([]);
    } else {
      assert (parts + [last])[1..] == parts[1..] + [last];
      ConcatAppend(parts[1..], last);
      assert parts[0] + (Concat(parts[1..]) + last) == parts[0] + Concat(parts[1..]) + last;
    }
  }
}
