/** The message of the examples, "abc", and its one padded block. */
module HashExample {
  import opened HashCommon

  const ABC: Bytes := [0x61, 0x62, 0x63]

  /** The padded message. */
  function Block(): (b: Bytes)
    ensures |b| == 64
  {
    [0x61, 0x62, 0x63, 0x80] + seq(59, _ => 0) + [0x18]
  }

  lemma Padded()
    ensures Pad(ABC) == Block()
  {
    hide LowByte;
    var n := 24;
    BigEndianStep(n, 0, 8);
    ZeroBytes(7);
    assert LowByte(n) == 0x18 by { Low24(); }
    assert Zeros(3) == 52;
    assert ABC + [0x80] + seq(52, _ => 0) + (seq(7, _ => 0) + [0x18]) == Block();
  }

  lemma Low24()
    ensures LowByte(24) == 0x18 && LowByte(0) == 0
  {
  }

  lemma {:induction false} ZeroBytes(k: nat)
    ensures BigEndian(0, k) == seq(k, _ => 0)
  {
    if k > 0 {
      ZeroBytes(k - 1);
      Low24();
    }
  }

  lemma BlockWords(b: Bytes)
    requires b == Block()
    ensures WordOf(b[0], b[1], b[2], b[3]) == 0x61626380 && WordOf(b[60], b[61], b[62], b[63]) == 0x18
    ensures forall t :: 0 < t < 15 ==> WordOf(b[4 * t], b[4 * t + 1], b[4 * t + 2], b[4 * t + 3]) == 0
  {
    assert WordOf(0x61, 0x62, 0x63, 0x80) == 0x61626380 && WordOf(0, 0, 0, 0x18) == 0x18 && WordOf(0, 0, 0, 0) == 0;
    forall t | 0 < t < 15 ensures WordOf(b[4 * t], b[4 * t + 1], b[4 * t + 2], b[4 * t + 3]) == 0 {
      assert b[4 * t] == b[4 * t + 1] == b[4 * t + 2] == b[4 * t + 3] == 0;
    }
  }
}
