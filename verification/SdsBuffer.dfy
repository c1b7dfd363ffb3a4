/** The string buffer in memory: header fields and bytes, changed in place. */
module SdsBuffer {
  import opened Bytes
  import Sds

  class Buffer {
    var buf: array<byte>
    var len: nat
    var free: nat

    /** The text is followed by a zero byte and the spare room. */
    ghost predicate Valid()
      reads this, buf
    {
      buf.Length == len + free + 1 && buf[len] == NUL
    }

    ghost function Value(): Sds.Sds
      requires Valid()
      reads this, buf
    {
      Sds.Sds(buf[..len], free)
    }

    constructor ()
      ensures Valid() && fresh(buf) && Value() == Sds.EMPTY
    {
      buf := new byte[1](_ => NUL);
      len, free := 0, 0;
    }

    /** A larger block holds the same text. */
    method MakeRoomFor(addlen: nat)
      requires Valid()
      modifies this
      ensures Valid() && (buf == old(buf) || fresh(buf)) && len == old(len) && free >= addlen
      ensures Value() == Sds.MakeRoomFor(old(Value()), addlen)
    {
      if free >= addlen {
        return;
      }
      var newlen := (len + addlen) * 2;
      var block := new byte[newlen + 1](i requires i >= 0 reads this, buf => if i < buf.Length then buf[i] else NUL);
      assert block[..len] == buf[..len];
      buf := block;
      free := newlen - len;
    }

    method CatLen(t: bytes)
      requires Valid()
      modifies this, buf
      ensures Valid() && (buf == old(buf) || fresh(buf)) && Value() == Sds.CatLen(old(Value()), t)
    {
      var curlen := len;
      MakeRoomFor(|t|);
      var _ := Store(buf, curlen, t);
      len := curlen + |t|;
      free := free - |t|;
      buf[curlen + |t|] := NUL;
    }

    /** `memmove` to the front. */
    method MoveDown(start: nat, n: nat)
      requires start + n <= buf.Length
      modifies buf
      ensures buf[..n] == old(buf[start..start + n])
    {
      for k := 0 to n
        invariant forall j :: 0 <= j < k ==> buf[j] == old(buf[start + j])
        invariant forall j :: k <= j < buf.Length ==> buf[j] == old(buf[j])
      {
        buf[k] := buf[start + k];
      }
    }

    method Range(start: int, end: int)
      requires Valid()
      modifies this, buf
      ensures Valid() && buf == old(buf) && Value() == Sds.Range(old(Value()), start, end)
    {
      hide Sds.Range;
      RangeOfNothing(Value(), start, end);
      if len == 0 {
        return;
      }
      var from, newlen := Bounds(start, end, len, Value());
      if from != 0 && newlen != 0 {
        MoveDown(from, newlen);
      }
      buf[newlen] := NUL;
      free := free + (len - newlen);
      len := newlen;
    }
  }

  lemma RangeOfNothing(s: Sds.Sds, start: int, end: int)
    ensures s.text == [] ==> Sds.Range(s, start, end) == s
  {
  }

  /** Where the kept bytes start and how many they are. */
  method Bounds(start0: int, end0: int, len: nat, ghost s: Sds.Sds) returns (start: nat, newlen: nat)
    requires len == |s.text| > 0
    ensures newlen == 0 || start + newlen <= len
    ensures Sds.Range(s, start0, end0) ==
            Sds.Sds(if newlen == 0 then [] else s.text[start..start + newlen], s.avail + (len - newlen))
  {
    var from, end := start0, end0;
    if from < 0 {
      from := len + from;
      if from < 0 {
        from := 0;
      }
    }
    if end < 0 {
      end := len + end;
      if end < 0 {
        end := 0;
      }
    }
    newlen := if from > end then 0 else end - from + 1;
    if newlen != 0 {
      if from >= len {
        newlen := 0;
      } else if end >= len {
        newlen := len - 1 - from + 1;
      }
    } else {
      from := 0;
    }
    start := from;
  }
}
