/** Length-prefixed strings with spare room: the value a buffer holds. */
module Sds {
  import opened Bytes

  /** `text` is followed in memory by a NUL and by `avail` spare bytes. */
  datatype Sds = Sds(text: bytes, avail: nat)

  const EMPTY: Sds := Sds([], 0)

  /** Room for `add` more bytes: twice what is then needed, when there is not enough. */
  function MakeRoomFor(s: Sds, add: nat): Sds {
    if s.avail >= add then s else s.(avail := (|s.text| + add) * 2 - |s.text|)
  }

  function CatLen(s: Sds, t: bytes): Sds {
    Sds(s.text + t, MakeRoomFor(s, |t|).avail - |t|)
  }

  /** The bytes from `start` to `end`, both inclusive; negative positions count from
      the end. */
  function Range(s: Sds, start: int, end: int): (r: Sds)
    ensures |r.text| + r.avail == |s.text| + s.avail
    ensures end == -1 && 0 <= start <= |s.text| ==> r.text == s.text[start..]
  {
    var len := |s.text|;
    if len == 0 then s
    else
      var from := if start >= 0 then start else if len + start < 0 then 0 else len + start;
      var to := if end >= 0 then end else if len + end < 0 then 0 else len + end;
      var last := if to >= len then len - 1 else to;
      if from > to || from >= len || from > last then Sds([], s.avail + len)
      else Sds(s.text[from..last + 1], s.avail + (len - (last + 1 - from)))
  }

  /** A block that grows is as large as twice the text it then holds. */
  lemma RoomIs(s: Sds, add: nat)
    ensures MakeRoomFor(s, add).text == s.text
    ensures |s.text| + MakeRoomFor(s, add).avail == if s.avail >= add then |s.text| + s.avail else 2 * (|s.text| + add)
  {
  }

  lemma CatIs(s: Sds, t: bytes)
    ensures CatLen(s, t).text == s.text + t
    ensures |CatLen(s, t).text| + CatLen(s, t).avail == if s.avail >= |t| then |s.text| + s.avail else 2 * (|s.text| + |t|)
  {
  }

  /** Positions inside the text select it, end included; positions beyond are cut off. */
  lemma RangeIs(s: Sds, start: nat, end: nat)
    ensures start <= end < |s.text| ==> Range(s, start, end).text == s.text[start..end + 1]
    ensures start < |s.text| <= end ==> Range(s, start, end).text == s.text[start..]
    ensures start > end || start >= |s.text| ==> Range(s, start, end).text == []
  {
  }

  /** A negative position counts from behind, and stops at the front. */
  lemma RangeNegative(s: Sds, start: int, end: int)
    requires s.text != []
    ensures -|s.text| <= start < 0 ==> Range(s, start, end) == Range(s, start + |s.text|, end)
    ensures -|s.text| <= end < 0 ==> Range(s, start, end) == Range(s, start, end + |s.text|)
    ensures start < -|s.text| ==> Range(s, start, end) == Range(s, 0, end)
    ensures end < -|s.text| ==> Range(s, start, end) == Range(s, start, 0)
  {
  }
}
