/** The reply grammar of the Redis protocol as the reader accepts it, written as a
    recursive parser over a complete byte string. */
module Resp {
  import opened Bytes

  /** A reply tree. `BadArray` is the reply built for an element count below -1: an
      array object that announces `count` elements (the count converted to `int`), all
      of whose slots, when that is positive, stay empty. */
  datatype Reply =
    | Nil
    | Integer(value: int)
    | Status(text: bytes)
    | Error(text: bytes)
    | Bulk(text: bytes)
    | Array(elements: seq<Reply>)
    | BadArray(count: int)

  /** Why reading stopped for good. `Undefined` stands for a positive count whose
      conversion to `int` is not positive: the C code then stores through a null
      element vector. */
  datatype ReadError = BadType(type_: byte) | TooDeep | Undefined

  datatype Kind = ErrorKind | StatusKind | IntegerKind | BulkKind | ArrayKind

  function KindOf(b: byte): Option<Kind> {
    if b == MINUS then Some(ErrorKind)
    else if b == PLUS then Some(StatusKind)
    else if b == COLON then Some(IntegerKind)
    else if b == DOLLAR then Some(BulkKind)
    else if b == STAR then Some(ArrayKind)
    else None
  }

  // ----- Lines -----

  predicate CrlfAt(s: bytes, i: int) {
    0 <= i < |s| - 1 && s[i] == CR && s[i + 1] == LF
  }

  /** Position of the first CR LF pair. */
  function FirstCrlf(s: bytes): (r: Option<nat>)
    ensures r.Some? ==> CrlfAt(s, r.value)
    ensures forall j: nat :: CrlfAt(s, j) ==> r.Some? && r.value <= j
  {
    if |s| < 2 then None
    else if CrlfAt(s, 0) then Some(0)
    else
      var r := FirstCrlf(s[1..]);
      assert forall j: nat :: CrlfAt(s, j) ==> j > 0 && CrlfAt(s[1..], j - 1);
      if r.None? then None else Some(r.value + 1)
  }

  lemma FirstCrlfUnique(s: bytes, i: nat)
    requires CrlfAt(s, i)
    requires forall j: nat :: j < i ==> !CrlfAt(s, j)
    ensures FirstCrlf(s) == Some(i)
  {
  }

  /** A line end that is already in the buffer stays the first one when more bytes
      arrive. */
  lemma FirstCrlfAppend(s: bytes, x: bytes)
    requires FirstCrlf(s).Some?
    ensures FirstCrlf(s + x) == FirstCrlf(s)
  {
    var i := FirstCrlf(s).value;
    assert CrlfAt(s + x, i);
    forall j: nat | j < i ensures !CrlfAt(s + x, j) {
      assert CrlfAt(s + x, j) ==> CrlfAt(s, j);
    }
    FirstCrlfUnique(s + x, i);
  }

  // ----- Numbers -----

  /** The digits of a line up to its first CR, accumulated on v; nothing when another
      byte is met first. */
  function Accumulate(line: bytes, v: int): Option<int> {
    if line == [] || line[0] == CR then Some(v)
    else if IsDigit(line[0]) then Accumulate(line[1..], Wrap64(v * 10 + (line[0] - ZERO)))
    else None
  }

  /** The number on a line: -1 for unexpected input. */
  function ReadNumber(line: bytes): int {
    var signed := line != [] && (line[0] == MINUS || line[0] == PLUS);
    var digits := if signed then line[1..] else line;
    match Accumulate(digits, 0)
    case None => -1
    case Some(v) => if signed && line[0] == MINUS then Wrap64(-v) else v
  }

  // ----- Replies -----

  datatype Parsed<+T> = Done(value: T, rest: bytes) | More | Bad(error: ReadError)

  /** What follows the type byte of a reply that is one line. */
  function LineReply(kind: Kind, line: bytes): Reply
    requires kind in {ErrorKind, StatusKind, IntegerKind}
  {
    match kind
    case ErrorKind => Error(line)
    case StatusKind => Status(line)
    case IntegerKind => Integer(ReadNumber(line))
  }

  /** What follows the `$` of a bulk reply. The two bytes after the payload are
      skipped unread. */
  function ParseBulk(s: bytes): (r: Parsed<Reply>)
    ensures r.Done? ==> |r.rest| < |s|
  {
    var eol := FirstCrlf(s);
    if eol.None? then More
    else
      var start := eol.value + 2;
      var len := ReadNumber(s[..eol.value]);
      if len < 0 then Done(Nil, s[start..])
      else if start + len + 2 <= |s| then Done(Bulk(s[start..start + len]), s[start + len + 2..])
      else More
  }

  /** The reply for a count that announces no elements. */
  function EmptyArray(count: int): Reply
    requires count <= 0
  {
    if count == -1 then Nil
    else if count == 0 then Array([])
    else BadArray(Wrap32(count))
  }

  /** One reply at nesting depth `depth` (0 is a top-level reply). */
  function ParseItem(depth: nat, s: bytes): (r: Parsed<Reply>)
    requires depth <= 3
    ensures r.Done? ==> |r.rest| < |s|
    decreases 8 - 2 * depth, 0
  {
    if s == [] then More
    else
      match KindOf(s[0])
      case None => Bad(BadType(s[0]))
      case Some(BulkKind) => ParseBulk(s[1..])
      case Some(ArrayKind) => if depth == 3 then Bad(TooDeep) else ParseArray(depth, s[1..])
      case Some(kind) =>
        var eol := FirstCrlf(s[1..]);
        if eol.None? then More
        else Done(LineReply(kind, s[1..][..eol.value]), s[1..][eol.value + 2..])
  }

  /** What follows the `*` of an array reply. */
  function ParseArray(depth: nat, s: bytes): (r: Parsed<Reply>)
    requires depth < 3
    ensures r.Done? ==> |r.rest| < |s|
    decreases 7 - 2 * depth, 0
  {
    var eol := FirstCrlf(s);
    if eol.None? then More
    else
      var count := ReadNumber(s[..eol.value]);
      var rest := s[eol.value + 2..];
      if count <= 0 then Done(EmptyArray(count), rest)
      else if Wrap32(count) <= 0 then Bad(Undefined)
      else
        match ParseElements(depth + 1, Wrap32(count), rest)
        case Done(vs, rest') => Done(Array(vs), rest')
        case More => More
        case Bad(e) => Bad(e)
  }

  /** `n` replies in a row. */
  function ParseElements(depth: nat, n: nat, s: bytes): (r: Parsed<seq<Reply>>)
    requires depth <= 3
    ensures r.Done? ==> |r.rest| <= |s| && |r.value| == n
    decreases 8 - 2 * depth, n
  {
    if n == 0 then Done([], s)
    else
      match ParseItem(depth, s)
      case More => More
      case Bad(e) => Bad(e)
      case Done(v, rest) =>
        match ParseElements(depth, n - 1, rest)
        case More => More
        case Bad(e) => Bad(e)
        case Done(vs, rest') => Done([v] + vs, rest')
  }

  /** Every complete reply of a byte string, in order, and the error that ends it. */
  datatype Stream = Stream(replies: seq<Reply>, error: Option<ReadError>)

  function ParseStream(s: bytes): Stream
    decreases |s|
  {
    match ParseItem(0, s)
    case More => Stream([], None)
    case Bad(e) => Stream([], Some(e))
    case Done(v, rest) =>
      var tail := ParseStream(rest);
      Stream([v] + tail.replies, tail.error)
  }
}
