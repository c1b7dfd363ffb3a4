/** The incremental reader: a buffer with a cursor, a four-slot task stack and a reply
    tree that is linked together while it is being read. */
module RespReader {
  import opened Bytes
  import opened Resp
  import opened RespMachine
  import RespWire
  import Sds

  // ----- Reply objects -----

  datatype ObjectKind = StringObject | ArrayObject | IntegerObject | NilObject | StatusObject | ErrorObject

  /** A reply object. Its own fields are set when it is created; the slots of its
      element vector are filled one by one afterwards. */
  class ReplyObject {
    const kind: ObjectKind
    const integer: int
    const str: bytes
    const elements: int
    const element: array?<ReplyObject?>

    constructor Text(kind: ObjectKind, str: bytes)
      ensures this.kind == kind && this.str == str
    {
      this.kind, this.str := kind, str;
      integer, elements, element := 0, 0, null;
    }

    constructor Number(value: int)
      ensures kind == IntegerObject && integer == value
    {
      kind, integer := IntegerObject, value;
      str, elements, element := [], 0, null;
    }

    constructor Null()
      ensures kind == NilObject
    {
      kind := NilObject;
      integer, str, elements, element := 0, [], 0, null;
    }

    constructor Vector(n: int)
      ensures kind == ArrayObject && elements == n
      ensures if n > 0 then element != null && fresh(element) && element.Length == n &&
                            forall i :: 0 <= i < n ==> element[i] == null
              else element == null
    {
      kind, elements := ArrayObject, n;
      integer, str := 0, [];
      if n > 0 {
        element := new ReplyObject?[n](_ => null);
      } else {
        element := null;
      }
    }
  }

  type Vector = array<ReplyObject?>

  /** Object o, with everything below it, is the complete reply v, and the element
      vectors it uses lie in `region`. */
  ghost predicate Denotes(o: ReplyObject, v: Reply, region: set<Vector>)
    reads region
    decreases v, 1
  {
    match v
    case Nil => o.kind == NilObject
    case Integer(n) => o.kind == IntegerObject && o.integer == n
    case Status(t) => o.kind == StatusObject && o.str == t
    case Error(t) => o.kind == ErrorObject && o.str == t
    case Bulk(t) => o.kind == StringObject && o.str == t
    case BadArray(n) =>
      && o.kind == ArrayObject && o.elements == n
      && (if n <= 0 then o.element == null
          else o.element != null && o.element in region && o.element.Length == n &&
               forall i :: 0 <= i < n ==> o.element[i] == null)
    case Array(vs) =>
      && o.kind == ArrayObject && o.elements == |vs|
      && (if vs == [] then o.element == null
          else o.element != null && o.element in region && o.element.Length == |vs| &&
               Slots(o.element, vs, region))
  }

  /** The first |vs| slots of the vector hold the replies vs. */
  ghost predicate Slots(a: Vector, vs: seq<Reply>, region: set<Vector>)
    reads a, region
    decreases vs, 0
  {
    && |vs| <= a.Length
    && forall i :: 0 <= i < |vs| ==> a[i] != null && Denotes(a[i], vs[i], region)
  }

  lemma {:induction false} DenotesGrow(o: ReplyObject, v: Reply, r1: set<Vector>, r2: set<Vector>)
    requires Denotes(o, v, r1) && r1 <= r2
    ensures Denotes(o, v, r2)
    decreases v, 1
  {
    if v.Array? && v.elements != [] {
      SlotsGrow(o.element, v.elements, r1, r2);
    }
  }

  lemma {:induction false} SlotsGrow(a: Vector, vs: seq<Reply>, r1: set<Vector>, r2: set<Vector>)
    requires Slots(a, vs, r1) && r1 <= r2
    ensures Slots(a, vs, r2)
    decreases vs, 0
  {
    forall i | 0 <= i < |vs| ensures Denotes(a[i], vs[i], r2) {
      DenotesGrow(a[i], vs[i], r1, r2);
    }
  }

  /** A list of reply objects is a list of complete replies. */
  ghost predicate AllDenote(os: seq<ReplyObject>, vs: seq<Reply>, region: set<Vector>)
    reads region
  {
    |os| == |vs| && forall i :: 0 <= i < |os| ==> Denotes(os[i], vs[i], region)
  }

  lemma AllDenoteGrow(os: seq<ReplyObject>, vs: seq<Reply>, r1: set<Vector>, r2: set<Vector>)
    requires AllDenote(os, vs, r1) && r1 <= r2
    ensures AllDenote(os, vs, r2)
  {
    forall i | 0 <= i < |os| ensures Denotes(os[i], vs[i], r2) {
      DenotesGrow(os[i], vs[i], r1, r2);
    }
  }

  // ----- Scanning -----

  /** Search for CR LF in text[from..]. The last byte may be looked at, and when it is
      a CR, so may the NUL after it. */
  method SeekNewline(text: bytes, from: nat) returns (r: Option<nat>)
    requires from <= |text|
    ensures r == FirstCrlf(text[from..])
  {
    var s := text[from..];
    var last := |s| - 1;
    var pos := 0;
    while pos < last
      invariant 0 <= pos
      invariant pos <= last || (pos == last + 1 && last >= 0) || (pos == 0 && last < 0)
      invariant forall j: nat :: j < pos ==> !CrlfAt(s, j)
      decreases last - pos
    {
      while pos < last && s[pos] != CR
        invariant 0 <= pos <= last
        invariant forall j: nat :: j < pos ==> !CrlfAt(s, j)
      {
        pos := pos + 1;
      }
      if s[pos] != CR {
        return None;
      }
      assert from + pos + 1 <= |text|;
      if CharAt(text, from + pos + 1) == LF {
        FirstCrlfUnique(s, pos);
        return Some(pos);
      } else {
        pos := pos + 1;
      }
    }
    return None;
  }

  /** Read the number that starts at text[from], up to the next CR. */
  method ReadLongLong(text: bytes, from: nat, ghost eol: nat) returns (n: int)
    requires from <= eol < |text| && text[eol] == CR
    ensures n == ReadNumber(text[from..eol])
  {
    ghost var line := text[from..eol];
    var s, mult := from, 1;
    if text[s] == MINUS {
      mult := -1;
      s := s + 1;
    } else if text[s] == PLUS {
      s := s + 1;
    }
    assert s <= eol;
    ghost var digits := text[s..eol];
    assert digits == if line != [] && (line[0] == MINUS || line[0] == PLUS) then line[1..] else line;
    var v := 0;
    while text[s] != CR
      invariant from <= s <= eol
      invariant Accumulate(digits, 0) == Accumulate(text[s..eol], v)
      decreases eol - s
    {
      assert s < eol && text[s..eol][0] == text[s] && text[s..eol][1..] == text[s + 1..eol];
      if !IsDigit(text[s]) {
        return -1;
      }
      v := Wrap64(v * 10 + (text[s] - ZERO));
      s := s + 1;
    }
    assert Accumulate(text[s..eol], v) == Some(v);
    n := if mult == -1 then Wrap64(-v) else v;
  }

  // ----- The reader -----

  /** A read task. `parent` is the stack index of the enclosing array task, or -1. */
  datatype Task = Task(kind: Option<Kind>, elements: int, idx: int, obj: ReplyObject?, parent: int)

  class Reader {
    var err: Option<ReadError>
    var buf: Sds.Sds
    var pos: nat
    var len: nat
    const rstack: array<Task>
    var ridx: int
    var reply: ReplyObject?

    /** The arrays being filled, their element vectors, and the vectors of all the
        replies that are complete. */
    ghost var frames: seq<Frame>
    ghost var spine: seq<Vector>
    ghost var region: set<Vector>

    /** Level k of the stack is an array whose slots before the child's index are
        complete replies and whose slots after it are empty. */
    ghost predicate Level(k: nat)
      requires rstack.Length == 4 && |spine| == |frames| <= 3 && k < |frames|
      reads this`frames, this`spine, this`region, rstack, spine[k], region
    {
      var t, f, a := rstack[k], frames[k], spine[k];
      && t.kind == Some(ArrayKind) && t.elements == f.count == a.Length
      && t.obj != null && t.obj.kind == ArrayObject && t.obj.elements == f.count && t.obj.element == a
      && Open(f)
      && Slots(a, f.filled, region)
      && (forall i :: |f.filled| < i < a.Length ==> a[i] == null)
      && rstack[k + 1].idx == |f.filled| && rstack[k + 1].parent == k
    }

    /** What the slot of the item being read holds at level k: the array below, or at
        the top of the stack, `link`. */
    ghost predicate Linked(k: nat, link: ReplyObject?)
      requires rstack.Length == 4 && |spine| == |frames| <= 3 && k < |frames|
      requires Level(k)
      reads this`frames, this`spine, this`region, rstack, spine[k], region
    {
      spine[k][|frames[k].filled|] == if k + 1 < |frames| then rstack[k + 1].obj else link
    }

    /** The vectors being filled belong to no complete reply. */
    ghost predicate Apart()
      reads this`spine, this`region
    {
      forall i :: 0 <= i < |spine| ==> spine[i] !in region
    }

    ghost predicate Stack(link: ReplyObject?)
      reads this`frames, this`spine, this`region, rstack, spine, region
    {
      && rstack.Length == 4 && |spine| == |frames| <= 3
      && rstack[0].parent == -1
      && (forall i, j :: 0 <= i < j < |spine| ==> spine[i] != spine[j])
      && Apart()
      && (forall k :: 0 <= k < |frames| ==> Level(k) && Linked(k, link))
    }

    /** The root of the tree being read, where o is the item at the top of the stack. */
    ghost function Root(o: ReplyObject?): ReplyObject?
      requires rstack.Length == 4
      reads this`frames, rstack
    {
      if frames == [] then o else rstack[0].obj
    }

    constructor ()
      ensures Valid() && err == None && M() == IDLE && Rest() == [] && spine == [] && fresh(rstack)
    {
      err := None;
      buf := Sds.EMPTY;
      pos, len := 0, 0;
      rstack := new Task[4](_ => Task(None, -1, -1, null, -1));
      ridx := -1;
      reply := null;
      frames, spine, region := [], [], {};
    }

    ghost predicate Buffered()
      reads this, rstack
    {
      && rstack.Length == 4 && rstack[0].parent == -1
      && (err == None ==> len == |buf.text| && pos <= len)
      && (err != None ==> ridx == -1 && buf == Sds.EMPTY && pos == len == 0)
    }

    /** The state after an item: no reply is complete yet, or the root of the tree is
        the complete reply `emitted`. */
    ghost predicate Settled(emitted: Option<Reply>)
      reads this, rstack, spine, region
    {
      && Stack(null)
      && Buffered() && Apart()
      && -1 <= ridx <= 3
      && |frames| == (if ridx < 0 then 0 else ridx)
      && match emitted
         case None => reply == if ridx <= 0 then null else rstack[0].obj
         case Some(v) => ridx == -1 && reply != null && Denotes(reply, v, region)
    }

    /** The invariant between calls: moreover an array is never left pending where the
        nesting is already at its limit. */
    ghost predicate Valid()
      reads this, rstack, spine, region
    {
      Settled(None) && (ridx == 3 ==> rstack[3].kind != Some(ArrayKind))
    }

    /** The vectors in use come from the given ones or are new, and complete replies
        stay complete. */
    twostate predicate Grows()
      reads this
    {
      && old(region) <= region
      && (forall i :: 0 <= i < |spine| ==> spine[i] in old(spine) || fresh(spine[i]))
    }

    ghost function M(): Machine
      requires rstack.Length == 4 && ridx <= 3
      reads this, rstack
    {
      Machine(frames, if ridx < 0 then None else rstack[ridx].kind)
    }

    ghost function Rest(): bytes
      requires pos <= |buf.text|
      reads this
    {
      buf.text[pos..]
    }

    /** Link a new object into the slot of its parent, which is still empty. */
    method Link(obj: ReplyObject)
      requires Stack(null) && ridx == |frames|
      modifies spine
      ensures Stack(obj)
    {
      var cur := rstack[ridx];
      ghost var k := |frames| - 1;
      assert k >= 0 ==> Level(k) && Linked(k, null);
      if cur.parent >= 0 {
        var parent := rstack[cur.parent].obj;
        assert parent.element[cur.idx] == null;
        parent.element[cur.idx] := obj;
        forall j | 0 <= j < k ensures Level(j) && Linked(j, obj) {
          assert old(Level(j) && Linked(j, null)) && spine[j] != spine[k];
        }
        assert Level(k) && Linked(k, obj);
      }
    }

    /** The item at the top of the stack is complete: it is v, held by o. Climb to the
        first array that still has room. The two assertions are those of the source. */
    method MoveToNextTask(ghost v: Reply, ghost o: ReplyObject)
      requires Stack(o) && ridx == |frames| && Denotes(o, v, region)
      modifies this`ridx, this`frames, this`spine, this`region, rstack
      ensures Stack(null)
      ensures old(region) <= region
      ensures spine <= old(spine)
      ensures var d := Deliver(old(frames), v);
              && frames == d.frames
              && (d.emitted.None? ==> ridx == |frames| && rstack[ridx].kind == None && Root(null) == old(Root(null)))
              && (d.emitted.Some? ==> ridx == -1 && old(Root(o)) != null &&
                                      Denotes(old(Root(o)), d.emitted.value, region))
    {
      hide Denotes, Slots, Level, Linked, Open;
      ghost var v', o' := v, o;
      while ridx >= 0
        invariant Stack(o') && ridx == |frames| && Denotes(o', v', region)
        invariant Deliver(frames, v') == Deliver(old(frames), v)
        invariant Root(o') == old(Root(o))
        invariant frames <= old(frames) && spine <= old(spine)
        invariant old(region) <= region
        invariant forall i :: 0 <= i < 4 ==> rstack[i] == old(rstack[i])
      {
        if ridx == 0 {
          ridx := ridx - 1;
          return;
        }
        TopLevel(ridx - 1);
        var cur, prv := rstack[ridx], rstack[ridx - 1];
        assert prv.kind == Some(ArrayKind);
        if cur.idx == prv.elements - 1 {
          ridx := ridx - 1;
          v', o' := CloseFrame(v', o');
        } else {
          assert cur.idx < prv.elements;
          NextSlot(v', o');
          return;
        }
      }
    }

    lemma TopLevel(k: nat)
      requires rstack.Length == 4 && |spine| == |frames| <= 3 && k < |frames| && Level(k)
      ensures var t, f := rstack[k], frames[k];
              && t.kind == Some(ArrayKind) && t.elements == f.count && t.obj != null
              && rstack[k + 1].idx == |f.filled| < f.count && rstack[k + 1].parent == k
    {
    }

    /** Move on to the next slot of the top array. The type is reset because the next
        item can be anything. */
    method NextSlot(ghost v: Reply, ghost o: ReplyObject)
      requires frames != [] && ridx == |frames| && Stack(o) && Denotes(o, v, region)
      requires |frames[ridx - 1].filled| + 1 < frames[ridx - 1].count
      modifies this`frames, rstack
      ensures var top := old(frames)[ridx - 1];
              frames == old(frames)[..ridx - 1] + [top.(filled := top.filled + [v])]
      ensures Stack(null) && rstack[ridx].kind == None && rstack[0].obj == old(rstack[0].obj)
    {
      var cur := rstack[ridx];
      ghost var k := ridx - 1;
      rstack[ridx] := cur.(kind := None, elements := -1, idx := cur.idx + 1);
      frames := frames[..k] + [frames[k].(filled := frames[k].filled + [v])];
      forall j | 0 <= j <= k ensures Level(j) && Linked(j, null) {
        assert old(Level(j) && Linked(j, o));
      }
    }

    /** The top array has its last element: it is a complete reply. */
    ghost method CloseFrame(v: Reply, o: ReplyObject) returns (v': Reply, o': ReplyObject)
      requires frames != [] && Stack(o) && Denotes(o, v, region)
      requires |frames[|frames| - 1].filled| + 1 == frames[|frames| - 1].count
      modifies this`frames, this`spine, this`region
      ensures frames == old(frames)[..|old(frames)| - 1] && spine == old(spine)[..|frames|]
      ensures region == old(region) + {old(spine)[|frames|]}
      ensures v' == Array(old(frames)[|frames|].filled + [v]) && o' == rstack[|frames|].obj
      ensures Stack(o') && Denotes(o', v', region)
    {
      var k := |frames| - 1;
      assert Level(k) && Linked(k, o);
      var a, vs := spine[k], frames[k].filled + [v];
      assert Slots(a, vs, region);
      var region' := region + {a};
      SlotsGrow(a, vs, region, region');
      forall j | 0 <= j < k ensures Slots(spine[j], frames[j].filled, region') {
        assert Level(j);
        SlotsGrow(spine[j], frames[j].filled, region, region');
      }
      frames, spine, region := frames[..k], spine[..k], region';
      v', o' := Array(vs), rstack[k].obj;
      forall j | 0 <= j < k ensures Level(j) && Linked(j, o') {
        assert old(Level(j) && Linked(j, o));
        assert old(spine)[j] != a;
      }
    }

    /** The current item is the complete object obj: link it, note it when it is the
        root, and move on. */
    method FinishItem(obj: ReplyObject, ghost v: Reply) returns (ghost emitted: Option<Reply>)
      requires Settled(None) && ridx >= 0 && Denotes(obj, v, region)
      modifies this`reply, this`ridx, this`frames, this`spine, this`region, rstack, spine
      ensures Settled(emitted) && Grows()
      ensures emitted == None ==> ridx >= 0
      ensures M() == Machine(Deliver(old(frames), v).frames, None) && emitted == Deliver(old(frames), v).emitted
    {
      emitted := Deliver(frames, v).emitted;
      Link(obj);
      if ridx == 0 {
        reply := obj;
      }
      MoveToNextTask(v, obj);
    }

    /** The step of the machine that took it from m, with s to read, to here. */
    ghost predicate Took(m: Machine, s: bytes, emitted: Option<Reply>)
      reads this, rstack, spine, region
    {
      && err == None && Settled(emitted) && M().kind == None && |Rest()| <= |s|
      && (emitted == None ==> ridx >= 0)
      && MakeStep(m, s) == Advance(M(), |s| - |Rest()|, emitted)
      && Rest() == s[|s| - |Rest()|..]
    }

    /** Consume the bytes of the current item and finish it. */
    method Complete(obj: ReplyObject, ghost v: Reply, used: nat) returns (ghost emitted: Option<Reply>)
      requires Settled(None) && err == None && ridx >= 0 && Denotes(obj, v, region) && used <= |Rest()|
      requires MakeStep(M(), Rest()) == Finish(M(), v, used)
      modifies this, rstack, spine
      ensures Took(old(M()), old(Rest()), emitted) && Grows()
    {
      hide Denotes, Stack, MakeStep, Deliver;
      pos := pos + used;
      emitted := FinishItem(obj, v);
    }

    method ProcessLineItem() returns (ok: bool, ghost emitted: Option<Reply>)
      requires Settled(None) && err == None && ridx >= 0
      requires rstack[ridx].kind in {Some(ErrorKind), Some(StatusKind), Some(IntegerKind)}
      modifies this, rstack, spine
      ensures ok ==> Took(old(M()), old(Rest()), emitted) && Grows()
      ensures !ok ==> unchanged(this) && unchanged(rstack) && unchanged(old(spine)) &&
                      emitted == None && MakeStep(M(), Rest()).Wait?
    {
      hide FirstCrlf, ReadNumber, Deliver, Stack, Slots, Took;
      var kind := rstack[ridx].kind.value;
      var eol := SeekNewline(buf.text, pos);
      if eol.None? {
        return false, None;
      }
      var end := pos + eol.value;
      ghost var line := Rest()[..eol.value];
      assert line == buf.text[pos..end];
      var obj: ReplyObject;
      if kind == IntegerKind {
        var n := ReadLongLong(buf.text, pos, end);
        obj := new ReplyObject.Number(n);
      } else {
        obj := new ReplyObject.Text(if kind == ErrorKind then ErrorObject else StatusObject, buf.text[pos..end]);
      }
      emitted := Complete(obj, LineReply(kind, line), eol.value + 2);
      ok := true;
    }

    method ProcessBulkItem() returns (ok: bool, ghost emitted: Option<Reply>)
      requires Settled(None) && err == None && ridx >= 0 && rstack[ridx].kind == Some(BulkKind)
      modifies this, rstack, spine
      ensures ok ==> Took(old(M()), old(Rest()), emitted) && Grows()
      ensures !ok ==> unchanged(this) && unchanged(rstack) && unchanged(old(spine)) &&
                      emitted == None && MakeStep(M(), Rest()).Wait?
    {
      hide FirstCrlf, ReadNumber, Deliver, Stack, Slots, MakeStep, Took;
      BulkStep(M(), Rest());
      var eol := SeekNewline(buf.text, pos);
      if eol.None? {
        return false, None;
      }
      var size := ReadLongLong(buf.text, pos, pos + eol.value);
      assert Rest()[..eol.value] == buf.text[pos..pos + eol.value];
      var bytelen := eol.value + 2;
      if size < 0 {
        var obj := new ReplyObject.Null();
        emitted := Complete(obj, Nil, bytelen);
      } else {
        if pos + bytelen + size + 2 > len {
          return false, None;
        }
        var payload := buf.text[pos + bytelen..pos + bytelen + size];
        assert payload == Rest()[bytelen..bytelen + size];
        var obj := new ReplyObject.Text(StringObject, payload);
        emitted := Complete(obj, Bulk(payload), bytelen + size + 2);
      }
      ok := true;
    }

    /** Drop everything and remember the error. */
    method SetError(e: ReadError)
      requires rstack.Length == 4 && rstack[0].parent == -1
      modifies this
      ensures Settled(None) && err == Some(e) && M() == IDLE && Rest() == [] && region == old(region) && spine == []
    {
      reply := null;
      buf := Sds.EMPTY;
      pos, len := 0, 0;
      ridx := -1;
      err := Some(e);
      frames, spine := [], [];
    }

    method ProcessMultiBulkItem() returns (ok: bool, ghost emitted: Option<Reply>)
      requires Settled(None) && err == None && ridx >= 0 && rstack[ridx].kind == Some(ArrayKind)
      modifies this, rstack, spine
      ensures Grows()
      ensures ok ==> Took(old(M()), old(Rest()), emitted)
      ensures !ok && err == None ==> unchanged(this) && unchanged(rstack) && unchanged(old(spine)) &&
                                     ridx < 3 && emitted == None && MakeStep(M(), Rest()).Wait?
      ensures !ok && err != None ==> Settled(None) && M() == IDLE && Rest() == [] && emitted == None &&
                                     MakeStep(old(M()), old(Rest())) == Halt(err.value)
    {
      hide FirstCrlf, ReadNumber, Deliver, Slots, Stack, MakeStep, Wrap32, EmptyArray, Took, Level, Linked;
      ArrayStep(M(), Rest());
      emitted := None;
      if ridx == 3 {
        SetError(TooDeep);
        return false, None;
      }
      var eol := SeekNewline(buf.text, pos);
      if eol.None? {
        return false, None;
      }
      var count := ReadLongLong(buf.text, pos, pos + eol.value);
      assert Rest()[..eol.value] == buf.text[pos..pos + eol.value];
      var elements := Wrap32(count);
      if count > 0 && elements <= 0 {
        SetError(Undefined);
        return false, None;
      }
      if count > 0 {
        OpenArray(elements, eol.value + 2);
      } else {
        emitted := CompleteEmpty(count, eol.value + 2);
      }
      ok := true;
    }

    /** An array item with elements to come. */
    method OpenArray(n: nat, used: nat)
      requires Settled(None) && err == None && 0 <= ridx < 3 && used <= |Rest()|
      requires n > 0 && rstack[ridx].kind == Some(ArrayKind)
      requires MakeStep(M(), Rest()) == Advance(Machine(frames + [Frame(n, [])], None), used, None)
      modifies this, rstack, spine
      ensures Took(old(M()), old(Rest()), None) && Grows()
    {
      hide Stack, MakeStep, Level, Linked;
      var obj := new ReplyObject.Vector(n);
      pos := pos + used;
      PushArray(obj, n);
    }

    /** An array item that announces no elements. */
    method CompleteEmpty(count: int, used: nat) returns (ghost emitted: Option<Reply>)
      requires count <= 0
      requires Settled(None) && err == None && ridx >= 0 && used <= |Rest()|
      requires MakeStep(M(), Rest()) == Finish(M(), EmptyArray(count), used)
      modifies this, rstack, spine
      ensures Took(old(M()), old(Rest()), emitted) && Grows()
    {
      hide Stack, MakeStep, Deliver;
      if count == -1 {
        var obj := new ReplyObject.Null();
        emitted := Complete(obj, Nil, used);
      } else {
        var obj := new ReplyObject.Vector(Wrap32(count));
        if obj.element != null {
          AddToRegion(obj.element);
        }
        emitted := Complete(obj, EmptyArray(count), used);
      }
    }

    ghost method AddToRegion(a: Vector)
      requires Settled(None) && a !in spine
      modifies this`region
      ensures Settled(None) && region == old(region) + {a}
    {
      region := region + {a};
      forall k | 0 <= k < |frames| ensures Level(k) && Linked(k, null) {
        assert old(Level(k) && Linked(k, null));
        SlotsGrow(spine[k], frames[k].filled, old(region), region);
      }
    }

    /** Start filling the new array obj, whose vector is empty. */
    method PushArray(obj: ReplyObject, n: nat)
      requires Settled(None) && 0 <= ridx < 3 && rstack[ridx].kind == Some(ArrayKind)
      requires n > 0 && obj.kind == ArrayObject && obj.elements == n
      requires obj.element != null && obj.element.Length == n && obj.element !in region && obj.element !in spine
      requires forall i :: 0 <= i < n ==> obj.element[i] == null
      modifies this`reply, this`ridx, this`frames, this`spine, rstack, spine
      ensures Settled(None) && region == old(region) && spine == old(spine) + [obj.element]
      ensures M() == Machine(old(frames) + [Frame(n, [])], None)
    {
      hide Stack;
      var root := ridx == 0;
      Unstack();
      Link(obj);
      PushFrame(obj, n);
      if root {
        reply := obj;
      }
    }

    lemma Unstack()
      requires Stack(null)
      ensures rstack.Length == 4
    {
    }

    /** The array becomes the new top of the stack, and reading goes on with its first
        element. */
    method PushFrame(obj: ReplyObject, n: nat)
      requires Stack(obj) && 0 <= ridx == |frames| < 3 && rstack[ridx].kind == Some(ArrayKind)
      requires n > 0 && obj.kind == ArrayObject && obj.elements == n
      requires obj.element != null && obj.element.Length == n && obj.element !in region && obj.element !in spine
      requires forall i :: 0 <= i < n ==> obj.element[i] == null
      modifies this`ridx, this`frames, this`spine, rstack
      ensures Stack(null) && ridx == old(ridx) + 1 && frames == old(frames) + [Frame(n, [])]
      ensures spine == old(spine) + [obj.element] && rstack[ridx].kind == None && Apart() && rstack[0].parent == -1
      ensures rstack[0].obj == if old(ridx) == 0 then obj else old(rstack[0].obj)
    {
      hide Slots, Denotes;
      rstack[ridx] := rstack[ridx].(elements := n, obj := obj);
      ridx := ridx + 1;
      rstack[ridx] := Task(None, -1, 0, null, ridx - 1);
      frames := frames + [Frame(n, [])];
      spine := spine + [obj.element];
      forall k | 0 <= k < |frames| - 1 ensures Level(k) && Linked(k, null) {
        assert old(Level(k) && Linked(k, obj));
      }
      NoSlots(obj.element, region);
      assert Level(|frames| - 1) && Linked(|frames| - 1, null);
    }

    lemma NoSlots(a: Vector, r: set<Vector>)
      ensures Slots(a, [], r)
    {
    }

    /** Read the type byte if it is not known yet, then the item. */
    method ProcessItem() returns (ok: bool, ghost emitted: Option<Reply>)
      requires Valid() && err == None && ridx >= 0
      modifies this, rstack, spine
      ensures Grows()
      ensures err == None ==> Settled(emitted) && (emitted == None ==> Valid() && ridx >= 0) &&
                              Run(old(M()), old(Rest())) == Prepend(Emit(emitted), Run(M(), Rest()))
      ensures err != None ==> Valid() && !ok && emitted == None && Run(old(M()), old(Rest())) == Result([], IDLE, [], err)
      ensures ok ==> err == None && |Rest()| < |old(Rest())|
      ensures !ok && err == None ==> emitted == None && MakeStep(M(), Rest()).Wait?
    {
      hide Run, MakeStep, Stack, Denotes, Deliver;
      emitted := None;
      ok := ReadType();
      if !ok {
        RunOnce(M(), Rest());
        return;
      }
      RunOnce(M(), Rest());
      ok, emitted := ProcessTyped();
    }

    method ProcessTyped() returns (ok: bool, ghost emitted: Option<Reply>)
      requires Settled(None) && err == None && ridx >= 0 && rstack[ridx].kind.Some?
      modifies this, rstack, spine
      ensures Grows()
      ensures ok ==> Took(old(M()), old(Rest()), emitted)
      ensures !ok && err == None ==> unchanged(this) && unchanged(rstack) && unchanged(old(spine)) && Valid() &&
                                     emitted == None && MakeStep(M(), Rest()).Wait?
      ensures !ok && err != None ==> Valid() && emitted == None && MakeStep(old(M()), old(Rest())) == Halt(err.value)
    {
      hide MakeStep, Stack, Denotes, Took;
      match rstack[ridx].kind
      case Some(BulkKind) => ok, emitted := ProcessBulkItem();
      case Some(ArrayKind) => ok, emitted := ProcessMultiBulkItem();
      case Some(_) => ok, emitted := ProcessLineItem();
    }

    method ReadType() returns (ok: bool)
      requires Valid() && err == None && ridx >= 0
      modifies this, rstack
      ensures region == old(region) && spine == if err == None then old(spine) else []
      ensures ok ==> Settled(None) && err == None && ridx == old(ridx) && rstack[ridx].kind.Some? &&
                     Run(old(M()), old(Rest())) == Run(M(), Rest()) && |Rest()| <= |old(Rest())|
      ensures !ok && err == None ==> Valid() && ridx >= 0 && M() == old(M()) && Rest() == old(Rest()) && MakeStep(M(), Rest()).Wait?
      ensures !ok && err != None ==> Valid() && Run(old(M()), old(Rest())) == Result([], IDLE, [], err)
    {
      hide Run, Denotes, Deliver;
      RunOnce(M(), Rest());
      var cur := rstack[ridx];
      if cur.kind.Some? {
        return true;
      }
      if len - pos < 1 {
        return false;
      }
      var b := buf.text[pos];
      pos := pos + 1;
      var kind := KindOf(b);
      if kind.None? {
        SetError(BadType(b));
        return false;
      }
      rstack[ridx] := cur.(kind := kind);
      assert Prepend([], Run(M(), Rest())) == Run(M(), Rest());
      forall k | 0 <= k < |frames| ensures Level(k) && Linked(k, null) {
        assert old(Level(k) && Linked(k, null));
      }
      ok := true;
    }

    /** Append received bytes; a large empty buffer is replaced first. */
    method Feed(chunk: bytes) returns (ok: bool)
      requires Valid()
      modifies this`buf, this`pos, this`len
      ensures Valid() && ok == (err == None) && M() == old(M())
      ensures Rest() == if ok then old(Rest()) + chunk else []
    {
      if err != None {
        return false;
      }
      if |chunk| >= 1 {
        if len == 0 && buf.avail > 16 * 1024 {
          buf := Sds.EMPTY;
          pos := 0;
        }
        buf := Sds.CatLen(buf, chunk);
        len := |buf.text|;
      }
      ok := true;
    }

    /** Read on until one reply is complete, more input is needed or the input is
        malformed; then drop the consumed part of the buffer when it is large. */
    method GetReply() returns (ok: bool, r: ReplyObject?, ghost emitted: Option<Reply>)
      requires Valid()
      modifies this, rstack, spine
      ensures Valid() && Grows() && ok == (err == None)
      ensures old(err) != None ==> err == old(err) && r == null && emitted == None
      ensures old(err) == None && err == None ==>
                Run(old(M()), old(Rest())) == Prepend(Emit(emitted), Run(M(), Rest()))
      ensures old(err) == None && err != None ==>
                r == null && emitted == None && Run(old(M()), old(Rest())) == Result([], IDLE, [], err)
      ensures emitted == None ==> r == null && (ok ==> Run(M(), Rest()) == Result([], M(), Rest(), None))
      ensures emitted.Some? ==> r != null && Denotes(r, emitted.value, region) && |Rest()| < |old(Rest())|
    {
      hide Run, MakeStep, Stack, Denotes, Level, Linked;
      r, emitted := null, None;
      if err != None {
        return false, null, None;
      }
      if len == 0 {
        RunEmpty(M());
        return true, null, None;
      }
      if ridx == -1 {
        StartItem();
      }
      emitted := ProcessItems();
      if err != None {
        return false, null, None;
      }
      Compact();
      r := TakeRoot(emitted);
      ok := true;
    }

    /** Emit the reply when there is one. */
    method TakeRoot(ghost emitted: Option<Reply>) returns (r: ReplyObject?)
      requires Settled(emitted) && (emitted == None ==> Valid() && ridx >= 0)
      modifies this`reply
      ensures Valid()
      ensures emitted == None ==> r == null
      ensures emitted.Some? ==> r != null && Denotes(r, emitted.value, region)
    {
      r := null;
      if ridx == -1 {
        r := reply;
        reply := null;
      }
    }

    /** Discard the consumed part of the buffer once it is at least 1k. */
    method Compact()
      requires Buffered() && err == None
      modifies this`buf, this`pos, this`len
      ensures Buffered() && Rest() == old(Rest()) && pos < 1024
    {
      if pos >= 1024 {
        buf := Sds.Range(buf, pos, -1);
        pos := 0;
        len := |buf.text|;
      }
    }

    method StartItem()
      requires Valid() && ridx == -1 && err == None
      modifies this`ridx, rstack
      ensures Valid() && ridx == 0 && M() == IDLE
    {
      rstack[0] := Task(None, -1, -1, null, -1);
      ridx := 0;
    }

    method ProcessItems() returns (ghost emitted: Option<Reply>)
      requires Valid() && err == None && ridx >= 0
      modifies this, rstack, spine
      ensures Grows()
      ensures err == None ==> Settled(emitted) && (emitted == None ==> Valid() && ridx >= 0) &&
                              Run(old(M()), old(Rest())) == Prepend(Emit(emitted), Run(M(), Rest()))
      ensures err != None ==> Valid() && emitted == None && Run(old(M()), old(Rest())) == Result([], IDLE, [], err)
      ensures err == None && emitted == None ==> Run(M(), Rest()) == Result([], M(), Rest(), None)
      ensures emitted.Some? ==> |Rest()| < |old(Rest())|
    {
      hide Run, Stack, Denotes, MakeStep, Level, Linked;
      emitted := None;
      ghost var m, s := M(), Rest();
      while ridx >= 0
        invariant Grows() && err == None
        invariant Settled(emitted) && (emitted == None ==> Valid() && ridx >= 0)
        invariant Run(m, s) == Prepend(Emit(emitted), Run(M(), Rest()))
        invariant |Rest()| <= |s| && (emitted.Some? ==> |Rest()| < |s|)
        decreases |Rest()|, ridx
      {
        var ok;
        RunOnce(M(), Rest());
        ok, emitted := ProcessItem();
        if !ok {
          if err == None { RunOnce(M(), Rest()); }
          break;
        }
      }
    }

    /** Take replies until there is none left in the buffer or the input is malformed. */
    method Drain() returns (rs: seq<ReplyObject>)
      requires Valid()
      modifies this, rstack, spine
      ensures Valid() && Grows()
      ensures old(err) != None ==> rs == [] && err == old(err)
      ensures old(err) == None ==> var run := Run(old(M()), old(Rest()));
                                   && AllDenote(rs, run.out, region) && err == run.error
                                   && M() == run.m && Rest() == run.rest
    {
      hide Run, Stack, Denotes, Level, Linked;
      rs := [];
      if err != None {
        return;
      }
      ghost var run, vs := Run(M(), Rest()), [];
      var done := false;
      while !done
        invariant Valid() && Grows() && AllDenote(rs, vs, region)
        invariant !done ==> err == None && run == Prepend(vs, Run(M(), Rest()))
        invariant done ==> run == Result(vs, M(), Rest(), err)
        decreases !done, |Rest()|
      {
        label before:
        var ok, r, e := GetReply();
        AllDenoteGrow(rs, vs, old@before(region), region);
        if r == null {
          done := true;
        } else {
          assert vs + Emit(e) + Run(M(), Rest()).out == vs + (Emit(e) + Run(M(), Rest()).out);
          rs, vs := rs + [r], vs + [e.value];
        }
      }
    }

    /** Feed one piece and drain. */
    method FeedPiece(chunk: bytes, rs0: seq<ReplyObject>, ghost st: Result) returns (rs: seq<ReplyObject>)
      requires Valid() && st == Result(st.out, M(), Rest(), err) && AllDenote(rs0, st.out, region)
      modifies this, rstack, spine
      ensures Valid() && Grows()
      ensures var st' := FeedOne(st, chunk); st' == Result(st'.out, M(), Rest(), err) && AllDenote(rs, st'.out, region)
    {
      hide Run, Stack, Denotes, Level, Linked;
      label before:
      var ok := Feed(chunk);
      var more := Drain();
      AllDenoteGrow(rs0, st.out, old@before(region), region);
      rs := rs0 + more;
    }

    /** Feed the pieces of a stream one by one, draining after each. The replies and
        the error are those of the recursive grammar on the whole stream. */
    method FeedAndDrain(chunks: seq<bytes>) returns (rs: seq<ReplyObject>)
      requires Valid() && err == None && M() == IDLE && Rest() == []
      modifies this, rstack, spine
      ensures Valid()
      ensures AllDenote(rs, ParseStream(Concat(chunks)).replies, region)
      ensures err == ParseStream(Concat(chunks)).error
    {
      hide Run, Stack, Denotes, Level, Linked, ParseStream, FeedOne, FeedAll;
      rs := [];
      ghost var st := START;
      assert chunks[0..] == chunks;
      for i := 0 to |chunks|
        invariant Valid() && Grows()
        invariant st == Result(st.out, M(), Rest(), err) && AllDenote(rs, st.out, region)
        invariant FeedAll(st, chunks[i..]) == FeedAll(START, chunks)
      {
        FeedNext(st, chunks, i);
        rs := FeedPiece(chunks[i], rs, st);
        st := FeedOne(st, chunks[i]);
      }
      FeedNothing(st, chunks[|chunks|..]);
      ChunkingIndependence(chunks);
      MachineRefinesGrammar(Concat(chunks));
    }
  }

  /** What a server writes, cut in any way, is read as what it wrote. */
  method ReadWritten(ghost vs: seq<Reply>, chunks: seq<bytes>) returns (reader: Reader, rs: seq<ReplyObject>)
    requires Concat(chunks) == RespWire.EncodeAll(vs)
    requires forall v :: v in vs ==> RespWire.Encodable(v) && RespWire.Height(v) <= 3
    ensures reader.err == None && AllDenote(rs, vs, reader.region)
  {
    hide ParseStream, RespWire.EncodeAll, Denotes;
    reader := new Reader();
    rs := reader.FeedAndDrain(chunks);
    RespWire.StreamDecoded(vs, []);
    assert RespWire.EncodeAll(vs) + [] == RespWire.EncodeAll(vs) && vs + [] == vs;
    NothingToRead();
  }

  lemma NothingToRead()
    ensures ParseStream([]) == Stream([], None)
  {
  }

  lemma FeedNothing(st: Result, chunks: seq<bytes>)
    requires chunks == []
    ensures FeedAll(st, chunks) == st
  {
  }
}
