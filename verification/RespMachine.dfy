/** The reader as an explicit stack machine over the bytes not yet consumed, the
    independence of its runs from how the input is cut into pieces, and its
    agreement with the recursive grammar. */
module RespMachine {
  import opened Bytes
  import opened Resp

  /** An array being filled: how many elements it announces and those it has. */
  datatype Frame = Frame(count: nat, filled: seq<Reply>)

  /** The enclosing arrays, outermost first, and the type of the current item once its
      type byte has been read. The C field `ridx` is the number of frames (or -1
      between replies). */
  datatype Machine = Machine(frames: seq<Frame>, kind: Option<Kind>)

  const IDLE: Machine := Machine([], None)

  predicate Open(f: Frame) {
    |f.filled| < f.count
  }

  /** Every reachable stack: at most three enclosing arrays, each with room left. */
  predicate Valid(m: Machine) {
    |m.frames| <= 3 && forall i :: 0 <= i < |m.frames| ==> Open(m.frames[i])
  }

  /** A completed item has been handed to its parent, and so on upwards. */
  datatype Delivered = Delivered(frames: seq<Frame>, emitted: Option<Reply>)

  function Deliver(frames: seq<Frame>, v: Reply): (r: Delivered)
    ensures r.emitted.Some? ==> r.frames == []
    ensures |r.frames| <= |frames|
    ensures (forall i :: 0 <= i < |frames| ==> Open(frames[i])) ==>
              forall i :: 0 <= i < |r.frames| ==> Open(r.frames[i])
    decreases |frames|
  {
    if frames == [] then Delivered([], Some(v))
    else
      var outer, top := frames[..|frames| - 1], frames[|frames| - 1];
      var filled := top.filled + [v];
      if |filled| == top.count then Deliver(outer, Array(filled))
      else Delivered(outer + [top.(filled := filled)], None)
  }

  datatype Step =
    | Wait
    | Halt(error: ReadError)
    | Advance(next: Machine, used: nat, emitted: Option<Reply>)

  function Finish(m: Machine, v: Reply, used: nat): Step {
    var d := Deliver(m.frames, v);
    Advance(Machine(d.frames, None), used, d.emitted)
  }

  function StepArray(m: Machine, s: bytes): Step {
    if |m.frames| == 3 then Halt(TooDeep)
    else
      var eol := FirstCrlf(s);
      if eol.None? then Wait
      else
        var count := ReadNumber(s[..eol.value]);
        var used := eol.value + 2;
        if count <= 0 then Finish(m, EmptyArray(count), used)
        else if Wrap32(count) <= 0 then Halt(Undefined)
        else Advance(Machine(m.frames + [Frame(Wrap32(count), [])], None), used, None)
  }

  function StepBulk(m: Machine, s: bytes): Step {
    var eol := FirstCrlf(s);
    if eol.None? then Wait
    else
      var start := eol.value + 2;
      var len := ReadNumber(s[..eol.value]);
      if len < 0 then Finish(m, Nil, start)
      else if start + len + 2 <= |s| then Finish(m, Bulk(s[start..start + len]), start + len + 2)
      else Wait
  }

  function StepLine(m: Machine, kind: Kind, s: bytes): Step
    requires kind in {ErrorKind, StatusKind, IntegerKind}
  {
    var eol := FirstCrlf(s);
    if eol.None? then Wait
    else Finish(m, LineReply(kind, s[..eol.value]), eol.value + 2)
  }

  /** One step: read a type byte, or the item whose type is known. */
  function MakeStep(m: Machine, s: bytes): (r: Step)
    ensures r.Advance? ==> 0 < r.used <= |s|
    ensures Valid(m) && r.Advance? ==> Valid(r.next)
  {
    match m.kind
    case None =>
      if s == [] then Wait
      else (match KindOf(s[0])
            case None => Halt(BadType(s[0]))
            case Some(k) => Advance(m.(kind := Some(k)), 1, None))
    case Some(BulkKind) => StepBulk(m, s)
    case Some(ArrayKind) => StepArray(m, s)
    case Some(k) => StepLine(m, k, s)
  }

  lemma BulkStep(m: Machine, s: bytes)
    requires m.kind == Some(BulkKind)
    ensures MakeStep(m, s) == StepBulk(m, s)
  {
  }

  lemma ArrayStep(m: Machine, s: bytes)
    requires m.kind == Some(ArrayKind)
    ensures MakeStep(m, s) == StepArray(m, s)
  {
  }

  /** Replies emitted, then the machine and input left; an error clears both. */
  datatype Result = Result(out: seq<Reply>, m: Machine, rest: bytes, error: Option<ReadError>)

  function Emit(e: Option<Reply>): seq<Reply> {
    if e.None? then [] else [e.value]
  }

  function Prepend(out: seq<Reply>, r: Result): Result {
    r.(out := out + r.out)
  }

  /** Steps until the machine has to wait for input or fails. */
  function Run(m: Machine, s: bytes): (r: Result)
    ensures Valid(m) ==> Valid(r.m)
    ensures r.error.Some? ==> r.m == IDLE && r.rest == []
    decreases |s|
  {
    match MakeStep(m, s)
    case Wait => Result([], m, s, None)
    case Halt(e) => Result([], IDLE, [], Some(e))
    case Advance(m', used, emitted) => Prepend(Emit(emitted), Run(m', s[used..]))
  }

  // ----- Independence from the way the input is cut -----

  /** What the machine can do on a prefix it does in the same way on any longer input. */
  lemma StepStable(m: Machine, s: bytes, x: bytes)
    requires !MakeStep(m, s).Wait?
    ensures MakeStep(m, s + x) == MakeStep(m, s)
  {
    hide FirstCrlf, ReadNumber, Deliver, Wrap32, StepBulk;
    if m.kind.None? {
      assert (s + x)[0] == s[0];
    } else if m.kind == Some(BulkKind) {
      BulkStable(m, s, x);
    } else if FirstCrlf(s).Some? {
      FirstCrlfAppend(s, x);
      var eol := FirstCrlf(s).value;
      assert (s + x)[..eol] == s[..eol];
    }
  }

  lemma BulkStable(m: Machine, s: bytes, x: bytes)
    requires !StepBulk(m, s).Wait?
    ensures StepBulk(m, s + x) == StepBulk(m, s)
  {
    hide FirstCrlf, ReadNumber, Deliver;
    FirstCrlfAppend(s, x);
    var eol := FirstCrlf(s).value;
    assert (s + x)[..eol] == s[..eol];
    var start, len := eol + 2, ReadNumber(s[..eol]);
    if 0 <= len {
      assert (s + x)[start..start + len] == s[start..start + len];
    }
  }

  /** Taking one step and then running. */
  lemma RunOnce(m: Machine, s: bytes)
    ensures Run(m, s) == match MakeStep(m, s)
                         case Wait => Result([], m, s, None)
                         case Halt(e) => Result([], IDLE, [], Some(e))
                         case Advance(m', used, emitted) => Prepend(Emit(emitted), Run(m', s[used..]))
  {
  }

  lemma RunEmpty(m: Machine)
    requires m.kind == Some(ArrayKind) ==> |m.frames| < 3
    ensures Run(m, []) == Result([], m, [], None)
  {
  }

  lemma RunAdvance(m: Machine, s: bytes, m': Machine, used: nat, emitted: Option<Reply>)
    requires MakeStep(m, s) == Advance(m', used, emitted)
    ensures used <= |s| && Run(m, s) == Prepend(Emit(emitted), Run(m', s[used..]))
  {
  }

  /** Running on s and then, from where that run stopped, on what is left followed by
      x, is running on s + x. */
  lemma {:induction false} RunSplit(m: Machine, s: bytes, x: bytes)
    ensures var r := Run(m, s);
            Run(m, s + x) == if r.error.Some? then r else Prepend(r.out, Run(r.m, r.rest + x))
    decreases |s|
  {
    hide MakeStep;
    match MakeStep(m, s)
    case Wait =>
      assert [] + Run(m, s + x).out == Run(m, s + x).out;
    case Halt(_) =>
      StepStable(m, s, x);
    case Advance(m', used, emitted) =>
      StepStable(m, s, x);
      RunAdvance(m, s, m', used, emitted);
      RunAdvance(m, s + x, m', used, emitted);
      assert (s + x)[used..] == s[used..] + x;
      RunSplit(m', s[used..], x);
      PrependTwice(Emit(emitted), Run(m', s[used..]), x);
  }

  lemma PrependTwice(e: seq<Reply>, r: Result, x: bytes)
    ensures Prepend(e, Prepend(r.out, Run(r.m, r.rest + x))) == Prepend(Prepend(e, r).out, Run(r.m, r.rest + x))
  {
    var o := Run(r.m, r.rest + x).out;
    assert e + (r.out + o) == (e + r.out) + o;
  }

  /** Feeding the pieces one by one and draining after each; after an error, pieces
      are refused. */
  function FeedAll(r: Result, chunks: seq<bytes>): Result
    decreases |chunks|
  {
    if chunks == [] then r else FeedAll(FeedOne(r, chunks[0]), chunks[1..])
  }

  function FeedOne(r: Result, chunk: bytes): Result {
    if r.error.Some? then r else Prepend(r.out, Run(r.m, r.rest + chunk))
  }

  lemma FeedNext(r: Result, chunks: seq<bytes>, i: nat)
    requires i < |chunks|
    ensures FeedAll(r, chunks[i..]) == FeedAll(FeedOne(r, chunks[i]), chunks[i + 1..])
  {
    hide FeedOne;
    assert chunks[i..][0] == chunks[i] && chunks[i..][1..] == chunks[i + 1..];
  }

  const START: Result := Result([], IDLE, [], None)

  lemma {:induction false} FeedAllFrom(m: Machine, s: bytes, chunks: seq<bytes>)
    ensures FeedAll(Run(m, s), chunks) == Run(m, s + Concat(chunks))
    decreases |chunks|
  {
    if chunks == [] {
      assert s + Concat(chunks) == s;
    } else {
      RunSplit(m, s, chunks[0]);
      FeedAllFrom(m, s + chunks[0], chunks[1..]);
      assert s + chunks[0] + Concat(chunks[1..]) == s + Concat(chunks);
    }
  }

  /** Chunking independence: however a stream is cut, the replies, the error and the
      state left behind are those of one feed of the whole stream. */
  lemma ChunkingIndependence(chunks: seq<bytes>)
    ensures FeedAll(START, chunks) == Run(IDLE, Concat(chunks))
  {
    assert Run(IDLE, []) == START;
    FeedAllFrom(IDLE, [], chunks);
    assert [] + Concat(chunks) == Concat(chunks);
  }

  // ----- Agreement with the grammar -----

  /** The machine's run after an item has been read as v, with `rest` still to read. */
  function After(frames: seq<Frame>, v: Reply, rest: bytes): Result {
    var d := Deliver(frames, v);
    Prepend(Emit(d.emitted), Run(Machine(d.frames, None), rest))
  }

  /** A run agrees with a parse of the item it starts on. */
  ghost predicate Agrees(run: Result, frames: seq<Frame>, p: Parsed<Reply>) {
    match p
    case Done(v, rest) => run == After(frames, v, rest)
    case More => run.out == [] && run.error == None
    case Bad(e) => run.out == [] && run.error == Some(e)
  }

  /** An item goes into the top array, or completes it. */
  lemma DeliverTop(frames: seq<Frame>, f: Frame, v: Reply)
    requires Open(f)
    ensures var f' := f.(filled := f.filled + [v]);
            Deliver(frames + [f], v) == if Open(f') then Delivered(frames + [f'], None) else Deliver(frames, Array(f'.filled))
  {
    var inner := frames + [f];
    assert inner[..|frames|] == frames && inner[|inner| - 1] == f;
  }

  lemma {:induction false} RunItem(frames: seq<Frame>, s: bytes)
    requires |frames| <= 3
    ensures Agrees(Run(Machine(frames, None), s), frames, ParseItem(|frames|, s))
    decreases 8 - 2 * |frames|, 0
  {
    hide Run, ParseBulk, ParseArray, FirstCrlf, ReadNumber, Deliver, Wrap32, After;
    RunOnce(Machine(frames, None), s);
    if s != [] && KindOf(s[0]).Some? {
      var kind := KindOf(s[0]).value;
      var m := Machine(frames, Some(kind));
      var tail := s[1..];
      assert Prepend([], Run(m, tail)) == Run(m, tail);
      if kind == BulkKind {
        RunBulk(frames, tail);
      } else if kind != ArrayKind {
        RunLine(frames, kind, tail);
      } else if |frames| < 3 {
        RunArray(frames, tail);
      } else {
        RunOnce(m, tail);
      }
    }
  }

  lemma RunBulk(frames: seq<Frame>, s: bytes)
    ensures Agrees(Run(Machine(frames, Some(BulkKind)), s), frames, ParseBulk(s))
  {
    hide FirstCrlf, ReadNumber, Deliver, Run;
    RunOnce(Machine(frames, Some(BulkKind)), s);
  }

  lemma RunLine(frames: seq<Frame>, kind: Kind, s: bytes)
    requires kind in {ErrorKind, StatusKind, IntegerKind}
    ensures var eol := FirstCrlf(s);
            Agrees(Run(Machine(frames, Some(kind)), s), frames,
                   if eol.None? then More else Done(LineReply(kind, s[..eol.value]), s[eol.value + 2..]))
  {
    hide FirstCrlf, ReadNumber, Deliver, Run;
    RunOnce(Machine(frames, Some(kind)), s);
  }

  lemma {:induction false} RunArray(frames: seq<Frame>, s: bytes)
    requires |frames| < 3
    ensures Agrees(Run(Machine(frames, Some(ArrayKind)), s), frames, ParseArray(|frames|, s))
    decreases 7 - 2 * |frames|, 0
  {
    hide FirstCrlf, ReadNumber, Wrap32, ParseElements, Run;
    RunOnce(Machine(frames, Some(ArrayKind)), s);
    var eol := FirstCrlf(s);
    if eol.Some? {
      var count := ReadNumber(s[..eol.value]);
      var rest := s[eol.value + 2..];
      if count > 0 && Wrap32(count) > 0 {
        var f := Frame(Wrap32(count), []);
        assert Prepend([], Run(Machine(frames + [f], None), rest)) == Run(Machine(frames + [f], None), rest);
        RunElements(frames, f, rest);
        var p := ParseElements(|frames| + 1, Wrap32(count), rest);
        if p.Done? { assert [] + p.value == p.value; }
      }
    }
  }

  /** The remaining elements of an open array are read in order and fill its slots. */
  lemma {:induction false} RunElements(frames: seq<Frame>, f: Frame, s: bytes)
    requires |frames| < 3 && Open(f)
    ensures var p := ParseElements(|frames| + 1, f.count - |f.filled|, s);
            Agrees(Run(Machine(frames + [f], None), s), frames,
                   match p
                   case Done(vs, rest) => Done(Array(f.filled + vs), rest)
                   case More => More
                   case Bad(e) => Bad(e))
    decreases 6 - 2 * |frames|, f.count - |f.filled|
  {
    hide Run, ParseItem, MakeStep, Deliver, ParseElements;
    var inner := frames + [f];
    RunItem(inner, s);
    ElementsUnfold(|inner|, f.count - |f.filled|, s);
    var first := ParseItem(|inner|, s);
    if first.Done? {
      var v := first.value;
      var f' := f.(filled := f.filled + [v]);
      DeliverTop(frames, f, v);
      var p := ParseElements(|inner|, f.count - |f'.filled|, first.rest);
      if Open(f') {
        var run := Run(Machine(frames + [f'], None), first.rest);
        assert Prepend([], run) == run;
        RunElements(frames, f', first.rest);
        if p.Done? { assert f.filled + [v] + p.value == f.filled + ([v] + p.value); }
      } else {
        NoElements(|inner|, first.rest);
        assert f.filled + ([v] + []) == f'.filled;
      }
    }
  }

  lemma ElementsUnfold(depth: nat, n: nat, s: bytes)
    requires depth <= 3 && n > 0
    ensures ParseElements(depth, n, s) ==
            match ParseItem(depth, s)
            case More => More
            case Bad(e) => Bad(e)
            case Done(v, rest) =>
              match ParseElements(depth, n - 1, rest)
              case More => More
              case Bad(e) => Bad(e)
              case Done(vs, rest') => Done([v] + vs, rest')
  {
    hide ParseItem;
  }

  lemma NoElements(depth: nat, s: bytes)
    requires depth <= 3
    ensures ParseElements(depth, 0, s) == Done([], s)
  {
  }

  /** The stack machine emits exactly the replies of the recursive grammar and stops
      with exactly its error. */
  lemma {:induction false} MachineRefinesGrammar(s: bytes)
    ensures Run(IDLE, s).out == ParseStream(s).replies
    ensures Run(IDLE, s).error == ParseStream(s).error
    decreases |s|
  {
    RunItem([], s);
    var p := ParseItem(0, s);
    if p.Done? {
      assert Deliver([], p.value) == Delivered([], Some(p.value));
      MachineRefinesGrammar(p.rest);
    }
  }
}
