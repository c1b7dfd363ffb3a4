/** The write side of a connection, and commands travelling through it: formatted,
    buffered, drained by partial writes, cut up by the network and read back. */
module Pipeline {
  import opened Bytes
  import opened Resp
  import opened RespWire
  import opened Decimal
  import opened Command
  import RespReader
  import Sds

  // ----- The output buffer -----

  /** What write(2) did: it took some bytes, it would have blocked, or it failed. */
  datatype WriteResult = Wrote(n: nat) | WouldBlock | Failed

  class Context {
    var failed: bool
    var obuf: Sds.Sds
    /** Every byte handed to the socket so far. */
    ghost var written: bytes

    constructor ()
      ensures !failed && obuf.text == [] && written == []
    {
      failed, obuf, written := false, Sds.EMPTY, [];
    }

    /** Everything that was ever appended, in order. */
    ghost function Sent(): bytes
      reads this
    {
      written + obuf.text
    }

    method AppendCommand(cmd: array<byte>, len: nat)
      requires len <= cmd.Length
      modifies this`obuf
      ensures Sent() == old(Sent()) + cmd[..len]
    {
      obuf := Sds.CatLen(obuf, cmd[..len]);
    }

    /** One write of (a part of) the buffer. No byte is lost, repeated or reordered. */
    method BufferWrite(w: WriteResult) returns (ok: bool, done: bool)
      requires w.Wrote? ==> w.n <= |obuf.text|
      modifies this
      ensures Sent() == old(Sent()) && old(written) <= written
      ensures ok == !failed && failed == (old(failed) || (old(obuf.text) != [] && w.Failed?))
      ensures ok ==> done == (obuf.text == [])
      ensures written == old(written) + if ok && w.Wrote? then old(obuf.text)[..w.n] else []
    {
      if failed {
        return false, false;
      }
      if |obuf.text| > 0 {
        match w
        case WouldBlock =>
        case Failed =>
          failed := true;
          return false, false;
        case Wrote(n) =>
          written := written + obuf.text[..n];
          if n > 0 {
            if n == |obuf.text| {
              obuf := Sds.EMPTY;
            } else {
              obuf := Sds.Range(obuf, n, -1);
            }
          }
      }
      return true, |obuf.text| == 0;
    }
  }

  // ----- Commands read back -----

  /** A command as a reply: an array of its arguments. */
  function AsReply(args: seq<bytes>): Reply {
    Array(Bulks(args))
  }

  function Bulks(args: seq<bytes>): seq<Reply> {
    seq(|args|, i requires 0 <= i < |args| => Bulk(args[i]))
  }

  function AsReplies(cmds: seq<seq<bytes>>): seq<Reply> {
    seq(|cmds|, i requires 0 <= i < |cmds| => AsReply(cmds[i]))
  }

  function Wire(cmds: seq<seq<bytes>>): bytes {
    if cmds == [] then [] else CommandBytes(cmds[0]) + Wire(cmds[1..])
  }

  /** The counts and lengths fit an `int`. */
  predicate Sendable(args: seq<bytes>) {
    |args| <= INT_MAX && forall i :: 0 <= i < |args| ==> |args[i]| <= INT_MAX
  }

  /** A command is the encoding of the array of its arguments. */
  lemma {:induction false} ArgsEncoded(args: seq<bytes>)
    ensures ArgsBytes(args) == EncodeAll(Bulks(args))
  {
    if args != [] {
      ArgsEncoded(args[1..]);
      assert Bulks(args)[1..] == Bulks(args[1..]);
    }
  }

  lemma ParseCommand(args: seq<bytes>, rest: bytes)
    requires Sendable(args)
    ensures ParseItem(0, CommandBytes(args) + rest) == Done(AsReply(args), rest)
  {
    hide Dec, EncodeAll, ParseItem;
    ArgsEncoded(args);
    assert CommandBytes(args) == Encode(AsReply(args));
    BulksHeight(Bulks(args));
    DecodeEncoded(AsReply(args), 0, rest);
  }

  lemma {:induction false} BulksHeight(vs: seq<Reply>)
    requires forall i :: 0 <= i < |vs| ==> vs[i].Bulk?
    ensures HeightAll(vs) == 0
  {
    if vs != [] {
      BulksHeight(vs[1..]);
    }
  }

  /** A pipeline of commands is read back as itself. */
  lemma {:induction false} ParseWire(cmds: seq<seq<bytes>>)
    requires forall i :: 0 <= i < |cmds| ==> Sendable(cmds[i])
    ensures ParseStream(Wire(cmds)) == Stream(AsReplies(cmds), None)
    decreases |cmds|
  {
    hide CommandBytes, ParseItem;
    if cmds == [] {
      assert ParseItem(0, []) == More by { ParseNothing(); }
    } else {
      ParseCommand(cmds[0], Wire(cmds[1..]));
      ParseWire(cmds[1..]);
      assert AsReplies(cmds) == [AsReply(cmds[0])] + AsReplies(cmds[1..]);
    }
  }

  lemma ParseNothing()
    ensures ParseItem(0, []) == More
  {
  }

  lemma {:induction false} WireAppend(cmds: seq<seq<bytes>>, last: seq<bytes>)
    ensures Wire(cmds + [last]) == Wire(cmds) + CommandBytes(last)
    decreases |cmds|
  {
    hide CommandBytes;
    if cmds == [] {
      assert cmds + [last] == [last] && [last][1..] == [];
      assert Wire([last]) == CommandBytes(last) + Wire([]);
    } else {
      assert (cmds + [last])[1..] == cmds[1..] + [last];
      WireAppend(cmds[1..], last);
      assert CommandBytes(cmds[0]) + (Wire(cmds[1..]) + CommandBytes(last)) == Wire(cmds) + CommandBytes(last);
    }
  }

  // ----- End to end -----

  /** What a client does to its context: append a command or write out. */
  datatype Op = Append(args: seq<bytes>) | Write(w: WriteResult)

  /** Commands appended by a run. */
  function Appended(ops: seq<Op>): seq<seq<bytes>> {
    if ops == [] then []
    else Appended(ops[..|ops| - 1]) + match ops[|ops| - 1] case Append(args) => [args] case Write(_) => []
  }

  /** Any interleaving of appends and partial writes keeps every byte in order. A write
      that claims more than is buffered is cut to the buffer. The result is what the
      socket got. */
  method RunOps(c: Context, ops: seq<Op>) returns (out: bytes)
    requires c.Sent() == []
    requires forall i :: 0 <= i < |ops| && ops[i].Append? ==> |CommandBytes(ops[i].args)| <= INT_MAX
    modifies c
    ensures c.Sent() == Wire(Appended(ops)) && out == c.written
  {
    out := [];
    for i := 0 to |ops|
      invariant c.Sent() == Wire(Appended(ops[..i])) && out == c.written
    {
      assert ops[..i + 1][..i] == ops[..i];
      match ops[i]
      case Append(args) =>
        var lens := seq(|args|, j requires 0 <= j < |args| => |args[j]|);
        ghost var given := Args(args, Some(lens));
        assert forall j :: 0 <= j < |args| ==> given[j] == args[j][..lens[j]] == args[j];
        assert given == args;
        var cmd, len := FormatCommandArgv(args, Some(lens));
        c.AppendCommand(cmd, len);
        WireAppend(Appended(ops[..i]), args);
      case Write(w) =>
        var w' := if w.Wrote? && w.n > |c.obuf.text| then Wrote(|c.obuf.text|) else w;
        var buffered := c.obuf.text;
        var ok, done := c.BufferWrite(w');
        out := out + if ok && w'.Wrote? then buffered[..w'.n] else [];
        assert Appended(ops[..i + 1]) == Appended(ops[..i]);
    }
    assert ops[..|ops|] == ops;
  }

  // ----- What a part of the wire yields -----

  /** How many of the commands are complete in w. */
  function Whole(w: bytes, cmds: seq<seq<bytes>>): nat {
    if cmds == [] || !(CommandBytes(cmds[0]) <= w) then 0
    else 1 + Whole(w[|CommandBytes(cmds[0])|..], cmds[1..])
  }

  /** It is the largest number of commands that w begins with. */
  lemma {:induction false} WholeIsLargest(w: bytes, cmds: seq<seq<bytes>>)
    ensures Whole(w, cmds) <= |cmds|
    ensures forall m :: 0 <= m <= |cmds| ==> (Wire(cmds[..m]) <= w <==> m <= Whole(w, cmds))
    decreases |cmds|
  {
    hide CommandBytes;
    if cmds != [] {
      var c := CommandBytes(cmds[0]);
      var w' := if c <= w then w[|c|..] else [];
      WholeIsLargest(w', cmds[1..]);
      forall m | 0 <= m <= |cmds| ensures Wire(cmds[..m]) <= w <==> m <= Whole(w, cmds) {
        if m > 0 {
          assert cmds[..m][1..] == cmds[1..][..m - 1];
          PrefixSplit(c, Wire(cmds[1..][..m - 1]), w);
        }
      }
    }
  }

  lemma PrefixSplit(a: bytes, b: bytes, w: bytes)
    ensures a + b <= w <==> a <= w && b <= w[|a|..]
  {
    if a + b <= w {
      assert w == (a + b) + w[|a + b|..];
      assert w == a + (b + w[|a + b|..]);
    }
    if a <= w && b <= w[|a|..] {
      assert w == a + w[|a|..];
      assert w[|a|..] == b + w[|a|..][|b|..];
      assert w == (a + b) + w[|a|..][|b|..];
    }
  }

  /** A prefix of the wire yields exactly the commands that are complete in it. */
  lemma {:induction false} PrefixOfWire(w: bytes, cmds: seq<seq<bytes>>)
    requires w <= Wire(cmds) && forall i :: 0 <= i < |cmds| ==> Sendable(cmds[i])
    ensures Whole(w, cmds) <= |cmds| && ParseStream(w) == Stream(AsReplies(cmds[..Whole(w, cmds)]), None)
    decreases |cmds|
  {
    hide CommandBytes, ParseItem;
    WholeIsLargest(w, cmds);
    var n := Whole(w, cmds);
    if cmds == [] {
      ParseNothing();
    } else {
      var c, rest := CommandBytes(cmds[0]), Wire(cmds[1..]);
      if c <= w {
        var w' := w[|c|..];
        PrefixSplit(c, w', c + rest);
        assert w == c + w' && (c + rest)[|c|..] == rest;
        ParseCommand(cmds[0], w');
        PrefixOfWire(w', cmds[1..]);
        assert AsReplies(cmds[..n]) == [AsReply(cmds[0])] + AsReplies(cmds[1..][..n - 1]);
      } else {
        Unfinished(w, cmds[0], rest);
      }
    }
  }

  lemma Unfinished(w: bytes, args: seq<bytes>, rest: bytes)
    requires Sendable(args) && w <= CommandBytes(args) + rest && !(CommandBytes(args) <= w)
    ensures ParseItem(0, w).More?
  {
    hide CommandBytes, ParseItem;
    var c := CommandBytes(args);
    assert c <= c + rest && |w| < |c|;
    var x := c[|w|..];
    assert w == (c + rest)[..|w|] == c[..|w|] && c == w + x;
    ParseCommand(args, []);
    assert c + [] == c;
    if !ParseItem(0, w).More? {
      ItemStable(0, w, x);
    }
  }

  /** What has been written out, cut in any way, is read back as the commands that are
      complete in it. */
  method ReadBack(c: Context, ghost cmds: seq<seq<bytes>>, chunks: seq<bytes>)
    returns (reader: RespReader.Reader, rs: seq<RespReader.ReplyObject>)
    requires c.Sent() == Wire(cmds) && Concat(chunks) == c.written
    requires forall i :: 0 <= i < |cmds| ==> Sendable(cmds[i])
    ensures reader.err == None
    ensures |rs| <= |cmds| && RespReader.AllDenote(rs, AsReplies(cmds[..|rs|]), reader.region)
    ensures forall m :: 0 <= m <= |cmds| ==> (Wire(cmds[..m]) <= c.written <==> m <= |rs|)
  {
    hide ParseStream, Wire, Whole, RespReader.Reader.Valid;
    reader := new RespReader.Reader();
    rs := reader.FeedAndDrain(chunks);
    PrefixOfWire(c.written, cmds);
    WholeIsLargest(c.written, cmds);
  }

  // ----- The whole way -----

  /** w cut into pieces of the given sizes, as far as it goes, and the rest. */
  function Cut(w: bytes, sizes: seq<nat>): (pieces: seq<bytes>)
    ensures Concat(pieces) == w
  {
    if sizes == [] || sizes[0] > |w| then
      assert Concat([w]) == w + Concat([]);
      [w]
    else
      [w[..sizes[0]]] + Cut(w[sizes[0]..], sizes[1..])
  }

  /** A command whose size fits an `int` is sendable. */
  lemma {:induction false} SmallIsSendable(args: seq<bytes>, n: nat)
    requires |ArgsBytes(args)| <= n
    ensures |args| <= n && forall i :: 0 <= i < |args| ==> |args[i]| <= n
    decreases |args|
  {
    hide Dec;
    if args != [] {
      SmallIsSendable(args[1..], n - |BulkBytes(args[0])|);
      assert forall i :: 0 < i < |args| ==> args[i] == args[1..][i - 1];
    }
  }

  lemma {:induction false} AppendedSendable(ops: seq<Op>)
    requires forall i :: 0 <= i < |ops| && ops[i].Append? ==> |CommandBytes(ops[i].args)| <= INT_MAX
    ensures forall i :: 0 <= i < |Appended(ops)| ==> Sendable(Appended(ops)[i])
  {
    hide ArgsBytes, Header;
    if ops != [] {
      AppendedSendable(ops[..|ops| - 1]);
      var last := ops[|ops| - 1];
      if last.Append? {
        SmallIsSendable(last.args, INT_MAX);
      }
    }
  }

  /** Commands formatted and appended, written out in parts in any order of operations,
      cut in any way and read: the objects stand for the first commands, as many as are
      complete in what was written. */
  method EndToEnd(ops: seq<Op>, sizes: seq<nat>)
    returns (c: Context, reader: RespReader.Reader, rs: seq<RespReader.ReplyObject>)
    requires forall i :: 0 <= i < |ops| && ops[i].Append? ==> |CommandBytes(ops[i].args)| <= INT_MAX
    ensures c.written + c.obuf.text == Wire(Appended(ops)) && reader.err == None
    ensures |rs| <= |Appended(ops)| && RespReader.AllDenote(rs, AsReplies(Appended(ops)[..|rs|]), reader.region)
    ensures forall m :: 0 <= m <= |Appended(ops)| ==> (Wire(Appended(ops)[..m]) <= c.written <==> m <= |rs|)
  {
    hide Wire, Appended, CommandBytes;
    c := new Context();
    var out := RunOps(c, ops);
    AppendedSendable(ops);
    reader, rs := ReadBack(c, Appended(ops), Cut(out, sizes));
  }
}
