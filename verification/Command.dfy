/** The command formatter: two passes, one that sizes the command and one that writes
    it; and the scan that finds the arguments of a formatted command. */
module Command {
  import opened Bytes
  import opened Decimal

  // ----- The wire format -----

  function BulkBytes(arg: bytes): bytes {
    [DOLLAR] + Dec(|arg|) + CRLF + arg + CRLF
  }

  function ArgsBytes(args: seq<bytes>): bytes {
    if args == [] then [] else BulkBytes(args[0]) + ArgsBytes(args[1..])
  }

  function Header(n: nat): bytes {
    [STAR] + Dec(n) + CRLF
  }

  /** A command on the wire. */
  function CommandBytes(args: seq<bytes>): bytes {
    Header(|args|) + ArgsBytes(args)
  }

  lemma {:induction false} ArgsBytesAppend(args: seq<bytes>, last: bytes)
    ensures ArgsBytes(args + [last]) == ArgsBytes(args) + BulkBytes(last)
  {
    if args == [] {
      assert args + [last] == [last] && [last][1..] == [];
      assert ArgsBytes([last]) == BulkBytes(last) + ArgsBytes([]);
    } else {
      assert (args + [last])[1..] == args[1..] + [last];
      ArgsBytesAppend(args[1..], last);
      var a, b, c := BulkBytes(args[0]), ArgsBytes(args[1..]), BulkBytes(last);
      assert a + (b + c) == (a + b) + c;
    }
  }

  lemma ArgsBytesTake(args: seq<bytes>, i: nat)
    requires i < |args|
    ensures ArgsBytes(args[..i + 1]) == ArgsBytes(args[..i]) + BulkBytes(args[i])
  {
    assert args[..i + 1] == args[..i] + [args[i]];
    ArgsBytesAppend(args[..i], args[i]);
  }

  lemma {:induction false} ArgsBytesGrow(args: seq<bytes>, i: nat)
    requires i <= |args|
    ensures |ArgsBytes(args[..i])| <= |ArgsBytes(args)|
    decreases |args| - i
  {
    if i < |args| {
      ArgsBytesTake(args, i);
      ArgsBytesGrow(args, i + 1);
    } else {
      assert args[..i] == args;
    }
  }

  // ----- Sizing -----

  /** The number of characters `%d` prints for i. */
  method IntLen(i: int) returns (len: nat)
    ensures len == if i < 0 then 1 + |Dec(-i)| else |Dec(i)|
  {
    len := 0;
    var n := i;
    if n < 0 {
      len := len + 1;
      n := -n;
    }
    ghost var whole := len + |Dec(n)|;
    len := len + 1;
    n := n / 10;
    while n != 0
      invariant n >= 0
      invariant len + (if n == 0 then 0 else |Dec(n)|) == whole
      decreases n
    {
      len := len + 1;
      n := n / 10;
    }
  }

  /** What an argument of this length takes as a bulk. The length is narrowed to an `int`
      where its digits are counted. */
  method BulkLen(len: nat) returns (n: nat)
    ensures len <= INT_MAX ==> forall arg: bytes :: |arg| == len ==> n == |BulkBytes(arg)|
  {
    var digits := IntLen(Wrap32(len));
    n := 1 + digits + 2 + len + 2;
  }

  lemma BulkHolds(arg: bytes)
    ensures |arg| <= |BulkBytes(arg)|
  {
  }

  // ----- Writing -----

  /** Write the whole command into a buffer with room for it and a NUL. The second
      assertion of the source, pos == totlen, is the last clause. */
  method Build(args: seq<bytes>, totlen: nat) returns (cmd: array<byte>)
    requires totlen == |CommandBytes(args)|
    ensures fresh(cmd) && cmd.Length == totlen + 1
    ensures cmd[..totlen] == CommandBytes(args) && cmd[totlen] == NUL
  {
    hide BulkBytes, ArgsBytes, Header;
    cmd := new byte[totlen + 1](_ => 0);
    var pos := Store(cmd, 0, Header(|args|));
    NoArgsBytes(args[..0]);
    assert cmd[..pos] == Header(|args|) + ArgsBytes(args[..0]);
    for j := 0 to |args|
      invariant pos == |Header(|args|)| + |ArgsBytes(args[..j])|
      invariant pos <= totlen && cmd[..pos] == Header(|args|) + ArgsBytes(args[..j])
    {
      ArgsBytesTake(args, j);
      ArgsBytesGrow(args, j + 1);
      Regroup(Header(|args|), ArgsBytes(args[..j]), BulkBytes(args[j]));
      pos := PutBulk(cmd, pos, args[j]);
    }
    assert args[..|args|] == args;
    assert pos == totlen;
    cmd[pos] := NUL;
  }

  lemma NoArgsBytes(args: seq<bytes>)
    requires args == []
    ensures ArgsBytes(args) == []
  {
  }

  method PutBulk(cmd: array<byte>, pos: nat, arg: bytes) returns (end: nat)
    requires pos + |BulkBytes(arg)| <= cmd.Length
    modifies cmd
    ensures end == pos + |BulkBytes(arg)| && cmd[..end] == old(cmd[..pos]) + BulkBytes(arg)
  {
    end := Store(cmd, pos, [DOLLAR] + Dec(|arg|) + CRLF);
    end := Store(cmd, end, arg);
    end := Store(cmd, end, CRLF);
  }

  /** The memory at argv[j] and its length: given, or up to the first NUL. */
  function StrLen(s: bytes): (n: nat)
    requires NUL in s
    ensures n < |s| && s[n] == NUL && NUL !in s[..n]
  {
    if s[0] == NUL then 0
    else
      assert s == [s[0]] + s[1..];
      var n := StrLen(s[1..]);
      assert s[..n + 1] == [s[0]] + s[1..][..n];
      n + 1
  }

  predicate ArgsGiven(argv: seq<bytes>, argvlen: Option<seq<nat>>) {
    match argvlen
    case None => forall j :: 0 <= j < |argv| ==> NUL in argv[j]
    case Some(lens) => |lens| == |argv| && forall j :: 0 <= j < |argv| ==> lens[j] <= |argv[j]|
  }

  function Args(argv: seq<bytes>, argvlen: Option<seq<nat>>): (args: seq<bytes>)
    requires ArgsGiven(argv, argvlen)
    ensures |args| == |argv|
  {
    seq(|argv|, j requires 0 <= j < |argv| =>
      argv[j][..if argvlen.None? then StrLen(argv[j]) else argvlen.value[j]])
  }

  method FormatCommandArgv(argv: seq<bytes>, argvlen: Option<seq<nat>>) returns (cmd: array<byte>, totlen: nat)
    requires ArgsGiven(argv, argvlen)
    requires |CommandBytes(Args(argv, argvlen))| <= INT_MAX
    ensures fresh(cmd) && cmd.Length == totlen + 1
    ensures cmd[..totlen] == CommandBytes(Args(argv, argvlen)) && cmd[totlen] == NUL
  {
    var args := Args(argv, argvlen);
    var digits := IntLen(|argv|);
    totlen := 1 + digits + 2;
    for j := 0 to |argv|
      invariant totlen == |Header(|args|)| + |ArgsBytes(args[..j])|
    {
      var len := if argvlen.Some? then argvlen.value[j] else StrLen(argv[j]);
      ArgsBytesTake(args, j);
      ArgsBytesGrow(args, j + 1);
      BulkHolds(args[j]);
      var n := BulkLen(len);
      assert n == |BulkBytes(args[j])|;
      totlen := totlen + n;
    }
    assert args[..|argv|] == args;
    cmd := Build(args, totlen);
  }
}
