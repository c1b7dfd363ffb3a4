/** The request protocol of Redis, read strictly: every byte of a command is looked at. */
module CommandWire {
  import opened Bytes
  import opened Decimal
  import opened Command

  /** The digits s begins with. */
  function DigitCount(s: bytes): (k: nat)
    ensures k <= |s| && AllDigits(s[..k]) && (k < |s| ==> !(48 <= s[k] <= 57))
  {
    if s == [] || !(48 <= s[0] <= 57) then 0
    else
      var k := DigitCount(s[1..]);
      assert s[..k + 1] == [s[0]] + s[1..][..k];
      k + 1
  }

  /** A numeral without zeros in front, CR, LF. */
  function ReadCount(s: bytes): Option<(nat, bytes)> {
    var k := DigitCount(s);
    if Canonical(s[..k]) && k + 2 <= |s| && s[k] == 13 && s[k + 1] == 10 then Some((Worth(s[..k]), s[k + 2..]))
    else None
  }

  /** `$`, the length, that many bytes, CR, LF. */
  function ReadBulk(s: bytes): Option<(bytes, bytes)> {
    if s == [] || s[0] != 36 then None
    else match ReadCount(s[1..])
      case None => None
      case Some((n, t)) =>
        if n + 2 <= |t| && t[n] == 13 && t[n + 1] == 10 then Some((t[..n], t[n + 2..])) else None
  }

  function ReadBulks(n: nat, s: bytes): Option<(seq<bytes>, bytes)> {
    if n == 0 then Some(([], s))
    else match ReadBulk(s)
      case None => None
      case Some((arg, t)) =>
        match ReadBulks(n - 1, t)
        case None => None
        case Some((args, u)) => Some(([arg] + args, u))
  }

  /** `*`, the number of arguments, and as many bulks. */
  function ReadCommand(s: bytes): Option<(seq<bytes>, bytes)> {
    if s == [] || s[0] != 42 then None
    else match ReadCount(s[1..])
      case None => None
      case Some((n, t)) => ReadBulks(n, t)
  }

  lemma {:induction false} DigitCountIs(d: bytes, rest: bytes)
    requires AllDigits(d) && (rest != [] ==> !(48 <= rest[0] <= 57))
    ensures DigitCount(d + rest) == |d|
  {
    if d == [] {
      assert d + rest == rest;
    } else {
      assert (d + rest)[1..] == d[1..] + rest;
      DigitCountIs(d[1..], rest);
    }
  }

  lemma CountExact(s: bytes, n: nat, rest: bytes)
    ensures ReadCount(s) == Some((n, rest)) <==> s == Dec(n) + CRLF + rest
  {
    hide Dec, Worth;
    if s == Dec(n) + CRLF + rest {
      DecIs(n);
      assert s == Dec(n) + (CRLF + rest);
      DigitCountIs(Dec(n), CRLF + rest);
      assert s[..|Dec(n)|] == Dec(n) && s[|Dec(n)| + 2..] == rest;
    }
    if ReadCount(s) == Some((n, rest)) {
      var k := DigitCount(s);
      DecOnly(s[..k]);
      assert s == s[..k] + s[k..k + 2] + s[k + 2..] && s[k..k + 2] == CRLF;
    }
  }

  lemma BulkExact(s: bytes, arg: bytes, rest: bytes)
    ensures ReadBulk(s) == Some((arg, rest)) <==> s == BulkBytes(arg) + rest
  {
    hide Dec, ReadCount;
    var t := arg + CRLF + rest;
    if s == BulkBytes(arg) + rest {
      assert s[1..] == Dec(|arg|) + CRLF + t;
      CountExact(s[1..], |arg|, t);
      assert t[..|arg|] == arg && t[|arg| + 2..] == rest;
    }
    if ReadBulk(s) == Some((arg, rest)) {
      var (n, u) := ReadCount(s[1..]).value;
      CountExact(s[1..], n, u);
      assert u == u[..n] + u[n..n + 2] + u[n + 2..] && u[n..n + 2] == CRLF;
      assert s == [s[0]] + s[1..];
      assert [DOLLAR] + (Dec(n) + CRLF + (arg + CRLF + rest)) == BulkBytes(arg) + rest;
    }
  }

  lemma {:induction false} BulksExact(s: bytes, args: seq<bytes>, rest: bytes)
    ensures ReadBulks(|args|, s) == Some((args, rest)) <==> s == ArgsBytes(args) + rest
    decreases |args|
  {
    hide ReadBulk, BulkBytes;
    if args == [] {
      assert [] + rest == rest;
    } else {
      var tail := ArgsBytes(args[1..]) + rest;
      assert ArgsBytes(args) + rest == BulkBytes(args[0]) + tail;
      assert [args[0]] + args[1..] == args;
      BulksExact(tail, args[1..], rest);
      BulkExact(s, args[0], tail);
      if ReadBulks(|args|, s) == Some((args, rest)) {
        var (arg, t) := ReadBulk(s).value;
        var (more, u) := ReadBulks(|args| - 1, t).value;
        assert ([arg] + more)[0] == arg && ([arg] + more)[1..] == more;
        BulksExact(t, args[1..], rest);
      }
    }
  }

  lemma {:induction false} BulksCount(n: nat, s: bytes)
    ensures ReadBulks(n, s).Some? ==> |ReadBulks(n, s).value.0| == n
    decreases n
  {
    if n > 0 && ReadBulk(s).Some? {
      BulksCount(n - 1, ReadBulk(s).value.1);
    }
  }

  /** The strict reader accepts the bytes of a command, gives back its arguments and leaves
      the rest; and it accepts nothing else. */
  lemma CommandExact(s: bytes, args: seq<bytes>, rest: bytes)
    ensures ReadCommand(s) == Some((args, rest)) <==> s == CommandBytes(args) + rest
  {
    hide Dec, ReadCount, ReadBulks, ArgsBytes;
    var t := ArgsBytes(args) + rest;
    if s == CommandBytes(args) + rest {
      assert s[1..] == Dec(|args|) + CRLF + t;
      CountExact(s[1..], |args|, t);
      BulksExact(t, args, rest);
    }
    if ReadCommand(s) == Some((args, rest)) {
      var (n, u) := ReadCount(s[1..]).value;
      BulksCount(n, u);
      CountExact(s[1..], n, u);
      BulksExact(u, args, rest);
      assert s == [s[0]] + s[1..];
      assert [STAR] + (Dec(n) + CRLF + t) == CommandBytes(args) + rest;
    }
  }

  /** "*1\r\n$4\r\nPING\r\n" */
  lemma Ping()
    ensures CommandBytes([[80, 73, 78, 71]]) == [42, 49, 13, 10, 36, 52, 13, 10, 80, 73, 78, 71, 13, 10]
  {
    var args: seq<bytes> := [[80, 73, 78, 71]];
    assert args[1..] == [];
    assert ArgsBytes(args) == BulkBytes(args[0]) + ArgsBytes(args[1..]);
  }
}
