/** The two tokenisers of the router: one for patterns, one for the URI of a request. */
module Router {
  import opened Bytes

  const SLASH: byte := 47
  const URI_MAX: nat := 32

  /** The non-empty stretches between slashes, where `cur` has been read already. */
  function Segments(s: bytes, cur: bytes): seq<bytes> {
    if s == [] then Segment(cur)
    else if s[0] == SLASH then Segment(cur) + Segments(s[1..], [])
    else Segments(s[1..], cur + [s[0]])
  }

  function Segment(cur: bytes): seq<bytes> {
    if cur == [] then [] else [cur]
  }

  // ----- Paths written out -----

  function Slashes(n: nat): bytes {
    if n == 0 then [] else [47] + Slashes(n - 1)
  }

  /** Segments with slashes before each and after the last. */
  function Path(segments: seq<bytes>, gaps: seq<nat>): bytes
    requires |gaps| == |segments| + 1
  {
    Slashes(gaps[0]) + if segments == [] then [] else segments[0] + Path(segments[1..], gaps[1..])
  }

  lemma {:induction false} SlashesRead(n: nat, s: bytes, cur: bytes)
    ensures Segments(Slashes(n) + s, cur) == if n == 0 then Segments(s, cur) else Segment(cur) + Segments(s, [])
    decreases n
  {
    if n == 0 {
      assert [] + s == s;
    } else {
      var t := Slashes(n) + s;
      assert t[0] == 47 && t[1..] == Slashes(n - 1) + s;
      assert Segments(t, cur) == Segment(cur) + Segments(t[1..], []);
      hide Segments;
      SlashesRead(n - 1, s, []);
      assert [] + Segments(s, []) == Segments(s, []);
    }
  }

  lemma {:induction false} PathRead(segments: seq<bytes>, gaps: seq<nat>, cur: bytes)
    requires |gaps| == |segments| + 1 && forall i :: 0 < i < |segments| ==> gaps[i] > 0
    requires forall w :: w in segments ==> w != [] && 47 !in w
    requires cur != [] && segments != [] ==> gaps[0] > 0
    ensures Segments(Path(segments, gaps), cur) == Segment(cur) + segments
    decreases |segments|
  {
    if segments == [] {
      assert Path(segments, gaps) == Slashes(gaps[0]) + [];
      SlashesRead(gaps[0], [], cur);
      assert Segments([], []) == [];
    } else {
      var w, s := segments[0], Path(segments[1..], gaps[1..]);
      assert w in segments && [w] + segments[1..] == segments;
      SlashesRead(gaps[0], w + s, cur);
      assert (w + s)[..|w|] == w && (w + s)[|w|..] == s && [] + w == w;
      ReadOn(w + s, |w|, []);
      PathRead(segments[1..], gaps[1..], w);
    }
  }

  /** The segments of a path are those it was written from, however many slashes there are. */
  lemma SegmentsExact(segments: seq<bytes>, gaps: seq<nat>)
    requires |gaps| == |segments| + 1 && forall i :: 0 < i < |segments| ==> gaps[i] > 0
    requires forall w :: w in segments ==> w != [] && 47 !in w
    ensures Segments(Path(segments, gaps), []) == segments
  {
    PathRead(segments, gaps, []);
  }

  // ----- router_split_pattern -----

  /** The first slash from i on, if any. */
  method CharSearch(s: bytes, i: nat) returns (end: Option<nat>)
    requires i <= |s|
    ensures end.None? ==> SLASH !in s[i..]
    ensures end.Some? ==> i <= end.value < |s| && s[end.value] == SLASH && SLASH !in s[i..end.value]
  {
    for j := i to |s|
      invariant SLASH !in s[i..j]
    {
      if s[j] == SLASH {
        return Some(j);
      }
    }
    assert s[i..] == s[i..|s|];
    end := None;
  }

  /** The segments from position i on. */
  ghost function Left(s: bytes, i: nat): seq<bytes> {
    if i <= |s| then Segments(s[i..], []) else []
  }

  method SplitPattern(pattern: bytes) returns (list: seq<bytes>)
    ensures list == Segments(pattern, [])
  {
    hide Segments, Left;
    list := [];
    var i := 0;
    LeftStart(pattern);
    while i < |pattern|
      invariant Segments(pattern, []) == list + Left(pattern, i)
    {
      var end := CharSearch(pattern, i);
      if end.Some? {
        SlashNext(pattern, i, end.value);
        Regroup(list, Segment(pattern[i..end.value]), Left(pattern, end.value + 1));
        if i == end.value {
          i := i + 1;
          continue;
        }
        list := list + [pattern[i..end.value]];
        i := end.value + 1;
      } else {
        LeftLast(pattern, i);
        list := list + [pattern[i..]];
        i := |pattern| + 1;
      }
    }
    LeftEnd(pattern, i);
    Regroup(list, [], []);
  }

  lemma LeftStart(s: bytes)
    ensures Segments(s, []) == [] + Left(s, 0)
  {
    assert s[0..] == s;
  }

  lemma LeftLast(s: bytes, i: nat)
    requires i < |s| && SLASH !in s[i..]
    ensures Left(s, i) == [s[i..]] + Left(s, |s| + 1)
  {
    NoSlash(s[i..], []);
    assert [] + s[i..] == s[i..];
  }

  lemma LeftEnd(s: bytes, i: nat)
    requires i >= |s|
    ensures Left(s, i) == []
  {
  }

  lemma {:induction false} ReadOn(s: bytes, k: nat, cur: bytes)
    requires k <= |s| && SLASH !in s[..k]
    ensures Segments(s, cur) == Segments(s[k..], cur + s[..k])
  {
    if k == 0 {
      assert s[0..] == s && cur + s[..0] == cur;
    } else {
      assert s[..k][0] == s[0] && s[1..][..k - 1] == s[1..k];
      ReadOn(s[1..], k - 1, cur + [s[0]]);
      assert cur + [s[0]] + s[1..k] == cur + s[..k];
      assert s[1..][k - 1..] == s[k..];
    }
  }

  lemma SlashNext(s: bytes, i: nat, end: nat)
    requires i <= end < |s| && s[end] == SLASH && SLASH !in s[i..end]
    ensures Left(s, i) == Segment(s[i..end]) + Left(s, end + 1)
  {
    var t := s[i..];
    assert t[..end - i] == s[i..end];
    ReadOn(t, end - i, []);
    assert [] + s[i..end] == s[i..end];
    assert t[end - i..] == s[end..] && s[end..][1..] == s[end + 1..];
  }

  lemma NoSlash(s: bytes, cur: bytes)
    requires SLASH !in s
    ensures Segments(s, cur) == Segment(cur + s)
  {
    assert s[..|s|] == s && s[|s|..] == [];
    ReadOn(s, |s|, cur);
  }

  // ----- duda_router_uri_parse -----

  class RouterUri {
    var len: nat
    const fields: array<bytes>

    constructor ()
      ensures len == 0 && fields.Length == URI_MAX && fresh(fields)
    {
      len := 0;
      fields := new bytes[URI_MAX];
    }

    ghost predicate Holds(segments: seq<bytes>)
      reads this, fields
    {
      fields.Length == URI_MAX && len <= URI_MAX && fields[..len] == Take(segments)
    }

    /** Kept, unless the table is full. */
    method Add(buf: bytes, ghost segments: seq<bytes>)
      requires Holds(segments)
      modifies this, fields
      ensures Holds(segments + [buf])
    {
      if len >= URI_MAX {
        return;
      }
      fields[len] := buf;
      len := len + 1;
    }
  }

  /** The first 32. */
  function Take(segments: seq<bytes>): seq<bytes> {
    if |segments| <= URI_MAX then segments else segments[..URI_MAX]
  }

  lemma TakeIs(segments: seq<bytes>)
    ensures |segments| <= 32 ==> Take(segments) == segments
    ensures |segments| > 32 ==> |Take(segments)| == 32 && Take(segments) < segments
  {
  }

  /** The segments after the first slash. */
  function AfterSlash(s: bytes): seq<bytes> {
    if s == [] then [] else if s[0] == SLASH then Segments(s[1..], []) else AfterSlash(s[1..])
  }

  /** What is still to come at position i, with the last slash at `start` or none pending. */
  ghost function Rest(uri: bytes, i: nat, start: int): seq<bytes>
    requires i <= |uri| && -1 <= start < i
  {
    if start == -1 then AfterSlash(uri[i..]) else Segments(uri[i..], uri[start + 1..i])
  }

  /** A slash that ends a field is looked at again, as the start of the next. */
  method UriParse(uri: bytes, table: RouterUri)
    requires table.fields.Length == URI_MAX
    modifies table, table.fields
    ensures table.Holds(AfterSlash(uri))
  {
    hide Segments, AfterSlash, Take, RouterUri.Holds, Rest;
    table.len := 0;
    var i, start := 0, -1;
    ghost var done: seq<bytes> := [];
    NoneYet(table, uri);
    while i < |uri|
      invariant 0 <= i <= |uri| && -1 <= start < i
      invariant table.Holds(done) && AfterSlash(uri) == done + Rest(uri, i, start)
      decreases 2 * (|uri| - i) + if start == -1 then 0 else 1
    {
      RestStep(uri, i, start);
      if uri[i] != SLASH {
        i := i + 1;
        continue;
      }
      if start == -1 {
        start := i;
        i := i + 1;
        continue;
      }
      Regroup(done, Segment(uri[start + 1..i]), Rest(uri, i, -1));
      var end := i;
      i := i - 1;
      var size := end - start - 1;
      if size > 0 {
        table.Add(uri[start + 1..start + 1 + size], done);
        done := done + [uri[start + 1..end]];
      }
      start := -1;
      i := i + 1;
    }
    RestEnd(uri, start);
    Regroup(done, [], []);
    if start >= 0 {
      var size := |uri| - start - 1;
      if size > 0 {
        assert uri[start + 1..start + 1 + size] == uri[start + 1..];
        table.Add(uri[start + 1..start + 1 + size], done);
      }
    }
  }

  lemma NoneYet(table: RouterUri, uri: bytes)
    requires table.fields.Length == URI_MAX && table.len == 0
    ensures table.Holds([]) && AfterSlash(uri) == [] + Rest(uri, 0, -1)
  {
    assert uri[0..] == uri;
  }

  lemma RestStep(uri: bytes, i: nat, start: int)
    requires i < |uri| && -1 <= start < i
    ensures uri[i] != SLASH ==> Rest(uri, i, start) == Rest(uri, i + 1, start)
    ensures uri[i] == SLASH && start == -1 ==> Rest(uri, i, start) == Rest(uri, i + 1, i)
    ensures uri[i] == SLASH && start != -1 ==> Rest(uri, i, start) == Segment(uri[start + 1..i]) + Rest(uri, i, -1)
  {
    assert uri[i..][0] == uri[i] && uri[i..][1..] == uri[i + 1..];
    if start >= 0 {
      assert uri[start + 1..i] + [uri[i]] == uri[start + 1..i + 1];
    }
    assert uri[i + 1..i + 1] == [];
  }

  lemma RestEnd(uri: bytes, start: int)
    requires -1 <= start < |uri|
    ensures Rest(uri, |uri|, start) == if start == -1 then [] else Segment(uri[start + 1..])
  {
    assert uri[|uri|..] == [];
    if start >= 0 {
      assert uri[start + 1..|uri|] == uri[start + 1..];
    }
  }

  /** The tokenisers agree exactly on the empty string and on strings that start with a
      slash; on any other the URI parser loses the first segment. */
  lemma TokenisersAgree(uri: bytes)
    ensures AfterSlash(uri) == Segments(uri, []) <==> uri == [] || uri[0] == SLASH
  {
    if uri != [] && uri[0] != SLASH {
      assert [] + [uri[0]] == [uri[0]];
      OneMore(uri[1..], [uri[0]]);
    }
  }

  lemma {:induction false} OneMore(s: bytes, cur: bytes)
    requires cur != []
    ensures |Segments(s, cur)| == 1 + |AfterSlash(s)|
  {
    if s != [] && s[0] != SLASH {
      OneMore(s[1..], cur + [s[0]]);
    }
  }
}
