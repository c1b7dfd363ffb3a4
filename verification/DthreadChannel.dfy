/** A buffered channel between cooperative threads. A send to a full channel and a receive
    from an empty one hand control to the other side before they go on, so anything can
    happen to the channel between the test and the rest of the call; the test is not
    repeated. */
module DthreadChannel {
  import opened Bytes

  // ----- The channel as a transition system -----

  /** The size is one more than asked for. `waiting` and `starving` are the calls that have
      handed control over; `stored` and `taken` are what has ever gone in and come out. */
  datatype Chan<T> = Chan(
    size: int, bufs: seq<T>, open: bool, ended: bool, done: bool,
    waiting: seq<T>, starving: nat, stored: seq<T>, taken: seq<T>)

  function New<T>(n: int, open: bool): Chan<T> {
    Chan(n + 1, [], open, false, false, [], 0, [], [])
  }

  datatype Event<T> =
    | Send(data: T)
    | SendResumed(k: nat)
    | Receive
    | ReceiveResumed
    | End
    | SetReceiver(there: bool)

  /** Aborts: an assertion of the source fails. Undefined: the first element of an empty
      list is taken. */
  datatype Outcome<T> = Goes(chan: Chan<T>) | Aborts | Undefined

  function Put<T>(c: Chan<T>, x: T): Chan<T> {
    c.(bufs := c.bufs + [x], stored := c.stored + [x])
  }

  function Got<T>(c: Chan<T>): Outcome<T> {
    if c.bufs == [] then Undefined
    else Goes(c.(bufs := c.bufs[1..], taken := c.taken + [c.bufs[0]], done := c.done || (|c.bufs| == 1 && c.ended)))
  }

  /** A call that is resumed goes on without looking again. Resuming a call that does not
      exist is no event. */
  function Step<T>(c: Chan<T>, e: Event<T>): Outcome<T> {
    match e
    case Send(x) =>
      Goes(if !c.open then c else if |c.bufs| == c.size then c.(waiting := c.waiting + [x]) else Put(c, x))
    case SendResumed(k) =>
      Goes(if k >= |c.waiting| then c else Put(c.(waiting := c.waiting[..k] + c.waiting[k + 1..]), c.waiting[k]))
    case Receive =>
      if c.done then Aborts
      else if c.bufs == [] then Goes(c.(starving := c.starving + 1)) else Got(c)
    case ReceiveResumed => if c.starving == 0 then Goes(c) else Got(c.(starving := c.starving - 1))
    case End => Goes(c.(ended := true))
    case SetReceiver(there) => Goes(c.(open := there))
  }

  function Run<T>(c: Chan<T>, events: seq<Event<T>>): Outcome<T>
    decreases |events|
  {
    if events == [] then Goes(c)
    else match Step(c, events[0])
      case Goes(d) => Run(d, events[1..])
      case o => o
  }

  /** The event puts an element into the buffer. */
  predicate Stores<T>(c: Chan<T>, e: Event<T>) {
    || (e.Send? && c.open && |c.bufs| != c.size)
    || (e.SendResumed? && e.k < |c.waiting|)
  }

  // ----- Order and loss -----

  /** What was stored is what was taken and then what is buffered, in order. */
  lemma {:induction false} NothingLost<T>(c: Chan<T>, events: seq<Event<T>>)
    requires c.stored == c.taken + c.bufs && Run(c, events).Goes?
    ensures var d := Run(c, events).chan; d.stored == d.taken + d.bufs
    decreases |events|
  {
    hide Step;
    if events != [] {
      StepKeepsAll(c, events[0]);
      NothingLost(Step(c, events[0]).chan, events[1..]);
    }
  }

  lemma StepKeepsAll<T>(c: Chan<T>, e: Event<T>)
    requires c.stored == c.taken + c.bufs && Step(c, e).Goes?
    ensures var d := Step(c, e).chan; d.stored == d.taken + d.bufs
  {
    if c.bufs != [] {
      Regroup(c.taken, [c.bufs[0]], c.bufs[1..]);
      assert c.bufs == [c.bufs[0]] + c.bufs[1..];
    }
  }

  /** What is sent while the channel has a receiver. */
  ghost function SentTo<T>(c: Chan<T>, events: seq<Event<T>>): seq<T>
    decreases |events|
  {
    if events == [] then []
    else
      (if events[0].Send? && c.open then [events[0].data] else []) +
      if Step(c, events[0]).Goes? then SentTo(Step(c, events[0]).chan, events[1..]) else []
  }

  /** Every element sent is stored once or still waits, and no other is. */
  lemma {:induction false} SendsAccounted<T>(c: Chan<T>, events: seq<Event<T>>)
    requires Run(c, events).Goes?
    ensures var d := Run(c, events).chan;
            multiset(d.stored) + multiset(d.waiting) == multiset(c.stored) + multiset(c.waiting) + multiset(SentTo(c, events))
    decreases |events|
  {
    hide Step;
    if events != [] {
      var d := Step(c, events[0]).chan;
      StepAccounted(c, events[0]);
      SendsAccounted(d, events[1..]);
    }
  }

  lemma StepAccounted<T>(c: Chan<T>, e: Event<T>)
    requires Step(c, e).Goes?
    ensures var d := Step(c, e).chan;
            multiset(d.stored) + multiset(d.waiting) ==
            multiset(c.stored) + multiset(c.waiting) + multiset(if e.Send? && c.open then [e.data] else [])
  {
    if e.SendResumed? && e.k < |c.waiting| {
      var k := e.k;
      assert c.waiting == c.waiting[..k] + [c.waiting[k]] + c.waiting[k + 1..];
    }
  }

  /** With the receiver gone and no send under way nothing is stored any more. */
  lemma {:induction false} BrokenStoresNothing<T>(c: Chan<T>, events: seq<Event<T>>)
    requires !c.open && c.waiting == [] && Run(c, events).Goes?
    requires forall i :: 0 <= i < |events| ==> !events[i].SetReceiver?
    ensures Run(c, events).chan.stored == c.stored
    decreases |events|
  {
    if events != [] {
      BrokenStoresNothing(Step(c, events[0]).chan, events[1..]);
    }
  }

  // ----- Capacity -----

  ghost predicate AlwaysFits<T>(c: Chan<T>, events: seq<Event<T>>)
    decreases |events|
  {
    && |c.bufs| <= c.size
    && (events != [] && Step(c, events[0]).Goes? ==> AlwaysFits(Step(c, events[0]).chan, events[1..]))
  }

  /** Nothing is stored into a full buffer. */
  ghost predicate NeverOverfills<T>(c: Chan<T>, events: seq<Event<T>>)
    decreases |events|
  {
    events != [] ==>
      && !(Stores(c, events[0]) && |c.bufs| == c.size)
      && (Step(c, events[0]).Goes? ==> NeverOverfills(Step(c, events[0]).chan, events[1..]))
  }

  /** The buffer stays within its size through a run exactly when no send that waited is
      resumed while the buffer is still full. */
  lemma {:induction false} FitsExactly<T>(c: Chan<T>, events: seq<Event<T>>)
    requires |c.bufs| <= c.size
    ensures AlwaysFits(c, events) <==> NeverOverfills(c, events)
    decreases |events|
  {
    if events != [] && Step(c, events[0]).Goes? {
      var d := Step(c, events[0]).chan;
      if |d.bufs| <= d.size {
        FitsExactly(d, events[1..]);
      }
    }
  }

  function Sends<T>(xs: seq<T>): seq<Event<T>> {
    if xs == [] then [] else [Send(xs[0])] + Sends(xs[1..])
  }

  /** As long as the buffer is not exactly full, sends are stored at once. */
  lemma {:induction false} SendsStored<T>(c: Chan<T>, xs: seq<T>)
    requires c.open && (|c.bufs| > c.size || |c.bufs| + |xs| <= c.size)
    ensures Run(c, Sends(xs)) == Goes(c.(bufs := c.bufs + xs, stored := c.stored + xs))
    decreases |xs|
  {
    if xs == [] {
      assert c.bufs + [] == c.bufs && c.stored + [] == c.stored;
    } else {
      assert Sends(xs)[1..] == Sends(xs[1..]);
      SendsStored(Put(c, xs[0]), xs[1..]);
      assert [xs[0]] + xs[1..] == xs;
      Regroup(c.bufs, [xs[0]], xs[1..]);
      Regroup(c.stored, [xs[0]], xs[1..]);
    }
  }

  lemma {:induction false} RunAppend<T>(c: Chan<T>, first: seq<Event<T>>, more: seq<Event<T>>)
    requires Run(c, first).Goes?
    ensures Run(c, first + more) == Run(Run(c, first).chan, more)
    decreases |first|
  {
    hide Step;
    if first == [] {
      assert first + more == more;
    } else {
      assert (first + more)[1..] == first[1..] + more;
      RunAppend(Step(c, first[0]).chan, first[1..], more);
    }
  }

  /** A full channel, one send that waits and is resumed without a receive, and the test for
      a full buffer never fires again: any number of sends goes in. */
  lemma GrowsWithoutBound<T>(n: nat, xs: seq<T>, x: T, more: seq<T>)
    requires |xs| == n + 1
    ensures var run := Run(New(n, true), Sends(xs) + [Send(x), SendResumed(0)] + Sends(more));
            run.Goes? && run.chan.bufs == xs + [x] + more && |run.chan.bufs| == run.chan.size + 1 + |more|
  {
    hide Run, Sends;
    var c := New(n, true);
    SendsStored(c, xs);
    var full := Run(c, Sends(xs)).chan;
    assert full.bufs == xs;
    RunAppend(c, Sends(xs), [Send(x), SendResumed(0)]);
    Overfill(full, x);
    var over := Put(full, x);
    RunAppend(c, Sends(xs) + [Send(x), SendResumed(0)], Sends(more));
    SendsStored(over, more);
  }

  lemma Overfill<T>(c: Chan<T>, x: T)
    requires c.open && |c.bufs| == c.size && c.waiting == []
    ensures Run(c, [Send(x), SendResumed(0)]) == Goes(Put(c, x))
  {
    var w := c.(waiting := [x]);
    assert c.waiting + [x] == [x];
    assert Step(c, Send(x)) == Goes(w);
    assert w.waiting[..0] + w.waiting[1..] == [];
    assert Step(w, SendResumed(0)) == Goes(Put(c, x));
    var es: seq<Event<T>> := [Send(x), SendResumed(0)];
    assert es[1..][0] == SendResumed(0) && es[1..][1..] == [];
    assert Run(w, es[1..]) == Run(Put(c, x), es[1..][1..]) == Goes(Put(c, x));
  }

  // ----- The end -----

  ghost predicate AlwaysDrained<T>(c: Chan<T>, events: seq<Event<T>>)
    decreases |events|
  {
    && (c.done ==> c.bufs == [])
    && (events != [] && Step(c, events[0]).Goes? ==> AlwaysDrained(Step(c, events[0]).chan, events[1..]))
  }

  ghost predicate NothingAfterDone<T>(c: Chan<T>, events: seq<Event<T>>)
    decreases |events|
  {
    events != [] ==>
      && !(Stores(c, events[0]) && c.done)
      && (Step(c, events[0]).Goes? ==> NothingAfterDone(Step(c, events[0]).chan, events[1..]))
  }

  /** A channel that is done has nothing left to receive exactly when nothing is stored
      into a channel that is done. */
  lemma {:induction false} DoneExactly<T>(c: Chan<T>, events: seq<Event<T>>)
    requires c.done ==> c.bufs == []
    ensures AlwaysDrained(c, events) <==> NothingAfterDone(c, events)
    decreases |events|
  {
    if events != [] && Step(c, events[0]).Goes? {
      var d := Step(c, events[0]).chan;
      if d.done ==> d.bufs == [] {
        DoneExactly(d, events[1..]);
      }
    }
  }

  function Receives<T>(n: nat): seq<Event<T>> {
    if n == 0 then [] else [Receive] + Receives(n - 1)
  }

  /** Receiving empties the buffer in order; a channel that was ended is then done. */
  lemma {:induction false} ReceivesTaken<T>(c: Chan<T>)
    requires !c.done
    ensures Run(c, Receives(|c.bufs|)) ==
            Goes(c.(bufs := [], taken := c.taken + c.bufs, done := c.ended && c.bufs != []))
    decreases |c.bufs|
  {
    if c.bufs == [] {
      assert c.taken + [] == c.taken;
    } else {
      var n := |c.bufs|;
      assert Receives<T>(n)[1..] == Receives<T>(n - 1);
      var d := Got(c).chan;
      assert Step(c, Receive) == Goes(d);
      assert c.bufs == [c.bufs[0]] + c.bufs[1..];
      Regroup(c.taken, [c.bufs[0]], c.bufs[1..]);
      if n == 1 {
        assert c.bufs[1..] == [];
      } else {
        ReceivesTaken(d);
      }
    }
  }

  /** What is sent is received, and one receive more waits, or fails if the sender has ended
      the channel. */
  lemma SentReceived<T>(n: nat, xs: seq<T>, end: bool)
    requires 0 < |xs| <= n + 1
    ensures var events := Sends(xs) + (if end then [End] else []) + Receives(|xs|);
            && Run(New(n, true), events).Goes? && Run(New(n, true), events).chan.taken == xs
            && if end then Run(New(n, true), events + [Receive]).Aborts?
               else Run(New(n, true), events + [Receive]).Goes? && Run(New(n, true), events + [Receive]).chan.starving == 1
  {
    hide Run, Sends, Receives;
    var c, ends := New(n, true), if end then [End] else [];
    var first := Sends(xs) + ends;
    SendsStored(c, xs);
    var full := c.(bufs := c.bufs + xs, stored := c.stored + xs);
    RunAppend(c, Sends(xs), ends);
    EndRun(full, end);
    var ready := full.(ended := end);
    assert ready.bufs == xs && ready.taken + xs == xs;
    RunAppend(c, first, Receives(|xs|));
    ReceivesTaken(ready);
    var last := Run(c, first + Receives(|xs|)).chan;
    RunAppend(c, first + Receives(|xs|), [Receive]);
    OneMore(last);
  }

  lemma EndRun<T>(c: Chan<T>, end: bool)
    requires !c.ended
    ensures Run(c, if end then [End] else []) == Goes(c.(ended := end))
  {
    var es: seq<Event<T>> := [End];
    assert es[1..] == [];
  }

  lemma OneMore<T>(c: Chan<T>)
    requires c.bufs == []
    ensures Run(c, [Receive]) == if c.done then Aborts else Goes(c.(starving := c.starving + 1))
  {
    var es: seq<Event<T>> := [Receive];
    assert es[1..] == [];
  }

  // ----- The element list: linked both ways, in a ring through its head -----

  class Link<T> {
    const data: Option<T>
    var prev: Link<T>
    var next: Link<T>

    constructor (data: Option<T>)
      ensures this.data == data && prev == this && next == this
    {
      this.data := data;
      prev, next := this, this;
    }
  }

  class Ring<T> {
    const head: Link<T>
    /** The links from the head on, and the data of those behind it. */
    ghost var links: seq<Link<T>>
    ghost var contents: seq<T>

    ghost predicate Valid()
      reads this, links
    {
      && |links| == |contents| + 1 && links[0] == head
      && (forall i, j :: 0 <= i < j < |links| ==> links[i] != links[j])
      && (forall i :: 0 <= i < |links| - 1 ==> links[i].next == links[i + 1])
      && (forall i :: 0 < i < |links| ==> links[i].prev == links[i - 1])
      && links[|links| - 1].next == head && head.prev == links[|links| - 1]
      && (forall i :: 0 <= i < |contents| ==> links[i + 1].data == Some(contents[i]))
    }

    constructor ()
      ensures Valid() && contents == [] && fresh(head) && links == [head]
    {
      head := new Link(None);
      new;
      links, contents := [head], [];
    }

    /** At the end, which is just before the head. */
    method Add(x: T)
      requires Valid()
      modifies this, links
      ensures Valid() && contents == old(contents) + [x]
      ensures exists e :: fresh(e) && links == old(links) + [e]
    {
      var e := new Link(Some(x));
      var last := head.prev;
      head.prev := e;
      e.next := head;
      e.prev := last;
      last.next := e;
      links, contents := links + [e], contents + [x];
    }

    method IsEmpty() returns (b: bool)
      requires Valid()
      ensures b == (contents == [])
    {
      b := head.next == head;
      assert |links| > 1 ==> links[0].next == links[0 + 1] && links[0] != links[1];
    }

    /** The first element, unlinked. */
    method TakeFirst() returns (x: T)
      requires Valid() && contents != []
      modifies this, links
      ensures Valid() && old(contents) == [x] + contents
      ensures forall i :: 0 <= i < |links| ==> links[i] in old(links)
    {
      var e := head.next;
      assert e == links[0 + 1] && e.data == Some(contents[0]);
      x := e.data.value;
      Unlink(e);
    }

    /** Take e, the first link behind the head, out. */
    method Unlink(e: Link<T>)
      requires Valid() && |links| > 1 && e == links[1]
      modifies this, links
      ensures Valid() && contents == old(contents)[1..]
      ensures forall i :: 0 <= i < |links| ==> links[i] in old(links)
    {
      var after := e.next;
      ghost var was := links;
      assert after == if |was| == 2 then head else was[1 + 1];
      head.next := after;
      after.prev := head;
      assert forall i :: 2 <= i < |was| - 1 ==> was[i].next == was[i + 1];
      assert forall i :: 2 < i < |was| ==> was[i].prev == was[i - 1];
      links, contents := [head] + was[2..], contents[1..];
      assert |was| > 2 ==> links[1] == after && links[|links| - 1] == was[|was| - 1];
      forall i | 1 <= i < |links|
        ensures links[i] == was[i + 1] && (i < |links| - 1 ==> links[i].next == links[i + 1]) && links[i].prev == links[i - 1]
      {
      }
      forall i | 0 <= i < |contents| ensures links[i + 1].data == Some(contents[i]) {
        assert was[i + 1 + 1].data == Some(old(contents)[i + 1]);
      }
    }
  }

  // ----- The channel object -----

  datatype Answer<T> = Broken | Sent | Received(data: T) | HandedOver | Failed | Garbage | Nothing

  /** What the receivers were given, in the order they were given it. */
  function Delivered<T>(answers: seq<Answer<T>>): seq<T> {
    if answers == [] then []
    else Delivered(answers[..|answers| - 1]) + Given(answers[|answers| - 1])
  }

  function Given<T>(a: Answer<T>): seq<T> {
    if a.Received? then [a.data] else []
  }

  /** The call ended in state c with this answer as the transition system says. */
  ghost predicate Agrees<T>(o: Outcome<T>, c: Chan<T>, a: Answer<T>) {
    match o
    case Goes(d) => d == c && !a.Failed? && !a.Garbage?
    case Aborts => a.Failed?
    case Undefined => a.Garbage?
  }

  class Channel<T> {
    const size: int
    var used: int
    const bufs: Ring<T>
    var receiver: int
    var ended: bool
    var done: bool
    /** The calls that have handed control over: what they send, and how many receive. */
    var waiting: seq<T>
    var starving: nat
    ghost var stored: seq<T>
    ghost var taken: seq<T>

    ghost predicate Valid()
      reads this, bufs, bufs.links
    {
      bufs.Valid() && used == |bufs.contents| && stored == taken + bufs.contents
    }

    ghost function Now(): Chan<T>
      reads this, bufs
    {
      Chan(size, bufs.contents, receiver != -1, ended, done, waiting, starving, stored, taken)
    }

    /** The links in use were there or are new. */
    twostate predicate Grows()
      reads this, bufs
    {
      forall i :: 0 <= i < |bufs.links| ==> bufs.links[i] in old(bufs.links) || fresh(bufs.links[i])
    }

    constructor (n: int)
      ensures Valid() && Now() == New(n, false) && fresh(bufs) && fresh(bufs.head) && bufs.links == [bufs.head]
    {
      size, used, receiver, ended, done := n + 1, 0, -1, false, false;
      bufs := new Ring();
      waiting, starving, stored, taken := [], 0, [], [];
    }

    /** Up to the point where a send is answered or hands control to the receiver. */
    method Send(data: T) returns (a: Answer<T>)
      requires Valid()
      modifies this, bufs, bufs.links
      ensures Valid() && Grows() && Agrees(Step(old(Now()), Event.Send(data)), Now(), a)
      ensures a == if old(receiver) == -1 then Broken else if |old(bufs.contents)| == size then HandedOver else Sent
    {
      hide Ring.Valid;
      if receiver == -1 {
        return Broken;
      }
      if used == size {
        waiting := waiting + [data];
        return HandedOver;
      }
      Store(data);
      return Sent;
    }

    /** The rest of a send that had handed control over. */
    method SendResumed(k: nat) returns (a: Answer<T>)
      requires Valid()
      modifies this, bufs, bufs.links
      ensures Valid() && Grows() && Agrees(Step(old(Now()), Event.SendResumed(k)), Now(), a)
      ensures a == if k < |old(waiting)| then Sent else Nothing
    {
      hide Ring.Valid;
      if k >= |waiting| {
        return Nothing;
      }
      var data := waiting[k];
      waiting := waiting[..k] + waiting[k + 1..];
      Store(data);
      return Sent;
    }

    method Store(data: T)
      requires Valid()
      modifies this`used, this`stored, bufs, bufs.links
      ensures Valid() && Grows() && Now() == Put(old(Now()), data)
    {
      hide Ring.Valid;
      bufs.Add(data);
      used := used + 1;
      stored := stored + [data];
      assert stored == taken + bufs.contents;
    }

    /** Up to the point where a receive is answered or hands control to the sender. */
    method Receive() returns (a: Answer<T>)
      requires Valid()
      modifies this, bufs, bufs.links
      ensures Valid() && Grows() && Agrees(Step(old(Now()), Event.Receive), Now(), a)
      ensures taken == old(taken) + Given(a)
      ensures a == if old(done) then Failed
                   else if old(bufs.contents) == [] then HandedOver
                   else Received(old(bufs.contents)[0])
    {
      hide Ring.Valid;
      if done {
        return Failed;
      }
      if used == 0 {
        starving := starving + 1;
        return HandedOver;
      }
      a := Take();
    }

    /** The rest of a receive that had handed control over. */
    method ReceiveResumed() returns (a: Answer<T>)
      requires Valid()
      modifies this, bufs, bufs.links
      ensures Valid() && Grows() && Agrees(Step(old(Now()), Event.ReceiveResumed), Now(), a)
      ensures taken == old(taken) + Given(a)
      ensures a == if old(starving) == 0 then Nothing
                   else if old(bufs.contents) == [] then Garbage
                   else Received(old(bufs.contents)[0])
    {
      hide Ring.Valid;
      if starving == 0 {
        return Nothing;
      }
      starving := starving - 1;
      var none := bufs.IsEmpty();
      if none {
        return Garbage;
      }
      a := Take();
    }

    method Take() returns (a: Answer<T>)
      requires Valid() && bufs.contents != []
      modifies this`used, this`done, this`taken, bufs, bufs.links
      ensures Valid() && Grows() && Got(old(Now())) == Goes(Now()) && a == Received(old(bufs.contents)[0])
    {
      hide Ring.Valid;
      var data := bufs.TakeFirst();
      used := used - 1;
      if used == 0 && ended {
        done := true;
      }
      taken := taken + [data];
      assert old(bufs.contents)[1..] == bufs.contents;
      Regroup(old(taken), [data], bufs.contents);
      a := Received(data);
    }

    /** Any interleaving of the calls of all threads: the object goes through the states of
        the transition system and stops where that does, and what the receivers were given
        is, in order, what has left it. */
    method Play(events: seq<Event<T>>) returns (answers: seq<Answer<T>>)
      requires Valid()
      modifies this, bufs, bufs.links
      ensures Valid() && Grows()
      ensures if Run(old(Now()), events).Goes? then Run(old(Now()), events).chan == Now() && |answers| == |events|
              else answers != [] && Agrees(Run(old(Now()), events), Now(), answers[|answers| - 1])
      ensures taken == old(taken) + Delivered(answers)
    {
      hide Ring.Valid, Step;
      answers := [];
      ghost var c := Now();
      assert events[0..] == events;
      for i := 0 to |events|
        invariant Valid() && Grows() && Run(c, events) == Run(Now(), events[i..])
        invariant |answers| == i && taken == old(taken) + Delivered(answers)
      {
        assert events[i..][0] == events[i] && events[i..][1..] == events[i + 1..];
        var a := Do(events[i]);
        Regroup(old(taken), Delivered(answers), Given(a));
        answers := answers + [a];
        assert answers[..i] + [a] == answers && answers[..i] == answers[..|answers| - 1];
        if a.Failed? || a.Garbage? {
          return;
        }
      }
    }

    method Do(e: Event<T>) returns (a: Answer<T>)
      requires Valid()
      modifies this, bufs, bufs.links
      ensures Valid() && Grows() && Agrees(Step(old(Now()), e), Now(), a)
      ensures taken == old(taken) + Given(a)
    {
      hide Ring.Valid;
      match e
      case Send(x) => a := Send(x);
      case SendResumed(k) => a := SendResumed(k);
      case Receive => a := Receive();
      case ReceiveResumed => a := ReceiveResumed();
      case End =>
        ended := true;
        a := Nothing;
      case SetReceiver(there) =>
        receiver := if there then 0 else -1;
        a := Nothing;
    }
  }
}
