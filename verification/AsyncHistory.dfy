/** What has happened on an asynchronous connection: the commands it accepted, the
    callbacks it took from its queue and with which reply, and those it called. */
module AsyncHistory {
  import opened Bytes
  import opened Resp
  import opened RespMachine
  import opened CallbackList

  /** A callback taken from the queue, with the reply it got (none for NULL). */
  datatype Delivery = Delivery(cb: Callback, reply: Option<Reply>)

  /** `answered` of the deliveries carried a reply. */
  datatype History = History(
    accepted: seq<Callback>,
    delivered: seq<Delivery>,
    called: seq<Delivery>,
    answered: nat,
    received: bytes)

  const NOTHING: History := History([], [], [], 0, [])

  function Callbacks(ds: seq<Delivery>): seq<Callback> {
    seq(|ds|, i requires 0 <= i < |ds| => ds[i].cb)
  }

  /** The deliveries whose callback is a function. */
  function Calls(ds: seq<Delivery>): seq<Delivery> {
    if ds == [] then []
    else Calls(ds[..|ds| - 1]) + if ds[|ds| - 1].cb.fn.Some? then [ds[|ds| - 1]] else []
  }

  /** Deliveries and queue together are the accepted commands in order; a function is
      called exactly when its callback is delivered; and the k-th delivery with a reply
      carries the k-th reply of the bytes received. */
  ghost predicate Consistent(h: History, queue: seq<Callback>) {
    && Callbacks(h.delivered) + queue == h.accepted
    && h.called == Calls(h.delivered)
    && Paired(h)
  }

  ghost predicate Paired(h: History) {
    && h.answered <= |h.delivered| && h.answered <= |ParseStream(h.received).replies|
    && forall k :: 0 <= k < |h.delivered| ==>
         h.delivered[k].reply == if k < h.answered then Some(ParseStream(h.received).replies[k]) else None
  }

  /** A new command joins the end of the queue. */
  function Accept(h: History, cb: Callback): History {
    h.(accepted := h.accepted + [cb])
  }

  /** The first callback of the queue is taken. */
  function Take(h: History, cb: Callback, reply: Option<Reply>): History {
    h.(delivered := h.delivered + [Delivery(cb, reply)],
       answered := h.answered + if reply.Some? then 1 else 0)
  }

  /** A callback that is a function is called. */
  function Call(h: History, cb: Callback, reply: Option<Reply>): History {
    if cb.fn.Some? then h.(called := h.called + [Delivery(cb, reply)]) else h
  }

  /** How many of the calls came with a reply. */
  function Answers(calls: seq<Delivery>): nat {
    if calls == [] then 0
    else Answers(calls[..|calls| - 1]) + if calls[|calls| - 1].reply.Some? then 1 else 0
  }

  lemma AnswersNext(h: History, cb: Callback, reply: Option<Reply>)
    ensures Answers(Call(h, cb, reply).called) ==
            Answers(h.called) + if cb.fn.Some? && reply.Some? then 1 else 0
  {
    assert Call(h, cb, reply).called[..|h.called|] == h.called;
  }

  lemma AcceptKeeps(h: History, queue: seq<Callback>, cb: Callback)
    requires Consistent(h, queue)
    ensures Consistent(Accept(h, cb), queue + [cb])
  {
    assert Callbacks(h.delivered) + (queue + [cb]) == Callbacks(h.delivered) + queue + [cb];
  }

  lemma TakeAndCallKeeps(h: History, queue: seq<Callback>, reply: Option<Reply>)
    requires Consistent(h, queue) && queue != []
    requires reply.Some? ==> h.answered == |h.delivered| < |ParseStream(h.received).replies| &&
                             reply.value == ParseStream(h.received).replies[h.answered]
    ensures Consistent(Call(Take(h, queue[0], reply), queue[0], reply), queue[1..])
  {
    hide ParseStream;
    var h' := Take(h, queue[0], reply);
    assert h'.delivered[..|h.delivered|] == h.delivered;
    assert Callbacks(h'.delivered) == Callbacks(h.delivered) + [queue[0]];
    assert Callbacks(h'.delivered) + queue[1..] == Callbacks(h.delivered) + queue;
  }

  /** More bytes never change the replies already there. */
  lemma StreamGrows(s: bytes, x: bytes)
    ensures ParseStream(s).replies <= ParseStream(s + x).replies
  {
    hide Run, ParseStream;
    MachineRefinesGrammar(s);
    MachineRefinesGrammar(s + x);
    RunSplit(IDLE, s, x);
  }

  lemma ReceiveKeeps(h: History, queue: seq<Callback>, x: bytes)
    requires Consistent(h, queue)
    ensures Consistent(h.(received := h.received + x), queue)
  {
    hide ParseStream;
    StreamGrows(h.received, x);
  }

  // ----- What consistency says once the context is gone -----

  /** The positions of the calls among the deliveries. */
  function Positions(ds: seq<Delivery>): seq<nat> {
    if ds == [] then []
    else
      var n := |ds| - 1;
      Positions(ds[..n]) + if ds[n].cb.fn.Some? then [n] else []
  }

  lemma {:induction false} PositionsOfCalls(ds: seq<Delivery>)
    ensures |Positions(ds)| == |Calls(ds)|
    ensures forall k :: 0 <= k < |Positions(ds)| ==> Positions(ds)[k] < |ds| && ds[Positions(ds)[k]] == Calls(ds)[k]
  {
    if ds != [] {
      var n := |ds| - 1;
      PositionsOfCalls(ds[..n]);
      var at := Positions(ds[..n]);
      assert forall k :: 0 <= k < |at| ==> ds[..n][at[k]] == ds[at[k]];
    }
  }

  lemma {:induction false} PositionsIncrease(ds: seq<Delivery>)
    ensures forall k :: 0 <= k < |Positions(ds)| ==> Positions(ds)[k] < |ds|
    ensures forall j, k :: 0 <= j < k < |Positions(ds)| ==> Positions(ds)[j] < Positions(ds)[k]
  {
    if ds != [] { PositionsIncrease(ds[..|ds| - 1]); }
  }

  lemma {:induction false} PositionsComplete(ds: seq<Delivery>, i: nat)
    requires i < |ds|
    ensures i in Positions(ds) <==> ds[i].cb.fn.Some?
  {
    var n := |ds| - 1;
    PositionsIncrease(ds[..n]);
    if i < n {
      PositionsComplete(ds[..n], i);
    } else {
      assert n !in Positions(ds[..n]);
      assert ds[n].cb.fn.Some? ==> Positions(ds)[|Positions(ds[..n])|] == n;
    }
  }

  /** The calls are one for each accepted callback that is a function, in the order of
      acceptance (`at` gives their positions): the k-th accepted command is called with
      the k-th reply, or with NULL if the replies had run out. */
  ghost predicate OneCallEach(h: History, at: seq<nat>) {
    && |at| == |h.called|
    && (forall k :: 0 <= k < |at| ==> at[k] < |h.accepted| && h.called[k].cb == h.accepted[at[k]])
    && (forall j, k :: 0 <= j < k < |at| ==> at[j] < at[k])
    && (forall i: nat :: i < |h.accepted| ==> (h.accepted[i].fn.Some? <==> i in at))
    && h.answered <= |ParseStream(h.received).replies|
    && (forall k :: 0 <= k < |at| ==>
          h.called[k].reply == if at[k] < h.answered then Some(ParseStream(h.received).replies[at[k]]) else None)
  }

  /** Once nothing is queued any more, every accepted callback has been called once. */
  lemma EachCallbackOnce(h: History) returns (at: seq<nat>)
    requires Consistent(h, [])
    ensures OneCallEach(h, at)
  {
    hide ParseStream;
    at := Positions(h.delivered);
    assert Callbacks(h.delivered) == h.accepted;
    PositionsOfCalls(h.delivered);
    PositionsIncrease(h.delivered);
    forall i: nat | i < |h.accepted| ensures h.accepted[i].fn.Some? <==> i in at {
      PositionsComplete(h.delivered, i);
    }
  }
}
