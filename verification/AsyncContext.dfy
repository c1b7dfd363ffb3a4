/** The asynchronous context: commands with callbacks, replies handed out in order, and
    teardown, for a context that never subscribes to a channel. Callbacks are arbitrary
    programs over the context's own operations. */
module AsyncContext {
  import opened Bytes
  import opened Resp
  import opened RespMachine
  import opened CallbackList
  import opened AsyncActions
  import opened AsyncHistory
  import Command
  import Pipeline

  // ----- Events -----

  /** What the socket says while connecting. */
  datatype Connecting = InProgress | Refused | Established

  /** What read(2) did. */
  datatype ReadResult = Bytes(data: bytes) | ReadAgain | ReadFailed

  datatype Event =
    | Act(a: Action)
    | Readable(c: Connecting, r: ReadResult)
    | Writable(c: Connecting, w: Pipeline.WriteResult)

  /** The reader has decoded exactly the replies of the bytes received, and the first
      `answered` of them have been handed out. */
  ghost predicate InStep(received: bytes, answered: nat, decoded: seq<Reply>, m: Machine, rest: bytes,
      e: Option<ReadError>) {
    var all := ParseStream(received).replies;
    && Run(IDLE, received) == Result(all, m, rest, e)
    && answered <= |all| && decoded == all[answered..]
  }

  lemma InStepNext(received: bytes, answered: nat, decoded: seq<Reply>, m: Machine, rest: bytes, e: Option<ReadError>)
    requires InStep(received, answered, decoded, m, rest, e) && decoded != []
    ensures answered < |ParseStream(received).replies| && decoded[0] == ParseStream(received).replies[answered]
    ensures InStep(received, answered + 1, decoded[1..], m, rest, e)
  {
    hide ParseStream, Run;
  }

  lemma InStepFeed(received: bytes, answered: nat, decoded: seq<Reply>, m: Machine, rest: bytes, x: bytes)
    requires InStep(received, answered, decoded, m, rest, None)
    ensures var r := Run(m, rest + x);
            InStep(received + x, answered, decoded + r.out, r.m, r.rest, r.error)
  {
    hide ParseStream, Run;
    RunSplit(IDLE, received, x);
    MachineRefinesGrammar(received + x);
    var all, more := ParseStream(received).replies, Run(m, rest + x).out;
    assert (all + more)[answered..] == all[answered..] + more;
  }

  // ----- What was performed, and what it explains -----

  /** `performed` is what the program and its callbacks have done up to the beginning of
      teardown, `sent` every byte written or still buffered. */
  datatype Books = Books(
    plan: seq<seq<Action>>, performed: seq<Action>, accepted: seq<Callback>, called: seq<Delivery>, sent: bytes,
    script: seq<seq<Action>>, tearing: bool, disconnecting: bool, freeing: bool)

  /** The commands accepted, and the bytes for the socket, are those taken from what was
      performed; the closing flags say whether it closed the context; and each call with a
      reply has used one entry of the script. */
  ghost predicate Balanced(b: Books) {
    && b.accepted == Taken(b.performed) && b.sent == TakenBytes(b.performed)
    && (!b.tearing ==> b.disconnecting == (Disconnect in b.performed) && b.freeing == (Free in b.performed))
    && (!b.tearing ==> b.script == Drop(b.plan, Answers(b.called)))
  }

  lemma IssueBalances(b: Books, a: Action)
    requires Balanced(b) && !b.tearing && a.Issue? && a.args != []
    ensures var taken := !b.disconnecting && !b.freeing && Classify(a.args) == Regular;
            Balanced(b.(performed := b.performed + [a],
                        accepted := b.accepted + (if taken then [a.cb] else []),
                        sent := b.sent + if taken then Command.CommandBytes(a.args) else []))
  {
    hide Classify, Command.CommandBytes, Answers;
    TakenNext(b.performed, a);
  }

  lemma CloseBalances(b: Books, a: Action)
    requires Balanced(b) && !b.tearing && !a.Issue?
    ensures Balanced(b.(performed := b.performed + [a],
                        disconnecting := b.disconnecting || a.Disconnect?, freeing := b.freeing || a.Free?))
  {
    hide Classify, Command.CommandBytes, Answers;
    TakenNext(b.performed, a);
    Regroup(b.accepted, [], []);
    Regroup(b.sent, [], []);
  }

  /** A call with a reply uses the next entry of the script, if there is one. */
  lemma CallBalances(b: Books, d: Delivery)
    requires Balanced(b) && d.reply.Some? && !b.tearing
    ensures Balanced(b.(called := b.called + [d], script := if b.script == [] then [] else b.script[1..]))
  {
    assert (b.called + [d])[..|b.called|] == b.called;
  }

  /** Once teardown has begun only what was performed before counts. */
  lemma TearBalances(b: Books, c: Books)
    requires Balanced(b) && c.tearing && c.performed == b.performed && c.accepted == b.accepted && c.sent == b.sent
    ensures Balanced(c)
  {
  }

  /** What the next entry of the script is. */
  lemma UsedNext(b: Books)
    requires Balanced(b) && !b.tearing
    ensures var n := Answers(b.called);
            Used(b.plan, n, n) == [] && Used(b.plan, n, n + 1) == if b.script == [] then [] else b.script[0]
  {
  }

  lemma OpenFlags(b: Books)
    requires Balanced(b) && !b.tearing
    ensures StaysOpen(b.performed) == (!b.disconnecting && !b.freeing)
  {
  }

  lemma SentIs(b: Books)
    requires Balanced(b)
    ensures b.accepted == Taken(b.performed) && b.sent == TakenBytes(b.performed)
  {
  }

  lemma NothingBalances(plan: seq<seq<Action>>)
    ensures Balanced(Books(plan, [], [], [], [], plan, false, false, false))
  {
    assert plan[0..] == plan;
  }

  // ----- What a run of events asks for -----

  predicate Connects(e: Event) {
    !e.Act? && e.c.Established?
  }

  predicate ConnectedBy(connected: bool, events: seq<Event>) {
    connected || exists i :: 0 <= i < |events| && Connects(events[i])
  }

  /** The bytes that are read: nothing while the context is not connected. */
  function ReceivedBy(connected: bool, events: seq<Event>): bytes {
    if events == [] then []
    else
      var e := events[|events| - 1];
      ReceivedBy(connected, events[..|events| - 1]) +
      if e.Readable? && e.r.Bytes? && ConnectedBy(connected, events) then e.r.data else []
  }

  /** The connect callback runs when the socket first tells how the connection ended. */
  function Greeting(connected: bool, e: Event, connect: seq<Action>): seq<Action> {
    if e.Act? || connected || e.c.InProgress? then [] else connect
  }

  /** Everything that is done: by the program, by the connect callback, and by the reply
      callbacks, of which event i runs those from cuts[i] up to cuts[i + 1]. */
  function Doings(connected: bool, events: seq<Event>, connect: seq<Action>, plan: seq<seq<Action>>,
      cuts: seq<nat>): seq<Action>
    requires |cuts| == |events| + 1
  {
    if events == [] then []
    else
      var n := |events| - 1;
      Doings(connected, events[..n], connect, plan, cuts[..n + 1]) +
      Deed(ConnectedBy(connected, events[..n]), events[n], connect, plan, cuts[n], cuts[n + 1])
  }

  function Deed(connected: bool, e: Event, connect: seq<Action>, plan: seq<seq<Action>>, i: nat, j: nat): seq<Action> {
    if e.Act? then [e.a] else Greeting(connected, e, connect) + Used(plan, i, j)
  }

  /** Only a readable socket brings replies. */
  predicate Cuts(events: seq<Event>, cuts: seq<nat>) {
    && |cuts| == |events| + 1
    && forall i :: 0 <= i < |events| ==> if events[i].Readable? then cuts[i] <= cuts[i + 1] else cuts[i] == cuts[i + 1]
  }

  class Context {
    var connected: bool
    var disconnecting: bool
    var freeing: bool
    var inCallback: bool
    var err: bool
    var obuf: bytes
    const replies: List
    /** The reader: what it has decoded and not handed out, and its state after that. */
    var decoded: seq<Reply>
    var machine: Machine
    var rest: bytes
    var readErr: Option<ReadError>
    /** What the callbacks still to be called are going to do, one entry per call. */
    var script: seq<seq<Action>>
    /** What the connect and disconnect callbacks do when they are called. */
    const onConnectDoes: seq<Action>
    const onDisconnectDoes: seq<Action>
    var onDisconnect: bool
    /** The statuses given to the disconnect callback. */
    var notified: seq<bool>
    /** An assertion of the source failed: the program stops. */
    var aborted: bool
    var freed: bool

    ghost var h: History
    ghost var tearing: bool
    /** What the program and its callbacks have done, up to the beginning of teardown. */
    ghost var performed: seq<Action>
    /** Every byte handed to the socket. */
    ghost var written: bytes
    /** The whole script. */
    ghost const plan: seq<seq<Action>>

    /** What every operation keeps. */
    ghost predicate Valid()
      reads this, replies, replies.nodes
    {
      replies.Valid() && Consistent(h, replies.contents) && Sound() && Balanced(Ledger())
    }

    ghost function Ledger(): Books
      reads this`performed, this`h, this`written, this`obuf, this`script, this`tearing, this`disconnecting, this`freeing
    {
      Books(plan, performed, h.accepted, h.called, written + obuf, script, tearing, disconnecting, freeing)
    }

    /** What was done, sent and called with a reply is as before. */
    twostate predicate NoDeeds()
      reads this
    {
      performed == old(performed) && written == old(written) && Answers(h.called) == old(Answers(h.called))
    }

    ghost predicate Sound()
      reads this`script, this`tearing, this`disconnecting, this`freeing, this`h, this`decoded, this`machine, this`rest
      reads this`readErr, this`freed, this`notified, this`inCallback, replies
    {
      && Scripted(script) && Commands(onConnectDoes) && Commands(onDisconnectDoes)
      && (tearing ==> disconnecting || freeing)
      && (!tearing ==> h.answered == |h.delivered| && InStep(h.received, h.answered, decoded, machine, rest, readErr))
      && (!freed ==> notified == [])
      && (freed ==> tearing && !inCallback && replies.contents == [])
    }

    ghost predicate Alive()
      reads this, replies, replies.nodes
    {
      Valid() && !freed && !aborted
    }

    /** Nothing that happened is forgotten. */
    twostate predicate Continues()
      reads this, replies
    {
      && replies.SameNodes()
      && old(h.accepted) <= h.accepted && old(h.delivered) <= h.delivered && old(h.called) <= h.called
      && old(written) <= written
    }

    constructor (script: seq<seq<Action>>, connect: seq<Action>, disconnect: seq<Action>, onDisconnect: bool, err: bool)
      requires Scripted(script) && Commands(connect) && Commands(disconnect)
      ensures Alive() && !inCallback && !tearing && h == NOTHING && fresh(replies) && replies.nodes == []
      ensures !connected && !disconnecting && !freeing && obuf == [] && decoded == [] && readErr == None
      ensures replies.contents == [] && machine == IDLE && rest == []
      ensures this.script == script && onConnectDoes == connect && onDisconnectDoes == disconnect
      ensures this.onDisconnect == onDisconnect && this.err == err
      ensures performed == [] && written == [] && plan == script
    {
      connected, disconnecting, freeing, inCallback := false, false, false, false;
      this.err := err;
      obuf := [];
      replies := new List();
      decoded, machine, rest, readErr := [], IDLE, [], None;
      this.script := script;
      onConnectDoes, onDisconnectDoes := connect, disconnect;
      this.onDisconnect := onDisconnect;
      notified := [];
      aborted, freed := false, false;
      h, tearing := NOTHING, false;
      performed, written, plan := [], [], script;
      new;
      NothingBalances(script);
      assert Run(IDLE, []) == Result([], IDLE, [], None);
      MachineRefinesGrammar([]);
    }

    /** Queue the callback and append the command, unless the connection is about to be
        closed. */
    method AsyncCommand(cb: Callback, args: seq<bytes>) returns (ok: bool)
      requires Alive() && NeverSubscribes(Issue(cb, args))
      modifies this`obuf, this`h, this`performed, replies, replies.nodes
      ensures Alive() && Continues()
      ensures performed == old(performed) + if tearing then [] else [Issue(cb, args)]
      ensures ok == (!disconnecting && !freeing && Classify(args) == Regular)
      ensures h == if ok then Accept(old(h), cb) else old(h)
      ensures obuf == if ok then old(obuf) + Command.CommandBytes(args) else old(obuf)
      ensures replies.contents == if ok then old(replies.contents) + [cb] else old(replies.contents)
      ensures tearing ==> !ok
    {
      hide Consistent, InStep, List.Valid, Command.CommandBytes, Scripted, Balanced, Commands, Classify;
      if !tearing {
        IssueBalances(Ledger(), Issue(cb, args));
        Regroup(written, obuf, Command.CommandBytes(args));
        Regroup(h.accepted, [], []);
        Regroup(written + obuf, [], []);
        performed := performed + [Issue(cb, args)];
      }
      if disconnecting || freeing {
        return false;
      }
      if Classify(args) == Unsubscribe {
        return false;
      }
      AcceptKeeps(h, replies.contents, cb);
      replies.Push(cb);
      h := Accept(h, cb);
      obuf := obuf + Command.CommandBytes(args);
      return true;
    }

    /** The commands of a connect or disconnect callback, which runs without the callback
        flag. Once the context is closing they are all refused. */
    method IssueAll(actions: seq<Action>)
      requires Alive() && Commands(actions)
      modifies this`obuf, this`h, this`performed, replies, replies.nodes
      ensures Alive() && Continues() && h == old(h).(accepted := h.accepted)
      ensures performed == old(performed) + if tearing then [] else actions
      ensures disconnecting || freeing ==> h == old(h) && obuf == old(obuf) && replies.contents == old(replies.contents)
      ensures actions == [] ==> h == old(h) && obuf == old(obuf) && replies.contents == old(replies.contents)
    {
      hide Consistent, InStep, List.Valid, Scripted, Classify, Command.CommandBytes, Balanced;
      for i := 0 to |actions|
        invariant Alive() && Continues() && h == old(h).(accepted := h.accepted)
        invariant performed == old(performed) + if tearing then [] else actions[..i]
        invariant disconnecting || freeing || i == 0 ==>
                    h == old(h) && obuf == old(obuf) && replies.contents == old(replies.contents)
      {
        var _ := AsyncCommand(actions[i].cb, actions[i].args);
      }
    }

    /** What a callback leaves alone. */
    twostate predicate Kept()
      reads this
    {
      && tearing == old(tearing) && (old(disconnecting) ==> disconnecting) && (old(freeing) ==> freeing)
      && decoded == old(decoded) && err == old(err) && connected == old(connected) && onDisconnect == old(onDisconnect)
      && readErr == old(readErr) && written == old(written)
    }

    /** What the actions of a callback change: they may add commands, while that is still
        allowed, and set the two closing flags. */
    twostate predicate OnlyActions()
      reads this, replies
    {
      && Continues() && Kept() && script == old(script) && h == old(h).(accepted := h.accepted)
      && (old(disconnecting || freeing) ==> h == old(h) && replies.contents == old(replies.contents))
    }

    /** Run a callback with the given reply: its actions, with the flag set. */
    method RunCallback(cb: Callback, reply: Option<Reply>)
      requires replies.Valid() && Consistent(Call(h, cb, reply), replies.contents) && Sound() && Balanced(Ledger())
      requires !freed && !aborted && !inCallback && reply.Some? != tearing
      modifies this, replies, replies.nodes
      ensures Alive() && !inCallback && Continues() && Kept()
      ensures h == Call(old(h), cb, reply).(accepted := h.accepted)
      ensures performed == old(performed) + if tearing || cb.fn.None? || old(script) == [] then [] else old(script)[0]
      ensures old(disconnecting || freeing) ==> h.accepted == old(h.accepted) && replies.contents == old(replies.contents)
      decreases if inCallback then 0 else 1, 1
    {
      hide Consistent, InStep, List.Valid, Balanced, Commands, Scripted, AllNeverSubscribe, Answers;
      if cb.fn.None? {
        return;
      }
      var actions := Enter(cb, reply);
      PerformAll(actions);
      inCallback := false;
    }

    /** A callback is called; what it will do is the next entry of the script. */
    method Enter(cb: Callback, reply: Option<Reply>) returns (actions: seq<Action>)
      requires replies.Valid() && Consistent(Call(h, cb, reply), replies.contents) && Sound() && Balanced(Ledger())
      requires !freed && !aborted && !inCallback && reply.Some? != tearing && cb.fn.Some?
      modifies this`inCallback, this`h, this`script
      ensures Alive() && inCallback && AllNeverSubscribe(actions) && h == Call(old(h), cb, reply)
      ensures actions == if old(script) == [] then [] else old(script)[0]
    {
      hide Consistent, InStep, List.Valid, Balanced, Commands;
      inCallback := true;
      ghost var books := Ledger();
      if reply.Some? {
        CallBalances(books, Delivery(cb, reply));
      }
      h := Call(h, cb, reply);
      actions := [];
      if script != [] {
        actions, script := script[0], script[1..];
      }
      if tearing {
        TearBalances(books, Ledger());
      }
    }

    /** The actions of a callback. */
    method PerformAll(actions: seq<Action>)
      requires Alive() && inCallback && AllNeverSubscribe(actions)
      modifies this, replies, replies.nodes
      ensures Alive() && inCallback && OnlyActions()
      ensures performed == old(performed) + if tearing then [] else actions
      decreases if inCallback then 0 else 1, 7
    {
      hide Consistent, InStep, List.Valid, Scripted, Balanced, Commands, NeverSubscribes;
      for i := 0 to |actions|
        invariant Alive() && inCallback && OnlyActions()
        invariant performed == old(performed) + if tearing then [] else actions[..i]
      {
        Perform(actions[i]);
      }
    }

    /** One action of a callback. */
    method Perform(a: Action)
      requires Alive() && inCallback && NeverSubscribes(a)
      modifies this, replies, replies.nodes
      ensures Alive() && inCallback && OnlyActions()
      ensures performed == old(performed) + if tearing then [] else [a]
      decreases if inCallback then 0 else 1, 6
    {
      hide Consistent, InStep, List.Valid, Scripted, Classify, Balanced, Commands;
      match a
      case Issue(cb, args) => var _ := AsyncCommand(cb, args);
      case Disconnect => AsyncDisconnect();
      case Free => AsyncFree();
    }

    /** What teardown leaves alone. */
    twostate predicate Ends()
      reads this, replies
    {
      && Continues() && NoDeeds()
      && h.accepted == old(h.accepted) && h.received == old(h.received) && h.answered == old(h.answered)
      && err == old(err) && connected == old(connected) && onDisconnect == old(onDisconnect)
    }

    /** Tear the context down: every callback still queued gets a NULL reply, then the
        disconnect callback its status, and the context is gone. Commands that the
        disconnect callback issues are refused. */
    method FreeNow()
      requires Alive() && !inCallback && (disconnecting || freeing)
      modifies this, replies, replies.nodes
      ensures Valid() && freed && !aborted && Ends()
      ensures notified == if onDisconnect && connected then [freeing || !err] else []
      decreases if inCallback then 0 else 1, 2
    {
      hide Consistent, InStep, List.Valid, Scripted, Balanced, Commands, Answers;
      TearBalances(Ledger(), Ledger().(tearing := true));
      tearing := true;
      RunPending();
      TellDisconnected();
    }

    /** The disconnect callback is told, and the context is gone. */
    method TellDisconnected()
      requires Alive() && !inCallback && tearing && replies.contents == []
      modifies this`obuf, this`h, this`performed, this`notified, this`freed, replies, replies.nodes
      ensures Valid() && freed && replies.SameNodes() && h == old(h) && performed == old(performed)
      ensures notified == if onDisconnect && connected then [freeing || !err] else []
    {
      hide Consistent, InStep, List.Valid, Scripted, Balanced, Commands;
      if onDisconnect && connected {
        IssueAll(onDisconnectDoes);
        notified := notified + [if freeing then true else !err];
      }
      freed := true;
    }

    /** Run all queued callbacks with a NULL reply. */
    method RunPending()
      requires Alive() && !inCallback && tearing
      modifies this, replies, replies.nodes
      ensures Alive() && !inCallback && tearing && Ends() && replies.contents == []
      decreases if inCallback then 0 else 1, 2, 0
    {
      hide Consistent, InStep, List.Valid, Scripted, Balanced, Commands, Answers;
      while true
        invariant Alive() && !inCallback && tearing && Ends()
        decreases |replies.contents|
      {
        ghost var queue := replies.contents;
        var cb := replies.Shift();
        if cb.None? {
          return;
        }
        TakeAndCallKeeps(h, queue, None);
        AnswersNext(h, cb.value, None);
        h := Take(h, cb.value, None);
        RunCallback(cb.value, None);
      }
    }

    method AsyncFree()
      requires Alive()
      modifies this, replies, replies.nodes
      ensures Valid() && !aborted
      ensures old(inCallback) ==> Alive() && inCallback && OnlyActions() && freeing
      ensures !old(inCallback) ==> freed && Continues() && h.accepted == old(h.accepted) && h.received == old(h.received)
      ensures performed == old(performed) + (if old(tearing) then [] else [Free]) && written == old(written)
      ensures Answers(h.called) == old(Answers(h.called))
      decreases if inCallback then 0 else 1, 4
    {
      hide Consistent, InStep, List.Valid, Scripted, Balanced, Commands, Answers;
      if !tearing {
        CloseBalances(Ledger(), Free);
        performed := performed + [Free];
      } else {
        TearBalances(Ledger(), Ledger().(freeing := true));
      }
      freeing := true;
      if !inCallback {
        FreeNow();
      }
    }

    /** Make the disconnect happen. A clean one asserts that nothing is queued. */
    method DisconnectNow()
      requires Alive() && !inCallback && (!err ==> disconnecting)
      modifies this, replies, replies.nodes
      ensures Valid() && Continues() && h.accepted == old(h.accepted) && h.received == old(h.received)
      ensures NoDeeds()
      ensures aborted == (!old(err) && old(replies.contents) != [])
      ensures aborted ==> decoded == old(decoded) && obuf == old(obuf) && err == old(err) &&
                          disconnecting == old(disconnecting) && replies.contents == old(replies.contents)
      ensures freed == !aborted
      decreases if inCallback then 0 else 1, 3
    {
      hide Consistent, InStep, List.Valid, Scripted, Balanced, Commands, Answers;
      if !err {
        var none := replies.IsEmpty();
        if !none {
          aborted := true;
          return;
        }
      } else {
        TearBalances(Ledger(), Ledger().(disconnecting := true, tearing := true));
        disconnecting, tearing := true, true;
      }
      FreeNow();
    }

    method AsyncDisconnect()
      requires Alive()
      modifies this, replies, replies.nodes
      ensures Valid()
      ensures old(inCallback) ==> Alive() && inCallback && OnlyActions() && disconnecting
      ensures !old(inCallback) ==> !aborted && Continues() && h.accepted == old(h.accepted) && h.received == old(h.received)
      ensures !old(inCallback) && old(replies.contents) == [] ==> freed
      ensures !old(inCallback) && old(replies.contents) != [] ==>
                Alive() && !inCallback && OnlyActions() && disconnecting && freeing == old(freeing) &&
                h == old(h) && replies.contents == old(replies.contents) && obuf == old(obuf) && readErr == old(readErr)
      ensures performed == old(performed) + (if old(tearing) then [] else [Disconnect]) && written == old(written)
      ensures Answers(h.called) == old(Answers(h.called))
      decreases if inCallback then 0 else 1, 5
    {
      hide Consistent, InStep, List.Valid, Scripted, Balanced, Commands, Answers;
      if !tearing {
        CloseBalances(Ledger(), Disconnect);
        performed := performed + [Disconnect];
      } else {
        TearBalances(Ledger(), Ledger().(disconnecting := true));
      }
      disconnecting := true;
      var none := replies.IsEmpty();
      if !inCallback && none {
        DisconnectNow();
      }
    }

    /** Between events: no callback is running and teardown has not begun. */
    ghost predicate Idle()
      reads this, replies, replies.nodes
    {
      Alive() && !inCallback && !tearing && !freeing
    }

    /** The context is gone, the program has stopped, or the next event can be handled. */
    ghost predicate Handled()
      reads this, replies, replies.nodes
    {
      Valid() && (freed || aborted || Idle())
    }

    /** The two situations in which an assertion of the source fails: a clean disconnect
        with commands still unanswered, and a reply nobody asked for. */
    ghost predicate AbortReason()
      reads this, replies
    {
      || (disconnecting && !err && obuf == [] && decoded == [] && replies.contents != [])
      || (decoded != [] && !decoded[0].Error? && replies.contents == [])
    }

    /** The reply callbacks that were called did what the script says. */
    twostate predicate RepliesDid()
      reads this
    {
      && written == old(written) && old(Answers(h.called)) <= Answers(h.called)
      && performed == old(performed) + Used(plan, old(Answers(h.called)), Answers(h.called))
    }

    /** Hand out the decoded replies in order. */
    method ProcessCallbacks()
      requires Idle()
      modifies this, replies, replies.nodes
      ensures Handled() && Continues() && RepliesDid() && h.received == old(h.received)
      ensures aborted ==> AbortReason()
      ensures Idle() ==> decoded == [] && readErr == None && !(disconnecting && obuf == []) && SameLink()
      ensures old(decoded == [] && readErr == None) ==>
                aborted == old(disconnecting && !err && obuf == [] && replies.contents != [])
      ensures old(decoded != [] && replies.contents == []) ==> aborted == old(!decoded[0].Error?)
      ensures old(|decoded| <= |replies.contents| && readErr == None) && StaysOpen(performed) ==> Idle()
    {
      hide Consistent, InStep, List.Valid, Scripted, Balanced, Commands, Answers, Used, StaysOpen;
      NoneUsed(plan, Answers(h.called));
      Regroup(performed, [], []);
      ghost var served := |decoded| <= |replies.contents|;
      while decoded != []
        invariant Idle() && Continues() && RepliesDid() && h.received == old(h.received) && SameLink()
        invariant readErr == old(readErr)
        invariant served ==> |decoded| <= |replies.contents|
        invariant old(replies.contents) == [] ==> decoded == old(decoded) && replies.contents == []
        invariant old(decoded) == [] ==> decoded == [] && disconnecting == old(disconnecting) &&
                                         obuf == old(obuf) && replies.contents == old(replies.contents)
        decreases |decoded|
      {
        label before:
        var more := Dispatch();
        UsedAppend(plan, old(Answers(h.called)), old@before(Answers(h.called)), Answers(h.called));
        Regroup(old(performed), Used(plan, old(Answers(h.called)), old@before(Answers(h.called))),
                Used(plan, old@before(Answers(h.called)), Answers(h.called)));
        if !more {
          return;
        }
      }
      OpenFlags(Ledger());
      FinishReplies();
    }

    method FinishReplies()
      requires Idle() && decoded == []
      modifies this, replies, replies.nodes
      ensures Handled() && Continues() && NoDeeds() && h.received == old(h.received)
      ensures aborted ==> AbortReason()
      ensures aborted == old(readErr == None && disconnecting && !err && obuf == [] && replies.contents != [])
      ensures Idle() == old(readErr == None && !(disconnecting && obuf == []))
      ensures Idle() ==> unchanged(this)
    {
      hide Consistent, InStep, List.Valid, Scripted, Balanced, Commands, Answers;
      if readErr.Some? {
        err := true;
        DisconnectNow();
      } else if disconnecting && obuf == [] {
        DisconnectNow();
      }
    }

    /** One reply to the first callback of the queue. */
    method Dispatch() returns (more: bool)
      requires Idle() && decoded != []
      modifies this, replies, replies.nodes
      ensures Continues() && RepliesDid() && h.received == old(h.received)
      ensures more ==> Idle() && decoded == old(decoded)[1..] && old(replies.contents) != [] && SameLink()
      ensures more ==> readErr == old(readErr) && |replies.contents| >= |old(replies.contents)| - 1
      ensures !more ==> Handled() && (freed || aborted)
      ensures aborted ==> AbortReason()
      ensures aborted == old(replies.contents == [] && !decoded[0].Error?)
      ensures old(replies.contents) != [] && StaysOpen(performed) ==> more
    {
      hide Consistent, InStep, List.Valid, Scripted, ParseStream, Balanced, Commands, Answers, Used, StaysOpen;
      UsedNext(Ledger());
      Regroup(performed, [], []);
      var none := replies.IsEmpty();
      if none {
        Unasked();
        return false;
      }
      Serve();
      OpenFlags(Ledger());
      if freeing {
        FreeNow();
        return false;
      }
      return true;
    }

    /** A reply nobody asked for. */
    method Unasked()
      requires Idle() && decoded != [] && replies.contents == []
      modifies this, replies, replies.nodes
      ensures Handled() && (freed || aborted) && Continues() && NoDeeds() && h.received == old(h.received)
      ensures aborted ==> AbortReason()
      ensures aborted == old(!decoded[0].Error?)
    {
      hide Consistent, InStep, List.Valid, Scripted, Balanced, Commands, Answers;
      if decoded[0].Error? {
        err := true;
        DisconnectNow();
      } else {
        aborted := true;
      }
    }

    /** The reply goes to the first callback of the queue. */
    method Serve()
      requires Idle() && decoded != [] && replies.contents != []
      modifies this, replies, replies.nodes
      ensures Alive() && !inCallback && !tearing && Continues() && SameLink()
      ensures h.received == old(h.received) && readErr == old(readErr) && written == old(written)
      ensures decoded == old(decoded)[1..] && |replies.contents| >= |old(replies.contents)| - 1
      ensures var n, m := old(Answers(h.called)), Answers(h.called);
              && m == n + (if old(replies.contents)[0].fn.Some? then 1 else 0)
              && performed == old(performed) + if m == n || old(script) == [] then [] else old(script)[0]
    {
      hide Consistent, InStep, List.Valid, Scripted, ParseStream, Balanced, Commands, Answers;
      ghost var queue := replies.contents;
      var reply := decoded[0];
      var cb := replies.Shift();
      InStepNext(h.received, h.answered, decoded, machine, rest, readErr);
      TakeAndCallKeeps(h, queue, Some(reply));
      AnswersNext(h, cb.value, Some(reply));
      QueueLength(h, queue);
      h := Take(h, cb.value, Some(reply));
      decoded := decoded[1..];
      RunCallback(cb.value, Some(reply));
      QueueLength(h, replies.contents);
    }

    /** The error and the connection are as before. */
    twostate predicate SameLink()
      reads this
    {
      err == old(err) && connected == old(connected)
    }

    /** Nothing of this changes: the history, the queue, the buffers and the reader. */
    twostate predicate Undisturbed()
      reads this, replies
    {
      UndisturbedReader() && obuf == old(obuf)
    }

    twostate predicate UndisturbedReader()
      reads this, replies
    {
      && h == old(h) && replies.contents == old(replies.contents)
      && disconnecting == old(disconnecting) && err == old(err)
      && decoded == old(decoded) && machine == old(machine) && rest == old(rest) && readErr == old(readErr)
    }

    /** The first event on a socket tells whether the connection stands, and the connect
        callback is told. While the connection is still being made, the source leaves the
        error of the test in the context. */
    method HandleConnect(c: Connecting) returns (ok: bool)
      requires Idle() && !connected
      modifies this, replies, replies.nodes
      ensures Handled() && Continues() && h.received == old(h.received) && !aborted
      ensures performed == old(performed) + if c.InProgress? then [] else onConnectDoes
      ensures written == old(written) && Answers(h.called) == old(Answers(h.called))
      ensures ok == !c.Refused? && (ok ==> Idle() && connected == c.Established?) && (!ok ==> freed)
      ensures c.Established? ==> h == old(h).(accepted := h.accepted) && err == old(err)
      ensures c.InProgress? ==> err && h == old(h) && obuf == old(obuf) && replies.contents == old(replies.contents)
      ensures ok ==> disconnecting == old(disconnecting) && decoded == old(decoded) && machine == old(machine) &&
                     rest == old(rest) && readErr == old(readErr)
      ensures c.Established? && (disconnecting || onConnectDoes == []) ==> Undisturbed()
    {
      hide Consistent, InStep, List.Valid, Scripted, Balanced, Commands, Answers;
      match c
      case InProgress =>
        err := true;
        ok := true;
      case Refused =>
        err := true;
        IssueAll(onConnectDoes);
        DisconnectNow();
        ok := false;
      case Established =>
        connected := true;
        IssueAll(onConnectDoes);
        ok := true;
    }

    /** What was read completes no reply. */
    ghost predicate Quiet(r: ReadResult)
      reads this
    {
      || r.ReadAgain?
      || (r.Bytes? && r.data != [] && Run(machine, rest + r.data).out == [] && Run(machine, rest + r.data).error == None)
    }

    /** What was read completes a reply. */
    ghost predicate Brings(r: ReadResult)
      reads this
    {
      r.Bytes? && Run(machine, rest + r.data).out != [] && r.data != []
    }

    ghost predicate BringsError(r: ReadResult)
      reads this
    {
      Brings(r) && Run(machine, rest + r.data).out[0].Error?
    }

    /** What was read is no error, and no more replies than there are callbacks waiting. */
    ghost predicate Expected(r: ReadResult)
      reads this, replies
    {
      || r.ReadAgain?
      || (r.Bytes? && r.data != [] && Run(machine, rest + r.data).error == None &&
          |Run(machine, rest + r.data).out| <= |replies.contents|)
    }

    /** A readable socket. The clauses on `aborted` are exact. When nothing complete
        arrives, the program stops if and only if a disconnect was asked for, everything
        has been written and some command is unanswered. When a reply arrives and no
        command is unanswered, it stops if and only if the reply is not an error. */
    method HandleRead(c: Connecting, r: ReadResult)
      requires Idle()
      modifies this, replies, replies.nodes
      ensures Handled() && Continues()
      ensures old(Answers(h.called)) <= Answers(h.called)
      ensures performed == old(performed) + Deed(old(connected), Readable(c, r), onConnectDoes, plan,
                                                 old(Answers(h.called)), Answers(h.called))
      ensures aborted ==> AbortReason()
      ensures Idle() ==> connected == (old(connected) || c.Established?) && written == old(written) &&
                         h.received == old(h.received) + if connected && r.Bytes? then r.data else []
      ensures old(connected) && (old(err) || r.ReadFailed? || r == Bytes([])) ==> freed
      ensures Idle() ==> if connected then decoded == [] && readErr == None && !err
                         else decoded == old(decoded) && readErr == old(readErr)
      ensures old(connected && !err && decoded == [] && readErr == None && Expected(r)) && StaysOpen(performed) ==> Idle()
      ensures old((connected || c.Established?) && !err && decoded == [] && readErr == None && Quiet(r)) ==>
                aborted == old(disconnecting && obuf == [] && replies.contents != [])
      ensures old(connected && !err && decoded == [] && readErr == None && replies.contents == [] && Brings(r)) ==>
                aborted == !old(BringsError(r))
    {
      hide Consistent, InStep, List.Valid, Scripted, Run, Balanced, Commands, Answers, Used, StaysOpen;
      if !connected {
        var ok := HandleConnect(c);
        if !ok || !connected {
          NoneUsed(plan, Answers(h.called));
          return;
        }
      }
      var read := BufferRead(r);
      if !read {
        DisconnectNow();
      } else {
        ProcessCallbacks();
      }
      NoneUsed(plan, old(Answers(h.called)));
    }

    /** Feed what was read to the reader. An empty read is the end of the stream. */
    method BufferRead(r: ReadResult) returns (ok: bool)
      requires Idle()
      modifies this`err, this`decoded, this`machine, this`rest, this`readErr, this`h
      ensures Idle() && err == !ok
      ensures ok == (!old(err) && (r.ReadAgain? || (r.Bytes? && r.data != [] && old(readErr) == None)))
      ensures h == old(h).(received := old(h.received) + if ok && r.Bytes? then r.data else [])
      ensures !old(err) && old(Quiet(r)) && old(readErr) == None ==> ok && decoded == old(decoded) && readErr == None
      ensures !old(err) && old(Brings(r)) && old(readErr) == None ==>
                ok && decoded == old(decoded) + old(Run(machine, rest + r.data).out)
      ensures !old(err) && old(decoded == [] && Expected(r)) && old(readErr) == None ==>
                ok && readErr == None && |decoded| <= |replies.contents|
    {
      hide Run, Consistent, InStep, List.Valid, Scripted, Balanced, Commands;
      if err {
        return false;
      }
      match r
      case ReadAgain =>
        return true;
      case ReadFailed =>
        err := true;
        return false;
      case Bytes(data) =>
        if data == [] || readErr.Some? {
          err := true;
          return false;
        }
        Feed(data);
        return true;
    }

    method Feed(data: bytes)
      requires Idle() && readErr == None
      modifies this`decoded, this`machine, this`rest, this`readErr, this`h
      ensures Idle() && h == old(h).(received := old(h.received) + data)
      ensures decoded == old(decoded) + old(Run(machine, rest + data).out) && readErr == old(Run(machine, rest + data).error)
    {
      hide Run, Consistent, InStep, List.Valid, Scripted, Balanced, Commands;
      var next := Run(machine, rest + data);
      InStepFeed(h.received, h.answered, decoded, machine, rest, data);
      ReceiveKeeps(h, replies.contents, data);
      h := h.(received := h.received + data);
      decoded, machine, rest, readErr := decoded + next.out, next.m, next.rest, next.error;
      assert InStep(h.received, h.answered, decoded, machine, rest, readErr);
    }

    method HandleWrite(c: Connecting, w: Pipeline.WriteResult)
      requires Idle()
      modifies this, replies, replies.nodes
      ensures Handled() && Continues() && !aborted && h.received == old(h.received)
      ensures Answers(h.called) == old(Answers(h.called))
      ensures performed == old(performed) + Greeting(old(connected), Writable(c, w), onConnectDoes)
      ensures Idle() ==> connected == (old(connected) || c.Established?) && decoded == old(decoded) && readErr == old(readErr)
      ensures Idle() ==> |written| == if connected && w.Wrote? then Least(|old(written)| + w.n, |TakenBytes(performed)|)
                                      else |old(written)|
      ensures old(connected || c.Established?) ==>
                Idle() == !(old(err) || (w.Failed? && TakenBytes(performed) != old(written)))
      ensures old(connected || (c.Established? && onConnectDoes == [])) && !old(err) && w.Wrote? ==>
                Idle() && connected && UndisturbedReader() && obuf == old(obuf)[Least(w.n, |old(obuf)|)..]
    {
      hide Consistent, InStep, List.Valid, Scripted, Balanced, Commands, Answers;
      if !connected {
        var ok := HandleConnect(c);
        if !ok || !connected {
          return;
        }
      }
      WriteOut(w);
    }

    /** One write of what is buffered. */
    method WriteOut(w: Pipeline.WriteResult)
      requires Idle() && connected
      modifies this, replies, replies.nodes
      ensures Handled() && Continues() && !aborted && h.received == old(h.received)
      ensures performed == old(performed) && Answers(h.called) == old(Answers(h.called))
      ensures Idle() ==> UndisturbedReader() && connected
      ensures Idle() ==> |written| == if w.Wrote? then Least(|old(written)| + w.n, |TakenBytes(performed)|) else |old(written)|
      ensures Idle() == !(old(err) || (w.Failed? && TakenBytes(performed) != old(written)))
      ensures Idle() && w.Wrote? ==> obuf == old(obuf)[Least(w.n, |old(obuf)|)..]
    {
      hide Consistent, InStep, List.Valid, Scripted, Balanced, Commands, Answers, TakenBytes;
      SentIs(Ledger());
      assert obuf == [] <==> written == TakenBytes(performed) by {
        assert |written + obuf| == |written| + |obuf|;
        assert obuf == [] ==> written + obuf == written;
      }
      if err {
        DisconnectNow();
      } else if obuf != [] {
        match w
        case WouldBlock =>
        case Failed =>
          err := true;
          DisconnectNow();
        case Wrote(n) =>
          var k := Least(n, |obuf|);
          assert obuf[..k] + obuf[k..] == obuf;
          Regroup(written, obuf[..k], obuf[k..]);
          written := written + obuf[..k];
          obuf := obuf[k..];
      }
    }

    method HandleAction(a: Action)
      requires Idle() && NeverSubscribes(a)
      modifies this, replies, replies.nodes
      ensures Handled() && Continues() && !aborted && h.received == old(h.received)
      ensures performed == old(performed) + [a] && written == old(written) && Answers(h.called) == old(Answers(h.called))
      ensures a.Issue? ==> Idle() && var taken := !old(disconnecting) && Classify(a.args) == Regular;
                && h == (if taken then Accept(old(h), a.cb) else old(h))
                && replies.contents == old(replies.contents) + (if taken then [a.cb] else [])
                && obuf == old(obuf) + if taken then Command.CommandBytes(a.args) else []
      ensures a.Disconnect? ==> if old(replies.contents) == [] then freed
                                else Idle() && disconnecting && h == old(h) && obuf == old(obuf) &&
                                     replies.contents == old(replies.contents)
      ensures a.Free? ==> freed
      ensures !a.Issue? ==> h.accepted == old(h.accepted)
      ensures Idle() ==> connected == old(connected) && err == old(err) && decoded == old(decoded) && readErr == old(readErr)
    {
      hide Consistent, InStep, List.Valid, Scripted, Classify, Balanced, Commands, Answers, Command.CommandBytes;
      match a
      case Issue(cb, args) => var _ := AsyncCommand(cb, args);
      case Disconnect => AsyncDisconnect();
      case Free => AsyncFree();
    }

    /** A whole run: events are handled until the context is gone or an assertion of the
        source has failed. Whatever the callbacks do, at every moment the accepted
        commands are those delivered, in order, followed by those queued; and once the
        context is gone every callback has been called exactly once. The accepted commands
        are those that the program, the connect callback and the reply callbacks issued
        before one of them closed the context, and as long as the context is there every
        complete reply has been handed out. */
    method RunEvents(events: seq<Event>) returns (ghost cuts: seq<nat>)
      requires Idle()
      requires forall i :: 0 <= i < |events| && events[i].Act? ==> NeverSubscribes(events[i].a)
      modifies this, replies, replies.nodes
      ensures Handled() && Continues()
      ensures Callbacks(h.delivered) + replies.contents == h.accepted
      ensures freed ==> exists at :: OneCallEach(h, at)
      ensures aborted ==> AbortReason()
      ensures 1 <= |cuts| <= |events| + 1 && (Idle() ==> |cuts| == |events| + 1) && Cuts(events[..|cuts| - 1], cuts)
      ensures cuts[0] == old(Answers(h.called)) && cuts[|cuts| - 1] == Answers(h.called)
      ensures performed == old(performed) + Doings(old(connected), events[..|cuts| - 1], onConnectDoes, plan, cuts)
      ensures h.accepted == Taken(performed) && written + obuf == TakenBytes(performed)
      ensures Idle() ==> h.received == old(h.received) + ReceivedBy(old(connected), events)
      ensures Idle() && old(decoded == [] && readErr == None) ==> h.answered == |ParseStream(h.received).replies|
    {
      hide Consistent, InStep, List.Valid, Scripted, NeverSubscribes, OneCallEach, Balanced, Commands, Answers, Doings, Deed,
        ReceivedBy, ConnectedBy, Cuts;
      cuts := [Answers(h.called)];
      RunStart(connected, events, onConnectDoes, plan, cuts);
      Regroup(performed, [], []);
      Regroup(h.received, [], []);
      for i := 0 to |events|
        invariant Idle() && Continues() && |cuts| == i + 1 && Cuts(events[..i], cuts)
        invariant cuts[0] == old(Answers(h.called)) && cuts[i] == Answers(h.called)
        invariant performed == old(performed) + Doings(old(connected), events[..i], onConnectDoes, plan, cuts)
        invariant connected == ConnectedBy(old(connected), events[..i])
        invariant h.received == old(h.received) + ReceivedBy(old(connected), events[..i])
        invariant old(decoded == [] && readErr == None) ==> decoded == [] && readErr == None
      {
        ghost var was := cuts;
        HandleEvent(events[i]);
        cuts := cuts + [Answers(h.called)];
        RunStep(old(connected), events, onConnectDoes, plan, cuts, i);
        assert cuts[..i + 1] == was;
        Regroup(old(performed), Doings(old(connected), events[..i], onConnectDoes, plan, was),
                Deed(ConnectedBy(old(connected), events[..i]), events[i], onConnectDoes, plan, cuts[i], cuts[i + 1]));
        if freed || aborted {
          break;
        }
        Regroup(old(h.received), ReceivedBy(old(connected), events[..i]),
                if events[i].Readable? && events[i].r.Bytes? && connected then events[i].r.data else []);
      }
      assert events[..|events|] == events;
      Conclude();
    }

    method HandleEvent(e: Event)
      requires Idle() && (e.Act? ==> NeverSubscribes(e.a))
      modifies this, replies, replies.nodes
      ensures Handled() && Continues()
      ensures aborted ==> AbortReason()
      ensures if e.Readable? then old(Answers(h.called)) <= Answers(h.called)
              else Answers(h.called) == old(Answers(h.called))
      ensures performed == old(performed) + Deed(old(connected), e, onConnectDoes, plan,
                                                 old(Answers(h.called)), Answers(h.called))
      ensures Idle() ==> connected == (old(connected) || Connects(e))
      ensures Idle() ==> h.received == old(h.received) + if e.Readable? && e.r.Bytes? && connected then e.r.data else []
      ensures Idle() && old(decoded == [] && readErr == None) ==> decoded == [] && readErr == None
    {
      hide Consistent, InStep, List.Valid, Scripted, NeverSubscribes, Balanced, Commands, Answers, Used;
      NoneUsed(plan, Answers(h.called));
      match e
      case Act(a) => HandleAction(a);
      case Readable(c, r) => HandleRead(c, r);
      case Writable(c, w) => HandleWrite(c, w);
      Regroup(h.received, [], []);
    }

    /** What the invariant says at the end of a run. */
    lemma Conclude()
      requires Handled()
      ensures Callbacks(h.delivered) + replies.contents == h.accepted
      ensures h.accepted == Taken(performed) && written + obuf == TakenBytes(performed)
      ensures freed ==> exists at :: OneCallEach(h, at)
      ensures Idle() && decoded == [] ==> h.answered == |ParseStream(h.received).replies|
    {
      hide List.Valid, Scripted, OneCallEach, Balanced, ParseStream, Run;
      ConsistentQueue(h, replies.contents);
      SentIs(Ledger());
      if freed {
        var at := EachCallbackOnce(h);
      }
    }
  }

  function Least(a: nat, b: nat): nat {
    if a < b then a else b
  }

  lemma NoneUsed(plan: seq<seq<Action>>, n: nat)
    ensures Used(plan, n, n) == []
  {
  }

  lemma RunStart(connected: bool, events: seq<Event>, connect: seq<Action>, plan: seq<seq<Action>>, cuts: seq<nat>)
    requires |cuts| == 1
    ensures Cuts(events[..0], cuts) && Doings(connected, events[..0], connect, plan, cuts) == []
    ensures ReceivedBy(connected, events[..0]) == [] && ConnectedBy(connected, events[..0]) == connected
  {
  }

  lemma RunStep(connected: bool, events: seq<Event>, connect: seq<Action>, plan: seq<seq<Action>>, cuts: seq<nat>, i: nat)
    requires i < |events| && |cuts| == i + 2 && Cuts(events[..i], cuts[..i + 1])
    requires if events[i].Readable? then cuts[i] <= cuts[i + 1] else cuts[i] == cuts[i + 1]
    ensures Cuts(events[..i + 1], cuts)
    ensures Doings(connected, events[..i + 1], connect, plan, cuts) ==
            Doings(connected, events[..i], connect, plan, cuts[..i + 1]) +
            Deed(ConnectedBy(connected, events[..i]), events[i], connect, plan, cuts[i], cuts[i + 1])
    ensures ConnectedBy(connected, events[..i + 1]) == (ConnectedBy(connected, events[..i]) || Connects(events[i]))
    ensures ReceivedBy(connected, events[..i + 1]) == ReceivedBy(connected, events[..i]) +
            if events[i].Readable? && events[i].r.Bytes? && ConnectedBy(connected, events[..i + 1]) then events[i].r.data else []
  {
    hide Deed;
    var upto := events[..i + 1];
    assert upto[..i] == events[..i] && upto[i] == events[i];
    if ConnectedBy(connected, events[..i]) && !connected {
      var k :| 0 <= k < i && Connects(events[..i][k]);
      assert Connects(upto[k]);
    }
    forall k | 0 <= k <= i ensures if upto[k].Readable? then cuts[k] <= cuts[k + 1] else cuts[k] == cuts[k + 1] {
      if k < i {
        assert upto[k] == events[..i][k] && cuts[..i + 1][k] == cuts[k] && cuts[..i + 1][k + 1] == cuts[k + 1];
      }
    }
  }

  lemma QueueLength(h: History, queue: seq<Callback>)
    requires Consistent(h, queue)
    ensures |queue| == |h.accepted| - |h.delivered|
  {
  }

  lemma ConsistentQueue(h: History, queue: seq<Callback>)
    requires Consistent(h, queue)
    ensures Callbacks(h.delivered) + queue == h.accepted
  {
  }

  lemma EmptyScript()
    ensures Scripted([]) && Commands([])
  {
  }

  /** A clean disconnect with a command still unanswered stops the program: the command
      has been written out, and a read event brings no complete reply. */
  method CleanDisconnectCanAbort(cb: Callback, args: seq<bytes>) returns (c: Context)
    requires args != [] && Classify(args) == Regular
    ensures c.aborted
  {
    hide Consistent, InStep, List.Valid, Scripted, Classify, Command.CommandBytes, Run, Balanced, Commands, Answers,
      TakenBytes, Used, StaysOpen, Context.Sound;
    c := Asked(cb, args);
    c.HandleAction(Disconnect);
    c.HandleRead(Established, ReadAgain);
  }

  /** A new context that is connected and has written its one command. */
  method Asked(cb: Callback, args: seq<bytes>) returns (c: Context)
    requires args != [] && Classify(args) == Regular
    ensures fresh(c) && fresh(c.replies) && fresh(c.replies.nodes) && c.Idle() && c.connected && !c.err
    ensures c.obuf == [] && c.replies.contents == [cb] && c.decoded == [] && c.readErr == None
  {
    hide Consistent, InStep, List.Valid, Scripted, Classify, Command.CommandBytes, Run, Balanced, Commands, Answers,
      TakenBytes, Used, StaysOpen, Context.Sound;
    EmptyScript();
    c := new Context([], [], [], false, false);
    c.HandleAction(Issue(cb, args));
    c.HandleWrite(Established, Pipeline.Wrote(|c.obuf|));
  }

  // ----- Callbacks that do nothing -----

  /** What the program itself does. */
  function Acts(events: seq<Event>): seq<Action> {
    if events == [] then []
    else
      var e := events[|events| - 1];
      Acts(events[..|events| - 1]) + if e.Act? then [e.a] else []
  }

  lemma {:induction false} OnlyProgram(events: seq<Event>, cuts: seq<nat>)
    requires |cuts| == |events| + 1
    ensures Doings(false, events, [], [], cuts) == Acts(events)
    decreases |events|
  {
    hide ConnectedBy;
    if events != [] {
      var n := |events| - 1;
      OnlyProgram(events[..n], cuts[..n + 1]);
      UsedNothing(cuts[n], cuts[n + 1]);
    }
  }

  lemma {:induction false} UsedNothing(i: nat, j: nat)
    ensures Used([], i, j) == []
    decreases j
  {
    if i < j {
      UsedNothing(i, j - 1);
    }
  }

  /** With callbacks that do nothing, the commands accepted are those the program issued
      before it closed the context, in order, as far as the events were handled. */
  method PlainRun(events: seq<Event>) returns (c: Context, ghost n: nat)
    requires forall i :: 0 <= i < |events| && events[i].Act? ==> NeverSubscribes(events[i].a)
    ensures n <= |events| && (c.freed || c.aborted || n == |events|)
    ensures c.h.accepted == Taken(Acts(events[..n])) && c.written + c.obuf == TakenBytes(Acts(events[..n]))
  {
    hide Consistent, InStep, List.Valid, Scripted, Balanced, Commands, Answers, Taken, TakenBytes, OneCallEach,
      Context.Sound, Doings, Cuts;
    EmptyScript();
    c := new Context([], [], [], false, false);
    ghost var cuts := c.RunEvents(events);
    n := |cuts| - 1;
    OnlyProgram(events[..n], cuts);
    assert [] + Acts(events[..n]) == Acts(events[..n]);
  }

  /** One command and then a free: its callback is called once, without a reply. */
  method IssueThenFree(cb: Callback, args: seq<bytes>) returns (c: Context)
    requires args != [] && Classify(args) == Regular
    ensures c.freed && c.h.accepted == [cb] && c.written + c.obuf == Command.CommandBytes(args)
    ensures c.h.called == if cb.fn.Some? then [Delivery(cb, None)] else []
  {
    hide Consistent, InStep, List.Valid, Scripted, Classify, Command.CommandBytes, Run, Balanced, Commands, Answers,
      TakenBytes, Used;
    EmptyScript();
    c := new Context([], [], [], false, false);
    c.HandleAction(Issue(cb, args));
    c.HandleAction(Free);
    c.Conclude();
    OneTaken(Issue(cb, args));
    CalledOnce(c.h, c.replies.contents);
  }

  lemma OneTaken(a: Action)
    requires Takes([], a)
    ensures Taken([] + [a] + [Free]) == [a.cb] && TakenBytes([] + [a] + [Free]) == Command.CommandBytes(a.args)
  {
    hide Takes, Command.CommandBytes;
    TakenNext([], a);
    TakenNext([] + [a], Free);
    assert !Takes([] + [a], Free) by { NeverTaken([] + [a]); }
  }

  lemma NeverTaken(before: seq<Action>)
    ensures !Takes(before, Free)
  {
  }

  lemma CalledOnce(h: History, none: seq<Callback>)
    requires Consistent(h, none) && none == [] && |h.accepted| == 1 && h.received == []
    ensures var cb := h.accepted[0]; h.called == if cb.fn.Some? then [Delivery(cb, None)] else []
  {
    assert Callbacks(h.delivered) == h.accepted;
    assert |h.delivered| == 1 && h.delivered[0].cb == h.accepted[0];
    assert ParseStream([]).replies == [];
    assert h.delivered[0].reply == None;
    assert Calls(h.delivered[..0]) == [];
  }

  /** A reply that nobody asked for stops the program: a connected context that has issued
      no command reads a status. */
  method UnaskedReplyAborts() returns (c: Context)
    ensures c.aborted
  {
    hide Consistent, InStep, List.Valid, Scripted, Run, Balanced, Commands, Answers, TakenBytes, Used, StaysOpen;
    EmptyScript();
    c := new Context([], [], [], false, false);
    c.HandleWrite(Established, Pipeline.Wrote(0));
    var ok := [PLUS, 79, 75, CR, LF];
    StatusRead(ok);
    assert [] + ok == ok;
    c.HandleRead(Established, Bytes(ok));
  }

  lemma StatusRead(s: bytes)
    requires s == [PLUS, 79, 75, CR, LF]
    ensures Run(IDLE, s).out == [Status([79, 75])]
  {
    hide Run;
    MachineRefinesGrammar(s);
    FirstCrlfUnique(s[1..], 2);
    assert s[1..][..2] == [79, 75] && s[1..][4..] == [];
    assert ParseItem(0, s) == Done(Status([79, 75]), []);
    assert ParseStream([]) == Stream([], None);
  }
}
