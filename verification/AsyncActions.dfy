/** What a program and its callbacks do to an asynchronous context, and which of it the
    context takes. */
module AsyncActions {
  import opened Bytes
  import opened CallbackList
  import Command

  // ----- Commands -----

  datatype CommandKind = Regular | Subscribe | Unsubscribe

  function ToLower(b: byte): byte {
    if 65 <= b <= 90 then b + 32 else b
  }

  /** strncasecmp(text, pattern, |pattern|) == 0 for a lower-case pattern. */
  predicate StartsWithFold(text: bytes, pattern: bytes) {
    |pattern| <= |text| && forall i :: 0 <= i < |pattern| ==> ToLower(text[i]) == pattern[i]
  }

  const SUBSCRIBE: bytes := [115, 117, 98, 115, 99, 114, 105, 98, 101] + CRLF
  const UNSUBSCRIBE: bytes := [117, 110] + SUBSCRIBE

  /** The command a formatted argument vector starts, as its first argument and the line
      end after it tell. */
  function Classify(args: seq<bytes>): CommandKind
    requires args != []
  {
    var text := args[0] + CRLF;
    var name := if ToLower(text[0]) == 112 then text[1..] else text;
    if |args| > 1 && StartsWithFold(name, SUBSCRIBE) then Subscribe
    else if StartsWithFold(name, UNSUBSCRIBE) then Unsubscribe
    else Regular
  }

  /** The same in letters, for a first argument without a CR. */
  lemma ClassifyIs(args: seq<bytes>)
    requires args != [] && 13 !in args[0]
    ensures Classify(args) == Subscribe <==> |args| > 1 && (Named(args[0], "subscribe") || Named(args[0], "psubscribe"))
    ensures Classify(args) == Unsubscribe <==> Named(args[0], "unsubscribe") || Named(args[0], "punsubscribe")
  {
    var text := args[0] + CRLF;
    Whole(args[0], "subscribe");
    Whole(args[0], "unsubscribe");
    if args[0] != [] {
      assert text[1..] == args[0][1..] + CRLF;
      Whole(args[0][1..], "subscribe");
      Whole(args[0][1..], "unsubscribe");
      AfterP(args[0], "subscribe", "psubscribe");
      AfterP(args[0], "unsubscribe", "punsubscribe");
    }
    assert Ascii("subscribe") + CRLF == SUBSCRIBE && Ascii("unsubscribe") + CRLF == UNSUBSCRIBE;
  }

  /** The name in any case. */
  predicate Named(s: bytes, name: string)
    requires forall i :: 0 <= i < |name| ==> name[i] as int < 256
  {
    |s| == |name| && forall i :: 0 <= i < |s| ==> ToLower(s[i]) == name[i] as int
  }

  lemma Whole(s: bytes, name: string)
    requires 13 !in s && forall i :: 0 <= i < |name| ==> 97 <= name[i] as int <= 122
    ensures StartsWithFold(s + CRLF, Ascii(name) + CRLF) <==> Named(s, name)
  {
    var text, pattern := s + CRLF, Ascii(name) + CRLF;
    assert pattern[|name|] == 13 && text[|s|] == 13 && pattern[|name| + 1] == 10 == text[|s| + 1];
    assert forall i :: 0 <= i < |s| ==> text[i] == s[i] && ToLower(s[i]) != 13;
    assert forall i :: 0 <= i < |name| ==> pattern[i] == name[i] as int && pattern[i] != 13;
    if |s| == |name| && StartsWithFold(text, pattern) {
      assert forall i :: 0 <= i < |s| ==> ToLower(text[i]) == pattern[i];
    }
  }

  lemma AfterP(s: bytes, name: string, pname: string)
    requires s != [] && (forall i :: 0 <= i < |name| ==> 97 <= name[i] as int <= 122) && pname == "p" + name
    ensures Named(s, pname) <==> ToLower(s[0]) == 112 && Named(s[1..], name)
  {
    assert 'p' as int == 112;
    assert forall i :: 0 <= i < |name| ==> pname[i + 1] == name[i];
    if Named(s, pname) {
      assert forall i :: 0 <= i < |s[1..]| ==> s[1..][i] == s[i + 1];
    }
    if ToLower(s[0]) == 112 && Named(s[1..], name) {
      forall i | 0 <= i < |s| ensures ToLower(s[i]) == pname[i] as int {
        if i > 0 {
          assert s[1..][i - 1] == s[i];
        }
      }
    }
  }

  // ----- Actions -----

  /** What a callback, or the program outside callbacks, may do to the context. */
  datatype Action = Issue(cb: Callback, args: seq<bytes>) | Disconnect | Free

  predicate NeverSubscribes(a: Action) {
    a.Issue? ==> a.args != [] && Classify(a.args) != Subscribe
  }

  predicate AllNeverSubscribe(actions: seq<Action>) {
    forall j :: 0 <= j < |actions| ==> NeverSubscribes(actions[j])
  }

  predicate Scripted(script: seq<seq<Action>>) {
    forall i :: 0 <= i < |script| ==> AllNeverSubscribe(script[i])
  }

  /** What a connect or a disconnect callback does: it issues commands. */
  predicate Commands(actions: seq<Action>) {
    AllNeverSubscribe(actions) && forall j :: 0 <= j < |actions| ==> actions[j].Issue?
  }

  // ----- What is taken -----

  predicate StaysOpen(actions: seq<Action>) {
    Disconnect !in actions && Free !in actions
  }

  /** A command is taken if nothing before it closes the context. */
  predicate Takes(before: seq<Action>, a: Action) {
    StaysOpen(before) && a.Issue? && a.args != [] && Classify(a.args) == Regular
  }

  function Taken(actions: seq<Action>): seq<Callback> {
    if actions == [] then []
    else
      var before, a := actions[..|actions| - 1], actions[|actions| - 1];
      Taken(before) + if Takes(before, a) then [a.cb] else []
  }

  /** The bytes of the commands taken. */
  function TakenBytes(actions: seq<Action>): bytes {
    if actions == [] then []
    else
      var before, a := actions[..|actions| - 1], actions[|actions| - 1];
      TakenBytes(before) + if Takes(before, a) then Command.CommandBytes(a.args) else []
  }

  lemma TakenNext(before: seq<Action>, a: Action)
    ensures Taken(before + [a]) == Taken(before) + if Takes(before, a) then [a.cb] else []
    ensures TakenBytes(before + [a]) == TakenBytes(before) + if Takes(before, a) then Command.CommandBytes(a.args) else []
  {
    hide Takes, Command.CommandBytes;
    assert (before + [a])[..|before|] == before;
  }

  lemma {:induction false} TakenClosed(before: seq<Action>, more: seq<Action>)
    requires !StaysOpen(before)
    ensures Taken(before + more) == Taken(before) && TakenBytes(before + more) == TakenBytes(before)
    decreases |more|
  {
    hide Command.CommandBytes, Classify;
    if more == [] {
      assert before + more == before;
    } else {
      var init, a := more[..|more| - 1], more[|more| - 1];
      TakenClosed(before, init);
      assert before + more == before + init + [a];
      TakenNext(before + init, a);
      assert !StaysOpen(before + init);
    }
  }

  /** As long as nothing closes the context every regular command is taken, in order. */
  lemma {:induction false} AllTaken(actions: seq<Action>)
    requires forall i :: 0 <= i < |actions| ==> actions[i].Issue? && actions[i].args != []
    requires forall i :: 0 <= i < |actions| ==> Classify(actions[i].args) == Regular
    ensures |Taken(actions)| == |actions|
    ensures forall i :: 0 <= i < |actions| ==> Taken(actions)[i] == actions[i].cb
  {
    hide Classify;
    if actions != [] {
      AllTaken(actions[..|actions| - 1]);
      assert StaysOpen(actions[..|actions| - 1]);
    }
  }

  // ----- Scripts -----

  /** A script without its first k entries. */
  function Drop<T>(plan: seq<T>, k: nat): seq<T> {
    if k <= |plan| then plan[k..] else []
  }

  /** The actions of the script entries from i up to j. */
  function Used(plan: seq<seq<Action>>, i: nat, j: nat): seq<Action> {
    if j <= i then [] else Used(plan, i, j - 1) + if j - 1 < |plan| then plan[j - 1] else []
  }

  lemma {:induction false} UsedAppend(plan: seq<seq<Action>>, i: nat, k: nat, j: nat)
    requires i <= k <= j
    ensures Used(plan, i, k) + Used(plan, k, j) == Used(plan, i, j)
    decreases j
  {
    if k == j {
      assert Used(plan, i, k) + [] == Used(plan, i, k);
    } else {
      UsedAppend(plan, i, k, j - 1);
      Regroup(Used(plan, i, k), Used(plan, k, j - 1), if j - 1 < |plan| then plan[j - 1] else []);
    }
  }
}
