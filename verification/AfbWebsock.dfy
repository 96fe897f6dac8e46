/** The call side of the AFB websocket: allocation of call ids, routing of replies, and the accounting of promises. */
module AfbWebsock {
  import opened Options

  const IDS: nat := 4096

  /** A promise settled by a reply: which one, the id the reply carried, and how. */
  datatype Settlement = Settlement(promise: nat, id: nat, resolved: bool, answer: string)

  /** `pendings` maps ids to promises. Promises are numbered in the order of their calls; `ids` are the ids
      the calls have sent, and `settled` what has been done to promises. */
  datatype State = State(counter: nat, pendings: map<nat, nat>, ids: seq<nat>, settled: seq<Settlement>)

  datatype Event = Call | Message(code: int, id: nat, answer: string)

  const RETOK := 3
  const RETERR := 4

  // ---------------------------------------------------------------- specification

  /** The first id after `counter` that is not in use, within so many turns. */
  function FreeAfter(counter: nat, used: set<nat>, turns: nat): (r: Option<nat>)
    ensures r.Some? ==> r.value < IDS && r.value !in used
    decreases turns, counter
  {
    if turns == 0 then None
    else
      var id := (counter + 1) % IDS;
      if id !in used then Some(id) else FreeAfter(id, used, turns - 1)
  }

  function Initial(): State {
    State(0, map[], [], [])
  }

  predicate Enabled(s: State, e: Event) {
    e.Call? ==> |s.pendings| < IDS
  }

  function Routed(s: State, id: nat, answer: string, resolved: bool): State {
    if id in s.pendings then
      s.(pendings := s.pendings - {id}, settled := s.settled + [Settlement(s.pendings[id], id, resolved, answer)])
    else s
  }

  function Step(s: State, e: Event): State
    requires Enabled(s, e)
  {
    match e
    case Call =>
      var free := FreeAfter(s.counter, s.pendings.Keys, IDS);
      if free.None? then s
      else s.(counter := free.value, pendings := s.pendings[free.value := |s.ids|], ids := s.ids + [free.value])
    case Message(code, id, answer) =>
      if code == RETOK then Routed(s, id, answer, true)
      else if code == RETERR then Routed(s, id, answer, false)
      else s
  }

  predicate IsRun(s: State, es: seq<Event>)
    decreases |es|, 0
  {
    es == [] || (IsRun(s, es[..|es| - 1]) && Enabled(Run(s, es[..|es| - 1]), es[|es| - 1]))
  }

  function Run(s: State, es: seq<Event>): State
    requires IsRun(s, es)
    decreases |es|, 1
  {
    if es == [] then s else Step(Run(s, es[..|es| - 1]), es[|es| - 1])
  }

  // ---------------------------------------------------------------- the id search

  /** `turns` increments from the counter, modulo the number of ids. */
  lemma {:induction false} SearchFails(counter: nat, used: set<nat>, turns: nat, k: nat)
    requires FreeAfter(counter, used, turns).None? && 1 <= k <= turns
    ensures (counter + k) % IDS in used
    decreases turns
  {
    var id := (counter + 1) % IDS;
    if k > 1 {
      SearchFails(id, used, turns - 1, k - 1);
      assert (id + (k - 1)) % IDS == (counter + k) % IDS;
    }
  }

  /** The id that is `i` turns away is in use. */
  predicate InUse(used: set<nat>, counter: nat, i: nat) {
    (counter + i) % 4096 in used
  }

  /** The id found is the next one after the counter that is not in use. */
  lemma {:induction false} FirstFree(counter: nat, used: set<nat>, turns: nat) returns (k: nat)
    requires FreeAfter(counter, used, turns).Some?
    ensures 1 <= k <= turns && FreeAfter(counter, used, turns) == Some((counter + k) % 4096)
    ensures !InUse(used, counter, k) && forall i: nat :: 1 <= i < k ==> InUse(used, counter, i)
    decreases turns
  {
    var id := (counter + 1) % IDS;
    if id !in used {
      k := 1;
    } else {
      var rest := FirstFree(id, used, turns - 1);
      k := rest + 1;
      forall i: nat | 2 <= i <= k
        ensures InUse(used, counter, i) == InUse(used, id, i - 1)
      {
        assert (counter + i) % 4096 == (id + (i - 1)) % 4096;
      }
      assert (counter + k) % 4096 == (id + rest) % 4096;
    }
  }

  /** All ids there are. */
  function Ids(): set<nat> {
    Below(IDS)
  }

  predicate IsBelow(i: nat, n: nat) {
    i < n
  }

  function Below(n: nat): set<nat> {
    set i: nat | i < n && IsBelow(i, n)
  }

  lemma {:induction false} BelowSize(n: nat)
    ensures |Below(n)| == n
  {
    if n > 0 {
      BelowSize(n - 1);
      assert Below(n) == Below(n - 1) + {n - 1};
    }
  }

  lemma SubsetIsSmaller(a: set<nat>, b: set<nat>)
    requires a <= b
    ensures |a| <= |b|
  {
    assert b == a + (b - a);
  }

  /** Within 4096 turns the search ends on an unused id exactly when fewer than 4096 calls are pending. */
  lemma SearchEndsInTime(counter: nat, used: set<nat>)
    requires used <= Ids()
    ensures FreeAfter(counter, used, IDS).Some? <==> |used| < IDS
  {
    BelowSize(IDS);
    if FreeAfter(counter, used, IDS).None? {
      forall id: nat | id in Ids()
        ensures id in used
      {
        var k: nat := (id - counter - 1) % IDS + 1;
        SearchFails(counter, used, IDS, k);
        assert (counter + k) % IDS == id;
      }
      SubsetIsSmaller(Ids(), used);
    } else {
      SubsetIsSmaller(used, Ids() - {FreeAfter(counter, used, IDS).value});
    }
  }

  /** A search that has ended is not changed by more turns. */
  lemma {:induction false} MoreTurns(counter: nat, used: set<nat>, turns: nat, more: nat)
    requires turns <= more && FreeAfter(counter, used, turns).Some?
    ensures FreeAfter(counter, used, more) == FreeAfter(counter, used, turns)
    decreases turns
  {
    var id := (counter + 1) % IDS;
    if id in used {
      MoreTurns(id, used, turns - 1, more - 1);
    }
  }

  lemma {:induction false} AllUsed(counter: nat, used: set<nat>, turns: nat)
    requires Ids() <= used
    ensures FreeAfter(counter, used, turns).None?
    decreases turns
  {
    var id := (counter + 1) % IDS;
    if turns > 0 {
      assert IsBelow(id, IDS) && id in Ids();
      AllUsed(id, used, turns - 1);
    }
  }

  /** The search ends exactly when fewer than 4096 calls are pending, and then within 4096 turns; with 4096 calls
      pending it goes on for any number of turns. */
  lemma SearchEnds(counter: nat, used: set<nat>)
    requires used <= Ids()
    ensures FreeAfter(counter, used, IDS).Some? <==> |used| < IDS
    ensures forall turns: nat :: FreeAfter(counter, used, turns).Some? || turns >= IDS ==>
      FreeAfter(counter, used, turns) == FreeAfter(counter, used, IDS)
  {
    SearchEndsInTime(counter, used);
    forall turns: nat | FreeAfter(counter, used, turns).Some? || turns >= IDS
      ensures FreeAfter(counter, used, turns) == FreeAfter(counter, used, IDS)
    {
      if turns < IDS {
        MoreTurns(counter, used, turns, IDS);
      } else if FreeAfter(counter, used, IDS).None? {
        BelowSize(IDS);
        FullSubset(used, Ids());
        AllUsed(counter, used, turns);
      } else {
        MoreTurns(counter, used, IDS, turns);
      }
    }
  }

  lemma FullSubset(a: set<nat>, b: set<nat>)
    requires a <= b && |a| >= |b|
    ensures a == b
  {
    assert b == a + (b - a);
  }

  // ---------------------------------------------------------------- promises

  predicate Settles(settled: seq<Settlement>, promise: nat) {
    exists i :: 0 <= i < |settled| && settled[i].promise == promise
  }

  /** Every promise is pending under the id its call sent, or settled once by a reply with that id, never both. */
  predicate Inv(s: State) {
    && s.pendings.Keys <= Ids()
    && (forall id :: id in s.pendings ==>
      s.pendings[id] < |s.ids| && s.ids[s.pendings[id]] == id && !Settles(s.settled, s.pendings[id]))
    && (forall i :: 0 <= i < |s.settled| ==>
      s.settled[i].promise < |s.ids| && s.ids[s.settled[i].promise] == s.settled[i].id)
    && (forall i, j :: 0 <= i < j < |s.settled| ==> s.settled[i].promise != s.settled[j].promise)
    && |s.settled| + |s.pendings| == |s.ids|
  }

  lemma CallKeepsInv(s: State)
    requires Inv(s) && Enabled(s, Call)
    ensures Inv(Step(s, Call)) && |Step(s, Call).ids| == |s.ids| + 1
  {
    SearchEnds(s.counter, s.pendings.Keys);
    var free := FreeAfter(s.counter, s.pendings.Keys, IDS).value;
    var t := Step(s, Call);
    assert t.pendings.Keys == s.pendings.Keys + {free};
    assert |s.pendings.Keys| == |s.pendings| && |t.pendings.Keys| == |t.pendings|;
  }

  lemma ReplyKeepsInv(s: State, id: nat, answer: string, resolved: bool)
    requires Inv(s)
    ensures Inv(Routed(s, id, answer, resolved)) && Routed(s, id, answer, resolved).ids == s.ids
  {
    if id in s.pendings {
      var t := Routed(s, id, answer, resolved);
      var n := |s.settled|;
      assert t.pendings.Keys == s.pendings.Keys - {id};
      assert |t.pendings.Keys| == |t.pendings| && |s.pendings.Keys| == |s.pendings|;
      assert t.settled[..n] == s.settled && t.settled[n].promise == s.pendings[id];
      forall other | other in t.pendings
        ensures !Settles(t.settled, t.pendings[other])
      {
        assert s.ids[s.pendings[other]] == other;
        SettlesOneMore(s.settled, t.settled[n], t.pendings[other]);
      }
    }
  }

  lemma SettlesOneMore(settled: seq<Settlement>, last: Settlement, promise: nat)
    ensures Settles(settled + [last], promise) <==> Settles(settled, promise) || last.promise == promise
  {
    assert (settled + [last])[|settled|] == last;
    if Settles(settled, promise) {
      var i :| 0 <= i < |settled| && settled[i].promise == promise;
      assert (settled + [last])[i].promise == promise;
    }
  }

  lemma StepKeepsInv(s: State, e: Event)
    requires Inv(s) && Enabled(s, e)
    ensures Inv(Step(s, e)) && |Step(s, e).ids| == |s.ids| + if e.Call? then 1 else 0
  {
    match e
    case Call => CallKeepsInv(s);
    case Message(code, id, answer) => ReplyKeepsInv(s, id, answer, code == RETOK);
  }

  /** How many calls the run makes. */
  function Calls(es: seq<Event>): nat {
    if es == [] then 0 else Calls(es[..|es| - 1]) + if es[|es| - 1].Call? then 1 else 0
  }

  /** Over any run no promise is settled twice, every reply reaches the promise of the call that sent its id,
      and the promises settled and pending are together the calls made. */
  lemma {:induction false} PromisesAccounted(es: seq<Event>)
    requires IsRun(Initial(), es)
    ensures Inv(Run(Initial(), es))
    ensures var t := Run(Initial(), es); |t.settled| + |t.pendings| == |t.ids| == Calls(es)
  {
    if es != [] {
      var before := es[..|es| - 1];
      PromisesAccounted(before);
      StepKeepsInv(Run(Initial(), before), es[|es| - 1]);
    }
  }

  /** A success or an error for a call that waits for it. */
  predicate IsReply(s: State, e: Event) {
    e.Message? && (e.code == 3 || e.code == 4) && e.id in s.pendings
  }

  /** The replies of a run, in order. */
  function Replies(es: seq<Event>): seq<Event>
    requires IsRun(Initial(), es)
  {
    if es == [] then []
    else
      var before := es[..|es| - 1];
      var e := es[|es| - 1];
      Replies(before) + if IsReply(Run(Initial(), before), e) then [e] else []
  }

  /** The settlement is what the reply asks for: its id and its answer, resolved by a success and rejected by an
      error. */
  predicate SettledBy(t: Settlement, e: Event) {
    && e.Message? && t.id == e.id && t.answer == e.answer
    && (t.resolved <==> e.code == 3) && (!t.resolved <==> e.code == 4)
  }

  /** Over any run the settlements are those of the replies, one for each, in order. */
  lemma {:induction false} RepliesSettle(es: seq<Event>)
    requires IsRun(Initial(), es)
    ensures var settled := Run(Initial(), es).settled;
      && |settled| == |Replies(es)|
      && forall i :: 0 <= i < |settled| ==> SettledBy(settled[i], Replies(es)[i])
  {
    if es != [] {
      var before := es[..|es| - 1];
      RepliesSettle(before);
      OneReply(Run(Initial(), before), es[|es| - 1]);
    }
  }

  /** A reply settles the promise that waits for it, and no other event settles any. */
  lemma OneReply(s: State, e: Event)
    requires Enabled(s, e)
    ensures !IsReply(s, e) ==> Step(s, e).settled == s.settled
    ensures IsReply(s, e) ==>
      && |Step(s, e).settled| == |s.settled| + 1 && Step(s, e).settled[..|s.settled|] == s.settled
      && Step(s, e).settled[|s.settled|].promise == s.pendings[e.id]
      && SettledBy(Step(s, e).settled[|s.settled|], e)
      && Step(s, e).pendings == s.pendings - {e.id}
  {
  }

  function ManyCalls(n: nat): seq<Event> {
    if n == 0 then [] else ManyCalls(n - 1) + [Call]
  }

  /** Up to 4096 calls can be pending at once. */
  lemma {:induction false} CallsCanWait(n: nat)
    requires n <= 4096
    ensures IsRun(Initial(), ManyCalls(n))
    ensures var s := Run(Initial(), ManyCalls(n)); Inv(s) && s.settled == [] && |s.pendings| == |s.ids| == n
  {
    if n > 0 {
      CallsCanWait(n - 1);
      var es := ManyCalls(n);
      assert es[..|es| - 1] == ManyCalls(n - 1);
      var s := Run(Initial(), ManyCalls(n - 1));
      hide Run;
      CallKeepsInv(s);
    }
  }

  /** After 4096 calls without a reply, the search of the next call does not end in any number of turns. */
  lemma CallNeverEnds(turns: nat)
    ensures IsRun(Initial(), ManyCalls(4096))
    ensures var s := Run(Initial(), ManyCalls(4096)); FreeAfter(s.counter, s.pendings.Keys, turns).None?
  {
    hide ManyCalls, Run, IsRun, FreeAfter, Ids;
    CallsCanWait(IDS);
    var s := Run(Initial(), ManyCalls(IDS));
    assert |s.pendings.Keys| == |s.pendings|;
    SearchEnds(s.counter, s.pendings.Keys);
  }

  // ---------------------------------------------------------------- the websocket object

  class Websocket {
    var counter: nat
    var pendings: map<nat, nat>
    ghost var ids: seq<nat>
    ghost var settled: seq<Settlement>

    ghost predicate Valid()
      reads this
    {
      Inv(Abs())
    }

    ghost function Abs(): State
      reads this
    {
      State(counter, pendings, ids, settled)
    }

    constructor ()
      ensures Valid() && Abs() == Initial()
    {
      counter, pendings, ids, settled := 0, map[], [], [];
      new;
      assert pendings.Keys == {};
    }

    /** call, up to `turns` turns of its search: a free id is searched, and once one is found the new promise is
        stored under it and sent. With 4096 calls pending no number of turns is enough. */
    method Call(promise: nat, turns: nat) returns (sent: Option<nat>)
      requires Valid() && promise == |ids|
      modifies this
      ensures sent == FreeAfter(old(counter), old(pendings.Keys), turns)
      ensures turns >= IDS ==> (sent.Some? <==> old(|pendings|) < IDS)
      ensures sent.Some? ==> Enabled(old(Abs()), Event.Call) && Abs() == Step(old(Abs()), Event.Call)
      ensures sent.Some? ==>
        counter == sent.value && counter !in old(pendings) && pendings == old(pendings)[sent.value := promise]
      ensures sent.None? ==> Abs() == old(Abs()).(counter := counter)
      ensures Valid()
    {
      ghost var s := Abs();
      ghost var used := pendings.Keys;
      SearchEnds(counter, used);
      assert |used| == |s.pendings|;
      var left := turns;
      while left > 0
        invariant Abs() == s.(counter := counter)
        invariant FreeAfter(s.counter, used, turns) == FreeAfter(counter, used, left)
      {
        counter := (counter + 1) % IDS;
        if counter !in pendings {
          break;
        }
        left := left - 1;
      }
      if left == 0 {
        return None;
      }
      CallKeepsInv(s);
      pendings := pendings[counter := promise];
      ids := ids + [counter];
      sent := Some(counter);
    }

    /** reply: the promise pending under the id, if any, is removed and settled. */
    method Reply(id: nat, answer: string, resolved: bool)
      requires Valid()
      modifies this
      ensures Valid() && Abs() == Routed(old(Abs()), id, answer, resolved)
    {
      ReplyKeepsInv(Abs(), id, answer, resolved);
      if id in pendings {
        ghost var p := pendings[id];
        pendings := pendings - {id};
        settled := settled + [Settlement(p, id, resolved, answer)];
      }
    }

    /** onmessage: a success or an error goes to its promise, anything else is an event. */
    method OnMessage(code: int, id: nat, answer: string)
      requires Valid()
      modifies this
      ensures Valid() && Abs() == Step(old(Abs()), Message(code, id, answer))
    {
      if code == RETOK {
        Reply(id, answer, true);
      } else if code == RETERR {
        Reply(id, answer, false);
      }
    }
  }
}
