/** The MOST volume synchroniser as a protocol: the state of the container, of its values and of the
    host around them, the atomic steps, and what holds in every reachable state. */
module MostVolumeProtocol {
  import opened Options

  type byte = x: int | 0 <= x < 256

  datatype Kind = Master | Left | Right

  /** One value: what it addresses, what is desired, what is on its way and what has been confirmed. */
  datatype Val = Val(
    address: nat, kind: Kind, key: nat,
    available: bool, busy: bool, target: byte, transmitted: byte, actual: byte, payload: seq<byte>)

  /** A message on the bus: the value that sent it, and its own copy of the payload. */
  datatype Message = Message(sender: nat, address: nat, payload: seq<byte>)

  /** The container's fields, and of the host the time-outs of the armed timers, in milliseconds, and the
      message in flight. */
  datatype State = State(values: seq<Val>, idx: nat, txBusy: bool, serviceRequested: bool, timers: seq<nat>,
    wire: Option<Message>)

  datatype Event =
    | SetTarget(key: nat, value: byte)
    | Switch(address: nat, available: bool)
    | Timer(accept: bool)
    | Ack(result: byte)

  /** Serve at once, or try again later. */
  const TIME_NOW: nat := 0
  const TIME_RETRIGGER: nat := 30

  // ---------------------------------------------------------------- one value

  function Volume(value: byte, kind: Kind): (r: nat)
    ensures 0x80 <= r <= 0x3FF
  {
    if kind == Master then 0x100 + 0x2FF - 0x2FF * value / 0xFF else 0x80 + 0x37F - 0x37F * value / 0xFF
  }

  /** The control byte, then the volume, high byte first. */
  function Payload(value: byte, kind: Kind): seq<byte> {
    var control: byte := match kind { case Master => 7 case Left => 8 case Right => 9 };
    [control, Volume(value, kind) / 256, Volume(value, kind) % 256]
  }

  /** The value a node reads back from a payload. */
  function Decode(payload: seq<byte>): int
    requires |payload| == 3
  {
    var high: int, low: int := payload[1], payload[2];
    var volume := high * 256 + low;
    if payload[0] == 7 then ((0x3FF - volume) * 0xFF + 0x2FE) / 0x2FF else ((0x3FF - volume) * 0xFF + 0x37E) / 0x37F
  }

  /** The payload determines the value and the channel: 7 is the master volume, 8 left and 9 right. */
  lemma PayloadDecodes(value: byte, kind: Kind)
    ensures |Payload(value, kind)| == 3 && Decode(Payload(value, kind)) == value
    ensures kind == Master <==> Payload(value, kind)[0] == 7
    ensures kind == Left <==> Payload(value, kind)[0] == 8
    ensures kind == Right <==> Payload(value, kind)[0] == 9
  {
    if kind == Master {
      var q := 0x2FF * value / 0xFF;
      assert q * 0xFF <= 0x2FF * value < q * 0xFF + 0xFF;
    } else {
      var q := 0x37F * value / 0xFF;
      assert q * 0xFF <= 0x37F * value < q * 0xFF + 0xFF;
    }
  }

  predicate RequiresUpdate(v: Val) {
    v.available && !v.busy && v.target != v.actual
  }

  /** The payload is written first; the value becomes busy only if the bus accepts it. */
  function Fire(v: Val, accept: bool): Val {
    var w := v.(payload := Payload(v.target, v.kind));
    if v.available && !v.busy && accept then w.(transmitted := v.target, busy := true) else w
  }

  function Confirm(v: Val, result: byte): Val {
    (if result == 0 then v.(actual := v.transmitted) else v).(busy := false)
  }

  // ---------------------------------------------------------------- the container

  /** A timer is armed unless the service has been requested already. */
  function RequestService(s: State, timeout: nat): State {
    if s.serviceRequested then s else s.(serviceRequested := true, timers := s.timers + [timeout])
  }

  /** Every value with the key takes the new target. */
  function Retarget(values: seq<Val>, key: nat, value: byte): (r: seq<Val>)
    ensures |r| == |values|
    ensures forall i :: 0 <= i < |values| ==>
      r[i] == if values[i].key == key then values[i].(target := value) else values[i]
  {
    seq(|values|, i requires 0 <= i < |values| =>
      if values[i].key == key then values[i].(target := value) else values[i])
  }

  /** Every value of the node changes availability, and its confirmed value is forgotten. */
  function Reswitch(values: seq<Val>, address: nat, available: bool): (r: seq<Val>)
    ensures |r| == |values|
    ensures forall i :: 0 <= i < |values| ==>
      r[i] == if values[i].address == address then values[i].(available := available, actual := 1) else values[i]
  {
    seq(|values|, i requires 0 <= i < |values| =>
      if values[i].address == address then values[i].(available := available, actual := 1) else values[i])
  }

  function SetValue(s: State, key: nat, value: byte): State {
    var t := s.(values := Retarget(s.values, key, value));
    if !s.txBusy && exists i :: 0 <= i < |t.values| && t.values[i].key == key && RequiresUpdate(t.values[i])
    then RequestService(t, TIME_NOW)
    else t
  }

  function ChangeNodeAvailable(s: State, address: nat, available: bool): State {
    var t := s.(values := Reswitch(s.values, address, available));
    if available then RequestService(t, TIME_RETRIGGER) else t
  }

  function NextIndex(idx: nat, n: nat): nat {
    if idx + 1 >= n then 0 else idx + 1
  }

  /** One cycle of at most `turns` increments that stops at the first value requiring an update. */
  function Scan(values: seq<Val>, idx: nat, turns: nat): (r: (nat, bool))
    requires turns > 0 ==> |values| > 0
    ensures r.1 ==> r.0 < |values|
    ensures turns > 0 ==> r.0 < |values|
    decreases turns
  {
    if turns == 0 then (idx, false)
    else
      var next := NextIndex(idx, |values|);
      if RequiresUpdate(values[next]) then (next, true) else Scan(values, next, turns - 1)
  }

  /** The service routine; `accept` is the bus's answer to a write, should one be made. */
  function Update(s: State, accept: bool): State {
    var t := s.(serviceRequested := false);
    if t.txBusy then t
    else
      var (idx, found) := Scan(t.values, t.idx, |t.values|);
      if !found then t.(idx := idx)
      else
        var fired := Fire(t.values[idx], accept);
        var u := t.(idx := idx, values := t.values[idx := fired]);
        if accept then u.(txBusy := true, wire := Some(Message(idx, fired.address, fired.payload)))
        else RequestService(u, TIME_RETRIGGER)
  }

  /** The answer of the bus: the value is settled, the container asks to be served again. */
  function HandleResult(s: State, result: byte): State
    requires s.wire.Some? && s.wire.value.sender < |s.values|
  {
    var i := s.wire.value.sender;
    RequestService(s.(txBusy := false, wire := None, values := s.values[i := Confirm(s.values[i], result)]),
                   if result == 0 then TIME_NOW else TIME_RETRIGGER)
  }

  // ---------------------------------------------------------------- steps and runs

  /** A timer fires only if one is armed, an answer comes only to a message in flight. */
  predicate Enabled(s: State, e: Event) {
    match e
    case Timer(_) => s.timers != []
    case Ack(_) => s.wire.Some? && s.wire.value.sender < |s.values|
    case _ => true
  }

  function Step(s: State, e: Event): State
    requires Enabled(s, e)
  {
    match e
    case SetTarget(key, value) => SetValue(s, key, value)
    case Switch(address, available) => ChangeNodeAvailable(s, address, available)
    case Timer(accept) => Update(s.(timers := s.timers[1..]), accept)
    case Ack(result) => HandleResult(s, result)
  }

  /** Every event of the run is enabled when its turn comes. */
  predicate IsRun(s: State, es: seq<Event>)
    decreases |es|, 0
  {
    es == [] || (IsRun(s, es[..|es| - 1]) && Enabled(Run(s, es[..|es| - 1]), es[|es| - 1]))
  }

  function Run(s: State, es: seq<Event>): State
    requires IsRun(s, es)
    decreases |es|, 1
  {
    if es == [] then s else Step(Run(s, es[..|es| - 1]), es[|es| - 1])
  }

  /** After construction and registration: nothing available, nothing on its way, the index on the last value. */
  predicate Initial(s: State) {
    && s.idx == (if |s.values| == 0 then 0 else |s.values| - 1)
    && !s.txBusy && !s.serviceRequested && s.timers == [] && s.wire.None?
    && forall i :: 0 <= i < |s.values| ==>
      !s.values[i].available && !s.values[i].busy && s.values[i].target == 1 && s.values[i].actual == 1
  }

  // ---------------------------------------------------------------- the invariant

  /** At most one message is in flight, and it says what its sender is waiting to have confirmed. */
  predicate SingleFlight(s: State) {
    && (s.txBusy <==> s.wire.Some?)
    && (s.wire.Some? ==>
         && s.wire.value.sender < |s.values|
         && var v := s.values[s.wire.value.sender];
         && v.busy && s.wire.value.address == v.address
         && s.wire.value.payload == v.payload == Payload(v.transmitted, v.kind))
    && (forall i :: 0 <= i < |s.values| && s.values[i].busy ==> s.wire.Some? && s.wire.value.sender == i)
  }

  /** Whoever needs an update will be served: a message is in flight or the service has been requested. */
  predicate NoLostWakeUp(s: State) {
    && |s.timers| == (if s.serviceRequested then 1 else 0)
    && ((exists i :: 0 <= i < |s.values| && RequiresUpdate(s.values[i])) ==> s.txBusy || s.serviceRequested)
  }

  predicate Inv(s: State) {
    && (s.idx < |s.values| || s.idx == |s.values| == 0)
    && SingleFlight(s)
    && NoLostWakeUp(s)
  }

  /** How many increments lead from one index to another: at least 1, at most n. */
  function Distance(idx: nat, i: nat, n: nat): int {
    if i > idx then i - idx else i + n - idx
  }

  /** The scan stops at the first value that requires an update, in cyclic order after the index;
      if it stops nowhere within its turns, none of the values passed requires one. */
  lemma {:induction false} ScanFindsNext(values: seq<Val>, idx: nat, turns: nat)
    requires idx < |values| && turns <= |values|
    ensures var (j, found) := Scan(values, idx, turns);
      && (found ==> RequiresUpdate(values[j]) && Distance(idx, j, |values|) <= turns)
      && (forall i :: 0 <= i < |values| && Distance(idx, i, |values|) <= turns && RequiresUpdate(values[i]) ==>
           found && Distance(idx, j, |values|) <= Distance(idx, i, |values|))
      && (!found && turns == |values| ==> j == idx)
      && (!found ==> j == if idx + turns < |values| then idx + turns else idx + turns - |values|)
    decreases turns
  {
    if turns > 0 {
      var next := NextIndex(idx, |values|);
      if !RequiresUpdate(values[next]) {
        ScanFindsNext(values, next, turns - 1);
        forall i | 0 <= i < |values| && i != next
          ensures Distance(next, i, |values|) == Distance(idx, i, |values|) - 1
        {
        }
      }
    }
  }

  /** The first scan begins with the first value of the list. */
  lemma FirstScanFromStart(s: State, values: seq<Val>)
    requires Initial(s) && |values| == |s.values| > 0
    ensures var (j, found) := Scan(values, s.idx, |values|);
      if found then RequiresUpdate(values[j]) && forall i :: 0 <= i < j ==> !RequiresUpdate(values[i])
      else forall i :: 0 <= i < |values| ==> !RequiresUpdate(values[i])
  {
    ScanFindsNext(values, s.idx, |values|);
    assert forall i :: 0 <= i < |values| ==> Distance(s.idx, i, |values|) == i + 1;
  }

  lemma InitialInv(s: State)
    requires Initial(s)
    ensures Inv(s)
  {
  }

  lemma UpdateKeepsInv(s: State, accept: bool)
    requires Inv(s) && s.timers != []
    ensures Inv(Step(s, Timer(accept)))
  {
    if !s.txBusy && |s.values| > 0 {
      ScanFindsNext(s.values, s.idx, |s.values|);
    }
  }

  /** Every step keeps the invariant. */
  lemma StepKeepsInv(s: State, e: Event)
    requires Inv(s) && Enabled(s, e)
    ensures Inv(Step(s, e))
  {
    match e
    case Timer(accept) => UpdateKeepsInv(s, accept);
    case SetTarget(key, value) =>
      var t := SetValue(s, key, value);
      forall i | 0 <= i < |t.values| && RequiresUpdate(t.values[i])
        ensures t.txBusy || t.serviceRequested
      {
        if t.values[i].key != key {
          assert RequiresUpdate(s.values[i]);
        }
      }
    case Switch(address, available) =>
      var t := ChangeNodeAvailable(s, address, available);
      forall i | 0 <= i < |t.values| && RequiresUpdate(t.values[i])
        ensures t.txBusy || t.serviceRequested
      {
        if t.values[i].address != address {
          assert RequiresUpdate(s.values[i]);
        }
      }
    case Ack(result) =>
  }

  /** Single flight and no lost wake-up hold in every reachable state. */
  lemma {:induction false} Reachable(s: State, es: seq<Event>)
    requires Initial(s) && IsRun(s, es)
    ensures Inv(Run(s, es))
  {
    if es == [] {
      InitialInv(s);
    } else {
      Reachable(s, es[..|es| - 1]);
      StepKeepsInv(Run(s, es[..|es| - 1]), es[|es| - 1]);
    }
  }

  // ---------------------------------------------------------------- what the steps do

  /** A new target reaches every value with the key, and changes nothing else of any value. */
  lemma SetTargetSets(s: State, key: nat, value: byte)
    ensures var t := Step(s, SetTarget(key, value));
      && |t.values| == |s.values| && t.idx == s.idx && t.txBusy == s.txBusy && t.wire == s.wire
      && forall i :: 0 <= i < |s.values| ==>
           var v := s.values[i];
           t.values[i] == Val(v.address, v.kind, v.key, v.available, v.busy, if v.key == key then value else v.target,
                              v.transmitted, v.actual, v.payload)
  {
  }

  /** A node that comes or goes changes the availability of its values and forgets what was confirmed. */
  lemma SwitchSwitches(s: State, address: nat, available: bool)
    ensures var t := Step(s, Switch(address, available));
      && |t.values| == |s.values| && t.idx == s.idx && t.txBusy == s.txBusy && t.wire == s.wire
      && forall i :: 0 <= i < |s.values| ==>
           var v := s.values[i];
           t.values[i] == if v.address == address
                          then Val(address, v.kind, v.key, available, v.busy, v.target, v.transmitted, 1, v.payload)
                          else v
  {
  }

  /** Which timer each step arms: at once for a new target or a confirmation, after 30 ms for a node that comes, a
      refusal or an error, and none if one is armed already. */
  lemma StepArms(s: State, e: Event)
    requires Inv(s) && Enabled(s, e)
    ensures match e
      case SetTarget(key, value) =>
        Step(s, e).timers == s.timers + if s.timers == [] && !s.txBusy && Changes(s, key, value) then [0] else []
      case Switch(_, available) => Step(s, e).timers == s.timers + if s.timers == [] && available then [30] else []
      case Ack(result) =>
        Step(s, e).timers == s.timers + if s.timers == [] then (if result == 0 then [0] else [30]) else []
      case Timer(accept) => Step(s, e).timers == if !s.txBusy && !accept && AnyBehind(s) then [30] else []
  {
    assert s.timers + [] == s.timers;
    match e
    case Timer(_) =>
      if |s.values| > 0 {
        ScanFindsNext(s.values, s.idx, |s.values|);
      }
    case SetTarget(key, value) =>
      assert forall i :: 0 <= i < |s.values| ==>
        (RequiresUpdate(Retarget(s.values, key, value)[i]) && s.values[i].key == key
         <==> s.values[i].key == key && IsIdle(s, i) && s.values[i].actual != value);
    case _ =>
  }

  predicate IsIdle(s: State, i: nat) {
    i < |s.values| && s.values[i].available && !s.values[i].busy
  }

  predicate Changes(s: State, key: nat, value: byte) {
    exists i :: 0 <= i < |s.values| && s.values[i].key == key && IsIdle(s, i) && s.values[i].actual != value
  }

  predicate AnyBehind(s: State) {
    exists i :: 0 <= i < |s.values| && IsIdle(s, i) && s.values[i].actual != s.values[i].target
  }

  /** The value set last for a key, and 1 before any. */
  function LastTarget(es: seq<Event>, key: nat): byte {
    if es == [] then 1
    else
      match es[|es| - 1]
      case SetTarget(other, value) => if other == key then value else LastTarget(es[..|es| - 1], key)
      case _ => LastTarget(es[..|es| - 1], key)
  }

  /** Whether a node came last, or went, or never came. */
  function LastSwitch(es: seq<Event>, address: nat): bool {
    if es == [] then false
    else
      match es[|es| - 1]
      case Switch(other, available) => if other == address then available else LastSwitch(es[..|es| - 1], address)
      case _ => LastSwitch(es[..|es| - 1], address)
  }

  /** Timers and answers leave the goals alone. */
  lemma ServiceKeepsGoals(s: State, e: Event)
    requires Enabled(s, e) && (e.Timer? || e.Ack?)
    ensures |Step(s, e).values| == |s.values|
    ensures forall i :: 0 <= i < |s.values| ==>
      var v := s.values[i];
      var w := Step(s, e).values[i];
      w.address == v.address && w.kind == v.kind && w.key == v.key && w.available == v.available && w.target == v.target
  {
  }

  /** After any run each value has the target set last for its key, and is available exactly if its node came last. */
  lemma {:induction false} GoalsAreLastSet(s: State, es: seq<Event>)
    requires Initial(s) && IsRun(s, es)
    ensures |Run(s, es).values| == |s.values|
    ensures forall i :: 0 <= i < |s.values| ==>
      var v := s.values[i];
      var w := Run(s, es).values[i];
      && w.address == v.address && w.kind == v.kind && w.key == v.key
      && w.target == LastTarget(es, v.key) && w.available == LastSwitch(es, v.address)
  {
    if es != [] {
      var before := es[..|es| - 1];
      GoalsAreLastSet(s, before);
      var t := Run(s, before);
      match es[|es| - 1]
      case SetTarget(key, value) => SetTargetSets(t, key, value);
      case Switch(address, available) => SwitchSwitches(t, address, available);
      case e => ServiceKeepsGoals(t, e);
    }
  }

  /** In every reachable state without timer and without message, every value of a node that is there is confirmed
      at the value set last for its key. */
  lemma QuietMeansSynchronised(s: State, es: seq<Event>)
    requires Initial(s) && IsRun(s, es)
    requires Run(s, es).timers == [] && Run(s, es).wire.None?
    ensures var t := Run(s, es);
      forall i :: 0 <= i < |t.values| && t.values[i].available ==> t.values[i].actual == t.values[i].target
    ensures var t := Run(s, es);
      && |t.values| == |s.values|
      && forall i :: 0 <= i < |s.values| && LastSwitch(es, s.values[i].address) ==>
           t.values[i].actual == LastTarget(es, s.values[i].key)
  {
    Reachable(s, es);
    GoalsAreLastSet(s, es);
    var t := Run(s, es);
    forall i | 0 <= i < |t.values| && t.values[i].available
      ensures t.values[i].actual == t.values[i].target
    {
      assert !RequiresUpdate(t.values[i]);
    }
  }

  // ---------------------------------------------------------------- fairness

  /** The value that a step offers to the bus, whether the bus accepts it or not. */
  function Attempt(s: State, e: Event): Option<nat> {
    if e.Timer? && !s.txBusy && Scan(s.values, s.idx, |s.values|).1
    then Some(Scan(s.values, s.idx, |s.values|).0)
    else None
  }

  /** How many times the service routine runs while no message is in flight. */
  function FreeUpdates(s: State, es: seq<Event>): nat
    requires IsRun(s, es)
  {
    if es == [] then 0
    else
      var before := es[..|es| - 1];
      FreeUpdates(s, before) + if es[|es| - 1].Timer? && !Run(s, before).txBusy then 1 else 0
  }

  lemma StepKeepsSize(s: State, e: Event)
    requires Enabled(s, e)
    ensures |Step(s, e).values| == |s.values|
  {
  }

  /** While value `i` requires an update, every free run of the service routine that does not offer it
      brings the processing index closer to it; no other step moves the index. */
  lemma StepApproaches(s: State, e: Event, i: nat)
    requires Inv(s) && Enabled(s, e) && i < |s.values| && RequiresUpdate(s.values[i]) && Attempt(s, e) != Some(i)
    ensures var n := |s.values|;
      Distance(Step(s, e).idx, i, n) + (if e.Timer? && !s.txBusy then 1 else 0) <= Distance(s.idx, i, n)
  {
    ScanFindsNext(s.values, s.idx, |s.values|);
  }

  /** Round-robin fairness: a value that keeps requiring an update and is not offered to the bus lets the
      service routine run freely at most n - 1 times, whatever else happens. */
  lemma {:induction false} Fairness(s: State, es: seq<Event>, i: nat)
    requires Inv(s) && IsRun(s, es) && i < |s.values|
    requires forall k :: 0 <= k < |es| ==> WaitsAt(s, es, k, i)
    ensures Inv(Run(s, es)) && |Run(s, es).values| == |s.values|
    ensures FreeUpdates(s, es) + Distance(Run(s, es).idx, i, |s.values|) <= Distance(s.idx, i, |s.values|)
    ensures FreeUpdates(s, es) < |s.values|
  {
    if es != [] {
      var last := |es| - 1;
      var before := es[..last];
      forall k | 0 <= k < last
        ensures WaitsAt(s, before, k, i)
      {
        assert WaitsAt(s, es, k, i);
        assert before[..k] == es[..k];
      }
      Fairness(s, before, i);
      assert WaitsAt(s, es, last, i);
      StepApproaches(Run(s, before), es[last], i);
      StepKeepsInv(Run(s, before), es[last]);
      StepKeepsSize(Run(s, before), es[last]);
    }
  }

  /** Before event `k` of the run value `i` requires an update, and that event does not offer it. */
  predicate WaitsAt(s: State, es: seq<Event>, k: nat, i: nat) {
    && k < |es| && IsRun(s, es[..k])
    && var t := Run(s, es[..k]);
    i < |t.values| && RequiresUpdate(t.values[i]) && Attempt(t, es[k]) != Some(i)
  }

  // ---------------------------------------------------------------- convergence

  /** The value that will be confirmed if all goes well. */
  function Effective(v: Val): byte {
    if v.busy then v.transmitted else v.actual
  }

  predicate Behind(v: Val) {
    v.available && Effective(v) != v.target
  }

  function CountBehind(values: seq<Val>): nat {
    if values == [] then 0 else CountBehind(values[..|values| - 1]) + if Behind(values[|values| - 1]) then 1 else 0
  }

  lemma {:induction false} CountAfterUpdate(values: seq<Val>, i: nat, v: Val)
    requires i < |values|
    ensures CountBehind(values[i := v])
      == CountBehind(values) - (if Behind(values[i]) then 1 else 0) + (if Behind(v) then 1 else 0)
  {
    var n := |values| - 1;
    if i < n {
      CountAfterUpdate(values[..n], i, v);
      assert values[i := v][..n] == values[..n][i := v];
    } else {
      assert values[i := v][..n] == values[..n];
    }
  }

  function Measure(s: State): nat {
    3 * CountBehind(s.values) + (if s.wire.Some? then 2 else 0) + if s.serviceRequested then 1 else 0
  }

  /** A timer or an answer, as opposed to what users and nodes do. */
  predicate Served(e: Event) {
    e.Timer? || e.Ack?
  }

  /** The bus accepts every write and confirms every message. */
  predicate Fair(e: Event) {
    e == Timer(true) || e == Ack(0)
  }

  /** What an event may add to the measure: a refused write asks for service again, an error leaves the value
      behind, and a new target or a node that comes or goes may leave every value behind. */
  function Cost(e: Event, n: nat): nat {
    match e
    case Timer(accept) => if accept then 0 else 1
    case Ack(result) => if result == 0 then 0 else 3
    case _ => 3 * n + 2
  }

  function Costs(es: seq<Event>, n: nat): nat {
    if es == [] then 0 else Costs(es[..|es| - 1], n) + Cost(es[|es| - 1], n)
  }

  /** Same targets, same availability. */
  predicate SameGoal(s: State, t: State) {
    |s.values| == |t.values| && forall i :: 0 <= i < |s.values| ==>
      t.values[i].target == s.values[i].target && t.values[i].available == s.values[i].available
  }

  lemma {:induction false} CountAtMost(values: seq<Val>)
    ensures CountBehind(values) <= |values|
  {
    if values != [] {
      CountAtMost(values[..|values| - 1]);
    }
  }

  /** A step costs one unit of the measure, and gives back at most its cost. */
  lemma StepDecreases(s: State, e: Event)
    requires Inv(s) && Enabled(s, e)
    ensures Measure(Step(s, e)) < Measure(s) + Cost(e, |s.values|)
    ensures Served(e) ==> SameGoal(s, Step(s, e))
  {
    match e
    case Timer(accept) =>
      TimerDecreases(s, accept);
    case Ack(result) =>
      var j := s.wire.value.sender;
      CountAfterUpdate(s.values, j, Confirm(s.values[j], result));
    case _ =>
      hide CountBehind, Inv;
      CountAtMost(Step(s, e).values);
  }

  lemma TimerDecreases(s: State, accept: bool)
    requires Inv(s) && s.timers != []
    ensures var t := Step(s, Timer(accept)); SameGoal(s, t) && Measure(t) < Measure(s) + if accept then 0 else 1
  {
    hide CountBehind;
    if !s.txBusy && |s.values| > 0 {
      ScanFindsNext(s.values, s.idx, |s.values|);
      var (j, found) := Scan(s.values, s.idx, |s.values|);
      if found {
        CountAfterUpdate(s.values, j, Fire(s.values[j], accept));
      }
    }
  }

  /** All available values are confirmed. */
  predicate Synchronised(s: State) {
    forall i :: 0 <= i < |s.values| && s.values[i].available ==> s.values[i].actual == s.values[i].target
  }

  /** Nothing but a timer or an answer could happen next, and neither can. */
  predicate Quiet(s: State) {
    !Enabled(s, Timer(true)) && !Enabled(s, Ack(0))
  }

  /** From any state of the invariant every run, with whatever refusals, errors, new targets and nodes that come
      or go, is at most as long as the measure of its first state and the costs of its events. Where nothing is
      left to do, all available values are confirmed; without new targets and switches, with the targets they had
      at the start. */
  lemma {:induction false} Converges(s: State, es: seq<Event>)
    requires Inv(s) && IsRun(s, es)
    ensures Inv(Run(s, es)) && |Run(s, es).values| == |s.values|
    ensures |es| + Measure(Run(s, es)) <= Measure(s) + Costs(es, |s.values|)
    ensures (forall k :: 0 <= k < |es| ==> Served(es[k])) ==> SameGoal(s, Run(s, es))
    ensures Quiet(Run(s, es)) ==> Synchronised(Run(s, es))
  {
    if es != [] {
      var before := es[..|es| - 1];
      var e := es[|es| - 1];
      Converges(s, before);
      StepDecreases(Run(s, before), e);
      StepKeepsInv(Run(s, before), e);
      StepKeepsSize(Run(s, before), e);
    }
    var t := Run(s, es);
    if Quiet(t) {
      forall i | 0 <= i < |t.values| && t.values[i].available
        ensures t.values[i].actual == t.values[i].target
      {
        assert !RequiresUpdate(t.values[i]);
      }
    }
  }

  /** With a bus that accepts and confirms, a run without new targets and switches costs nothing, so it ends
      within the measure of its first state. */
  lemma {:induction false} FairRunsEnd(s: State, es: seq<Event>)
    requires Inv(s) && IsRun(s, es) && forall k :: 0 <= k < |es| ==> Fair(es[k])
    ensures |es| + Measure(Run(s, es)) <= Measure(s) && SameGoal(s, Run(s, es))
  {
    FairRunsAreFree(es, |s.values|);
    Converges(s, es);
  }

  lemma {:induction false} FairRunsAreFree(es: seq<Event>, n: nat)
    requires forall k :: 0 <= k < |es| ==> Fair(es[k])
    ensures Costs(es, n) == 0
  {
    if es != [] {
      FairRunsAreFree(es[..|es| - 1], n);
    }
  }

  // ---------------------------------------------------------------- honest confirmation

  /** What can be seen from outside: what is put on the bus, how the bus answers, and which nodes come or go. */
  datatype Seen = Sent(sender: nat, payload: seq<byte>) | Answered(sender: nat, result: byte) | Switched(address: nat)

  function Observe(s: State, e: Event): seq<Seen>
    requires Enabled(s, e)
  {
    match e
    case SetTarget(_, _) => []
    case Switch(address, _) => [Switched(address)]
    case Timer(accept) =>
      var t := Step(s, e);
      if Attempt(s, e).Some? && accept && t.wire.Some? then [Sent(t.wire.value.sender, t.wire.value.payload)] else []
    case Ack(result) => [Answered(s.wire.value.sender, result)]
  }

  function Log(s: State, es: seq<Event>): seq<Seen>
    requires IsRun(s, es)
  {
    if es == [] then [] else Log(s, es[..|es| - 1]) + Observe(Run(s, es[..|es| - 1]), es[|es| - 1])
  }

  /** The payload that value `i` sent last. */
  function LastSent(log: seq<Seen>, i: nat): Option<seq<byte>> {
    if log == [] then None
    else
      var e := log[|log| - 1];
      if e.Sent? && e.sender == i then Some(e.payload) else LastSent(log[..|log| - 1], i)
  }

  /** What an observer knows of value `i` of node `address`: what it sent last when the bus last confirmed
      it, or 1 if the node came or went since, or if nothing was ever confirmed. */
  function Confirmed(log: seq<Seen>, i: nat, address: nat): int {
    if log == [] then 1
    else
      var before := log[..|log| - 1];
      match log[|log| - 1]
      case Switched(other) => if other == address then 1 else Confirmed(before, i, address)
      case Answered(sender, result) =>
        if sender == i && result == 0 && LastSent(before, i).Some? && |LastSent(before, i).value| == 3
        then Decode(LastSent(before, i).value) else Confirmed(before, i, address)
      case Sent(_, _) => Confirmed(before, i, address)
  }

  /** What the state must say after the log. */
  predicate Agrees(s: State, log: seq<Seen>) {
    forall i :: 0 <= i < |s.values| ==>
      && s.values[i].actual == Confirmed(log, i, s.values[i].address)
      && (s.values[i].busy ==> LastSent(log, i) == Some(Payload(s.values[i].transmitted, s.values[i].kind)))
  }

  lemma LogOne(log: seq<Seen>, e: Seen)
    ensures (log + [e])[..|log|] == log && (log + [e])[|log|] == e
  {
  }

  lemma TimerAgrees(s: State, accept: bool, log: seq<Seen>)
    requires Inv(s) && s.timers != [] && Agrees(s, log)
    ensures Agrees(Step(s, Timer(accept)), log + Observe(s, Timer(accept)))
  {
    assert log + [] == log;
    if Attempt(s, Timer(accept)).Some? {
      var (j, _) := Scan(s.values, s.idx, |s.values|);
      var t := Step(s, Timer(accept));
      assert t.values == s.values[j := Fire(s.values[j], accept)];
      if accept {
        LogOne(log, Sent(j, Payload(s.values[j].target, s.values[j].kind)));
      }
    }
  }

  lemma AckAgrees(s: State, result: byte, log: seq<Seen>)
    requires Inv(s) && Enabled(s, Ack(result)) && Agrees(s, log)
    ensures Agrees(Step(s, Ack(result)), log + Observe(s, Ack(result)))
  {
    var j := s.wire.value.sender;
    LogOne(log, Answered(j, result));
    PayloadDecodes(s.values[j].transmitted, s.values[j].kind);
  }

  lemma StepAgrees(s: State, e: Event, log: seq<Seen>)
    requires Inv(s) && Enabled(s, e) && Agrees(s, log)
    ensures Agrees(Step(s, e), log + Observe(s, e))
  {
    match e
    case Ack(result) => AckAgrees(s, result, log);
    case Timer(accept) => TimerAgrees(s, accept, log);
    case SetTarget(_, _) => assert log + [] == log;
    case Switch(address, _) => LogOne(log, Switched(address));
  }

  /** In every reachable state the confirmed value of each value is the one an observer would derive from
      the messages and answers on the bus, even when targets change while a message is in flight. */
  lemma {:induction false} HonestConfirmation(s: State, es: seq<Event>)
    requires Initial(s) && IsRun(s, es)
    ensures Agrees(Run(s, es), Log(s, es))
  {
    if es != [] {
      var before := es[..|es| - 1];
      HonestConfirmation(s, before);
      Reachable(s, before);
      StepAgrees(Run(s, before), es[|es| - 1], Log(s, before));
    }
  }

  /** Seen from outside: when nothing is left to do, what the bus last confirmed for each value of a node that is
      there is what was set last for its key. */
  lemma QuietMeansConfirmed(s: State, es: seq<Event>, i: nat)
    requires Initial(s) && IsRun(s, es) && i < |s.values| && LastSwitch(es, s.values[i].address)
    requires Run(s, es).timers == [] && Run(s, es).wire.None?
    ensures Confirmed(Log(s, es), i, s.values[i].address) == LastTarget(es, s.values[i].key)
  {
    QuietMeansSynchronised(s, es);
    HonestConfirmation(s, es);
    GoalsAreLastSet(s, es);
  }
}
