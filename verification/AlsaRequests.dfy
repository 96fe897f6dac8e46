/** The join of a control request list with the controls of a card, for reading and for writing: parsing of the
    list, selection of the controls, and the warnings for what was not served. */
module AlsaRequests {
  import opened Options
  import opened AlsaWords

  datatype Action = Get | Set

  /** JSON as far as it is inspected. `Other` is null, a string, a boolean or a double, with its value as an int. */
  datatype Json = Num(n: int) | List(items: seq<Json>) | Object(id: Option<Json>, val: Option<Json>) | Other(n: int)

  /** One slot of the request table. The slot is not initialised before parsing. */
  datatype Request = Request(numId: word, token: Json, value: Option<Json>, used: int)

  /** Reading a control gives a value or fails, possibly after a value has been stored. */
  datatype Reading = Read(value: Json) | Failed(stored: Option<Json>)

  /** A control of the card; `writable` tells whether the card accepts a write. */
  datatype Control = Control(numid: int, reading: Reading, writable: bool)

  /** A value read from or written to a control. */
  datatype Answer = Answer(numid: int, value: Json)

  /** A response is an array unless one control was requested; writing has none. */
  datatype Response = Nothing | Single(value: Json) | Many(values: seq<Json>)

  datatype WarningKind = NumidInvalid | NoSuchControl | ValueRefused

  datatype Warning = Warning(kind: WarningKind, token: Json)

  // ---------------------------------------------------------------- specification

  /** An integer value saturates at 32 bits; lists and objects read as 0. */
  function AsInt(j: Json): int {
    match j
    case Num(n) => if n < -0x8000_0000 then -0x8000_0000 else if n > 0x7fff_ffff then 0x7fff_ffff else n
    case Other(n) => n
    case _ => 0
  }

  function First(items: seq<Json>): int {
    if items == [] then 0 else AsInt(items[0])
  }

  /** The tokens [number, values] name one control. A number in second place is taken for this form as well. */
  predicate IsShortForm(action: Action, tokens: seq<Json>) {
    action == Set && |tokens| == 2 && (tokens[0].Num? || tokens[1].Num?)
  }

  /** How many requests the tokens stand for. */
  function RequestCount(action: Action, tokens: seq<Json>): nat {
    if IsShortForm(action, tokens) then 1 else |tokens|
  }

  /** A slot after parsing token `i`; a slot without a number keeps whatever number it held. */
  function Parsed(action: Action, slot: Request, tokens: seq<Json>, i: nat): Request
    requires i < |tokens|
  {
    var token := tokens[i];
    match token
    case Num(_) =>
      Request(Unsigned(AsInt(token)), token, if IsShortForm(action, tokens) then Some(tokens[1]) else None, 0)
    case List(items) =>
      var value := if action == Set && |items| == 2 then Some(items[1]) else None;
      Request(Unsigned(First(items)), token, value, if action == Set && value.None? then -1 else 0)
    case Object(Some(id), val) =>
      var value := if action == Set then val else None;
      Request(Unsigned(AsInt(id)), token, value, if action == Set && value.None? then -1 else 0)
    case _ =>
      Request(slot.numId, token, None, -1)
  }

  /** The table after parsing. */
  function ParsedTable(action: Action, slots: seq<Request>, tokens: seq<Json>): (rs: seq<Request>)
    requires |slots| == |tokens|
    ensures |rs| == RequestCount(action, tokens)
  {
    seq(RequestCount(action, tokens), i requires 0 <= i < |tokens| => Parsed(action, slots[i], tokens, i))
  }

  /** The first request from position `from` on that names the control, or the number of requests. */
  function FirstMatch(rs: seq<Request>, numid: int, from: nat): (j: nat)
    requires from <= |rs|
    ensures from <= j <= |rs| && (j < |rs| ==> rs[j].numId == numid)
    ensures forall k :: from <= k < j ==> rs[k].numId != numid
    decreases |rs| - from
  {
    if from == |rs| || rs[from].numId == numid then from else FirstMatch(rs, numid, from + 1)
  }

  /** A write needs a number or a list with elements. */
  predicate HasElements(value: Option<Json>) {
    value.Some? && (value.value.Num? || (value.value.List? && value.value.items != []))
  }

  /** The slot after its control has been read or written. */
  function Served(action: Action, r: Request, c: Control): Request {
    match action
    case Set => r.(used := if c.writable && HasElements(r.value) then 1 else -1)
    case Get =>
      match c.reading
      case Read(v) => r.(value := Some(v), used := 1)
      case Failed(stored) => r.(value := if stored.Some? then stored else r.value, used := -1)
  }

  /** What a served slot contributes; NULL values print as null. */
  function AnswerOf(r: Request): Answer {
    Answer(r.numId, if r.value.Some? then r.value.value else Other(0))
  }

  predicate Selects(rs: seq<Request>, c: Control) {
    c.numid >= 0 && FirstMatch(rs, c.numid, 0) < |rs|
  }

  /** The table and the answers after the card's controls have been visited in order. */
  function Serve(action: Action, rs: seq<Request>, card: seq<Control>): (r: (seq<Request>, seq<Answer>))
    ensures |r.0| == |rs|
    ensures forall i :: 0 <= i < |rs| ==> r.0[i].numId == rs[i].numId && r.0[i].token == rs[i].token
  {
    if card == [] then (rs, [])
    else
      var (before, answers) := Serve(action, rs, card[..|card| - 1]);
      var c := card[|card| - 1];
      if !Selects(before, c) then (before, answers)
      else
        var j := FirstMatch(before, c.numid, 0);
        var slot := Served(action, before[j], c);
        (before[j := slot], if slot.used > 0 then answers + [AnswerOf(slot)] else answers)
  }

  function ValuesOf(answers: seq<Answer>): seq<Json> {
    seq(|answers|, i requires 0 <= i < |answers| => answers[i].value)
  }

  /** The response for so many requests; of several values for one request the last one stays. */
  function Respond(action: Action, count: nat, answers: seq<Answer>): Response {
    if action == Set then Nothing
    else if count != 1 then Many(ValuesOf(answers))
    else if answers == [] then Nothing
    else Single(answers[|answers| - 1].value)
  }

  function Values(response: Response): seq<Json> {
    match response
    case Nothing => []
    case Single(value) => [value]
    case Many(values) => values
  }

  /** The values of all controls that can be read, in order. */
  function Readings(card: seq<Control>): seq<Json> {
    if card == [] then []
    else
      var rest := Readings(card[..|card| - 1]);
      var c := card[|card| - 1];
      if c.reading.Read? then rest + [c.reading.value] else rest
  }

  function WarningOf(r: Request): Warning {
    var kind := if r.numId == 0xFFFF_FFFF then NumidInvalid else if r.used == 0 then NoSuchControl else ValueRefused;
    Warning(kind, r.token)
  }

  /** A warning for every request that has not been served, in order. */
  function Warnings(rs: seq<Request>): seq<Warning> {
    if rs == [] then []
    else Warnings(rs[..|rs| - 1]) + if rs[|rs| - 1].used <= 0 then [WarningOf(rs[|rs| - 1])] else []
  }

  // ---------------------------------------------------------------- the loops

  /** NumidsListParse. `requests` arrives with arbitrary contents. */
  method ParseNumids(action: Action, tokens: seq<Json>, requests: array<Request>) returns (count: nat)
    requires requests.Length == |tokens|
    modifies requests
    ensures count == RequestCount(action, tokens)
    ensures requests[..count] == ParsedTable(action, old(requests[..]), tokens)
  {
    count := |tokens|;
    var idx := 0;
    while idx < count
      invariant idx <= |tokens| + 1
      invariant count == |tokens| || (count == 1 <= idx && IsShortForm(action, tokens))
      invariant count == |tokens| && IsShortForm(action, tokens) ==> idx <= 1 && (idx == 1 ==> !tokens[0].Num?)
      invariant forall i :: 0 <= i < idx && i < count ==> requests[i] == Parsed(action, old(requests[i]), tokens, i)
      invariant forall i :: idx <= i < |tokens| ==> requests[i] == old(requests[i])
      decreases |tokens| + 1 - idx
    {
      var r := requests[idx].(used := 0, value := None, token := tokens[idx]);
      match tokens[idx] {
        case Num(_) =>
          r := r.(numId := Unsigned(AsInt(tokens[idx])));
          if action == Set && count == 2 {
            requests[idx] := r.(value := Some(tokens[1]));
            count := 1;
            idx := idx + 1;
          } else {
            requests[idx] := r;
          }
        case List(items) =>
          r := r.(numId := Unsigned(First(items)));
          if action == Set {
            r := if |items| == 2 then r.(value := Some(items[1])) else r.(used := -1);
          }
          requests[idx] := r;
        case Object(Some(id), val) =>
          r := r.(numId := Unsigned(AsInt(id)));
          if action == Set {
            r := if val.Some? then r.(value := val) else r.(used := -1);
          }
          requests[idx] := r;
        case _ =>
          requests[idx] := r.(used := -1);
      }
      idx := idx + 1;
    }
  }

  /** The inner loop of the selection. */
  method FindRequest(requests: array<Request>, count: nat, numid: int) returns (jdx: nat)
    requires count <= requests.Length
    ensures jdx == FirstMatch(requests[..count], numid, 0)
  {
    jdx := 0;
    while jdx < count && requests[jdx].numId != numid
      invariant jdx <= count && FirstMatch(requests[..count], numid, 0) == FirstMatch(requests[..count], numid, jdx)
    {
      jdx := jdx + 1;
    }
  }

  /** The controls that a request names, in the order of the card, each for the first request that names it. */
  method VisitNamed(action: Action, count: nat, card: seq<Control>, requests: array<Request>)
    returns (response: Response, answers: seq<Answer>)
    requires count <= requests.Length && (action == Set || count > 0)
    modifies requests
    ensures (requests[..count], answers) == Serve(action, old(requests[..count]), card)
    ensures response == Respond(action, count, answers)
  {
    ghost var rs := requests[..count];
    answers := [];
    response := if count != 1 && action == Get then Many([]) else Nothing;
    for ctlIndex := 0 to |card|
      invariant (requests[..count], answers) == Serve(action, rs, card[..ctlIndex])
      invariant response == Respond(action, count, answers)
    {
      var c := card[ctlIndex];
      assert card[..ctlIndex + 1][..ctlIndex] == card[..ctlIndex];
      if c.numid < 0 {
        continue;
      }
      ghost var before := requests[..count];
      var jdx := FindRequest(requests, count, c.numid);
      if jdx < count {
        requests[jdx] := Served(action, requests[jdx], c);
        assert requests[..count] == before[jdx := requests[jdx]];
        if requests[jdx].used > 0 {
          ghost var values := ValuesOf(answers);
          answers := answers + [AnswerOf(requests[jdx])];
          assert ValuesOf(answers) == values + [AnswerOf(requests[jdx]).value];
          if action == Get {
            var value := requests[jdx].value.value;
            response := if count == 1 then Single(value) else Many(Values(response) + [value]);
          }
        }
      }
    }
    assert card[..|card|] == card;
  }

  /** Without a request, every control of the card is read into the slot at its own position. */
  method VisitAll(card: seq<Control>, requests: array<Request>) returns (response: Response)
    requires requests.Length == |card|
    modifies requests
    ensures forall i :: 0 <= i < |card| ==> requests[i] == Served(Get, old(requests[i]), card[i])
    ensures response == Many(Readings(card))
  {
    response := Many([]);
    for ctlIndex := 0 to |card|
      invariant forall i :: 0 <= i < ctlIndex ==> requests[i] == Served(Get, old(requests[i]), card[i])
      invariant forall i :: ctlIndex <= i < |card| ==> requests[i] == old(requests[i])
      invariant response == Many(Readings(card[..ctlIndex]))
    {
      var c := card[ctlIndex];
      assert card[..ctlIndex + 1][..ctlIndex] == card[..ctlIndex];
      requests[ctlIndex] := Served(Get, requests[ctlIndex], c);
      if requests[ctlIndex].used > 0 {
        response := Many(response.values + [requests[ctlIndex].value.value]);
      }
    }
    assert card[..|card|] == card;
  }

  /** alsaSetGetCtls: `answers` is what is read for or written of the requests. The table arrives with
      arbitrary contents. */
  method SetGetControls(action: Action, tokens: seq<Json>, card: seq<Control>, requests: array<Request>)
    returns (response: Response, answers: seq<Answer>, warnings: seq<Warning>)
    requires requests.Length == if tokens == [] then |card| else |tokens|
    modifies requests
    ensures tokens != [] || action == Set ==>
      var rs := ParsedTable(action, old(requests[..|tokens|]), tokens);
      && (requests[..|rs|], answers) == Serve(action, rs, card)
      && response == Respond(action, |rs|, answers)
      && warnings == Warnings(requests[..|rs|])
    ensures tokens == [] && action == Get ==>
      && (forall i :: 0 <= i < |card| ==> requests[i] == Served(Get, old(requests[i]), card[i]))
      && response == Many(Readings(card))
      && warnings == []
  {
    var count := 0;
    if tokens != [] {
      assert requests[..|tokens|] == requests[..];
      count := ParseNumids(action, tokens, requests);
    }
    answers := [];
    if count == 0 && action == Get {
      response := VisitAll(card, requests);
    } else {
      response, answers := VisitNamed(action, count, card, requests);
    }
    ghost var final := requests[..];
    warnings := [];
    for jdx := 0 to count
      invariant requests[..] == final && warnings == Warnings(final[..jdx])
    {
      assert final[..jdx + 1][..jdx] == final[..jdx];
      if requests[jdx].used <= 0 {
        warnings := warnings + [WarningOf(requests[jdx])];
      }
    }
    assert final[..count] == requests[..count];
  }

  // ---------------------------------------------------------------- every request is answered once

  predicate DistinctNumids(card: seq<Control>) {
    forall i, j :: 0 <= i < j < |card| ==> card[i].numid != card[j].numid
  }

  /** The first request that names its control. */
  predicate IsFirst(rs: seq<Request>, i: nat) {
    i < |rs| && forall k :: 0 <= k < i ==> rs[k].numId != rs[i].numId
  }

  /** The position of the control that request `i` names, if the card has it. */
  predicate Names(rs: seq<Request>, i: nat, card: seq<Control>, k: nat) {
    i < |rs| && k < |card| && card[k].numid == rs[i].numId
  }

  lemma FirstMatchSame(rs: seq<Request>, ts: seq<Request>, numid: int, from: nat)
    requires |rs| == |ts| && from <= |rs| && forall i :: 0 <= i < |rs| ==> rs[i].numId == ts[i].numId
    ensures FirstMatch(rs, numid, from) == FirstMatch(ts, numid, from)
    decreases |rs| - from
  {
    if from < |rs| {
      FirstMatchSame(rs, ts, numid, from + 1);
    }
  }

  /** A request that is not the first to name its control, or names none of the card, is left as parsed. */
  lemma {:induction false} OthersAreLeft(action: Action, rs: seq<Request>, card: seq<Control>, i: nat)
    requires i < |rs|
    requires !IsFirst(rs, i) || forall k: nat :: !Names(rs, i, card, k)
    ensures Serve(action, rs, card).0[i] == rs[i]
  {
    if card != [] {
      var n := |card| - 1;
      var before := card[..n];
      assert forall k: nat :: Names(rs, i, before, k) ==> Names(rs, i, card, k);
      OthersAreLeft(action, rs, before, i);
      FirstMatchSame(rs, Serve(action, rs, before).0, card[n].numid, 0);
      assert Names(rs, i, card, n) <==> card[n].numid == rs[i].numId;
    }
  }

  /** The first request that names a control of the card is served by it, whatever the other requests are: for
      repeated numbers it is the first request that is answered. A malformed request whose slot happened to
      hold the number of a control is served as well. */
  lemma {:induction false} FirstIsServed(action: Action, rs: seq<Request>, card: seq<Control>, i: nat, k: nat)
    requires i < |rs| && DistinctNumids(card) && IsFirst(rs, i) && Names(rs, i, card, k)
    ensures Serve(action, rs, card).0[i] == Served(action, rs[i], card[k])
  {
    var n := |card| - 1;
    var before := card[..n];
    var bs := Serve(action, rs, before).0;
    FirstMatchSame(rs, bs, card[n].numid, 0);
    if k < n {
      FirstIsServed(action, rs, before, i, k);
      assert card[n].numid != rs[i].numId;
    } else {
      forall l: nat
        ensures !Names(rs, i, before, l)
      {
        assert l < n ==> card[l].numid != card[n].numid;
      }
      OthersAreLeft(action, rs, before, i);
    }
  }

  /** The answers of the slots that have been served. */
  function ServedAnswers(rs: seq<Request>): multiset<Answer> {
    if rs == [] then multiset{}
    else
      var last := rs[|rs| - 1];
      ServedAnswers(rs[..|rs| - 1]) + if last.used > 0 then multiset{AnswerOf(last)} else multiset{}
  }

  lemma {:induction false} AnswersAfterUpdate(rs: seq<Request>, j: nat, r: Request)
    requires j < |rs| && rs[j].used <= 0
    ensures ServedAnswers(rs[j := r])
         == ServedAnswers(rs) + if r.used > 0 then multiset{AnswerOf(r)} else multiset{}
  {
    var n := |rs| - 1;
    if j < n {
      AnswersAfterUpdate(rs[..n], j, r);
      assert rs[j := r][..n] == rs[..n][j := r];
    } else {
      assert rs[j := r][..n] == rs[..n];
    }
  }

  lemma {:induction false} NoneServed(rs: seq<Request>)
    requires forall i :: 0 <= i < |rs| ==> rs[i].used <= 0
    ensures ServedAnswers(rs) == multiset{}
  {
    if rs != [] {
      NoneServed(rs[..|rs| - 1]);
    }
  }

  lemma {:induction false} WarnedOrServed(rs: seq<Request>)
    ensures |Warnings(rs)| + |ServedAnswers(rs)| == |rs|
  {
    if rs != [] {
      WarnedOrServed(rs[..|rs| - 1]);
    }
  }

  /** The answers are those of the served slots, each as often as it occurs there. */
  lemma {:induction false} AnswersAreServed(action: Action, rs: seq<Request>, card: seq<Control>)
    requires DistinctNumids(card) && forall i :: 0 <= i < |rs| ==> rs[i].used <= 0
    ensures multiset(Serve(action, rs, card).1) == ServedAnswers(Serve(action, rs, card).0)
  {
    if card == [] {
      NoneServed(rs);
    } else {
      var n := |card| - 1;
      var before := card[..n];
      AnswersAreServed(action, rs, before);
      var (bs, _) := Serve(action, rs, before);
      var c := card[n];
      if Selects(bs, c) {
        var j := FirstMatch(bs, c.numid, 0);
        assert forall k: nat :: k < n ==> before[k].numid != c.numid;
        assert forall k: nat :: !Names(rs, j, before, k);
        OthersAreLeft(action, rs, before, j);
        AnswersAfterUpdate(bs, j, Served(action, bs[j], c));
      }
    }
  }

  /** For any request list, whatever the table held before, and any card whose controls have distinct numbers,
      every request is reported exactly once: what is read or written is, number by number and value by value, what
      the served slots hold, the response shows all that was read, and each slot that is not served has a warning. */
  lemma EveryRequestAnsweredOnce(action: Action, tokens: seq<Json>, slots: seq<Request>, card: seq<Control>)
    requires |tokens| == |slots| && DistinctNumids(card)
    ensures var rs := ParsedTable(action, slots, tokens);
      var (final, answers) := Serve(action, rs, card);
      && multiset(answers) == ServedAnswers(final)
      && |answers| + |Warnings(final)| == RequestCount(action, tokens)
      && (action == Get ==> Values(Respond(action, |rs|, answers)) == ValuesOf(answers))
  {
    var rs := ParsedTable(action, slots, tokens);
    var (final, answers) := Serve(action, rs, card);
    AnswersAreServed(action, rs, card);
    WarnedOrServed(final);
    assert |multiset(answers)| == |answers|;
  }

  lemma ServeNext(action: Action, rs: seq<Request>, card: seq<Control>, c: Control)
    ensures var (before, answers) := Serve(action, rs, card);
      Serve(action, rs, card + [c]) ==
      if !Selects(before, c) then (before, answers)
      else
        var j := FirstMatch(before, c.numid, 0);
        var slot := Served(action, before[j], c);
        (before[j := slot], if slot.used > 0 then answers + [AnswerOf(slot)] else answers)
  {
    assert (card + [c])[..|card|] == card;
  }

  lemma ForgottenTable(slots: seq<Request>)
    requires |slots| == 2
    ensures ParsedTable(Set, slots, [List([Num(1), Num(50)]), Num(2)])
         == [Request(1, List([Num(1), Num(50)]), Some(Num(50)), 0)]
  {
  }

  /** Serving one request with two controls, the first of which it names. */
  lemma ServeOneOfTwo(r: Request, one: Control, two: Control)
    requires one.numid == r.numId != two.numid && one.writable && HasElements(r.value)
    ensures Serve(Set, [r], [one, two]) == ([r.(used := 1)], [AnswerOf(r.(used := 1))])
  {
    ServeNext(Set, [r], [], one);
    ServeNext(Set, [r], [one], two);
    assert [] + [one] == [one] && [one] + [two] == [one, two];
    var served := r.(used := 1);
    assert FirstMatch([r], one.numid, 0) == 0 && [r][0 := served] == [served];
    assert Served(Set, r, one) == served;
    assert Selects([r], one);
    assert Serve(Set, [r], []) == ([r], []);
    assert Serve(Set, [r], [one]).0 == [served];
    assert Serve(Set, [r], [one]).1 == [AnswerOf(served)];
    assert FirstMatch([served], two.numid, 1) == 1;
    assert !Selects([served], two);
  }

  /** In a list for writing, a number after one other request is forgotten: it has no answer and no warning. */
  lemma SecondRequestForgotten(slots: seq<Request>)
    requires |slots| == 2
    ensures var tokens := [List([Num(1), Num(50)]), Num(2)];
      var card := [Control(1, Failed(None), true), Control(2, Failed(None), true)];
      var (final, answers) := Serve(Set, ParsedTable(Set, slots, tokens), card);
      answers == [Answer(1, Num(50))] && Warnings(final) == []
  {
    hide ParsedTable, Serve;
    ForgottenTable(slots);
    var r := Request(1, List([Num(1), Num(50)]), Some(Num(50)), 0);
    ServeOneOfTwo(r, Control(1, Failed(None), true), Control(2, Failed(None), true));
    var served := [r.(used := 1)];
    assert served[..|served| - 1] == [];
  }

  // ---------------------------------------------------------------- what the table held before

  /** A token names a control. */
  predicate HasNumber(token: Json) {
    token.Num? || token.List? || (token.Object? && token.id.Some?)
  }

  /** What a request list leads to: what is read or written, and the warnings. */
  function Reported(action: Action, slots: seq<Request>, tokens: seq<Json>, card: seq<Control>)
    : (seq<Answer>, seq<Warning>)
    requires |slots| == |tokens|
  {
    var r := Serve(action, ParsedTable(action, slots, tokens), card);
    (r.1, Warnings(r.0))
  }

  /** The numbers that the slots held before parsing make no difference. */
  ghost predicate SlotsDoNotMatter(action: Action, tokens: seq<Json>) {
    forall slots, slots', card | |slots| == |slots'| == |tokens| ::
      Reported(action, slots, tokens, card) == Reported(action, slots', tokens, card)
  }

  /** What the uninitialised table holds makes no difference, for any card, exactly when every token that is parsed has
      a number. */
  lemma StaleNumbersMatter(action: Action, tokens: seq<Json>)
    ensures SlotsDoNotMatter(action, tokens)
        <==> forall i :: 0 <= i < RequestCount(action, tokens) ==> HasNumber(tokens[i])
  {
    if i :| 0 <= i < RequestCount(action, tokens) && !HasNumber(tokens[i]) {
      var slots := Slots(0, |tokens|);
      var slots' := Slots(0xFFFF_FFFF, |tokens|);
      var rs, rs' := ParsedTable(action, slots, tokens), ParsedTable(action, slots', tokens);
      assert rs[i] == Request(0, tokens[i], None, -1) && rs'[i] == Request(0xFFFF_FFFF, tokens[i], None, -1);
      assert Reported(action, slots, tokens, []) == ([], Warnings(rs));
      assert Reported(action, slots', tokens, []) == ([], Warnings(rs'));
      WarningsDiffer(rs, rs');
    } else {
      forall slots, slots' | |slots| == |slots'| == |tokens|
        ensures ParsedTable(action, slots, tokens) == ParsedTable(action, slots', tokens)
      {
      }
    }
  }

  function Slots(numId: word, n: nat): seq<Request> {
    seq(n, _ => Request(numId, Other(0), None, 0))
  }

  /** Two tables that differ only where the second one holds an invalid number are reported differently. */
  lemma {:induction false} WarningsDiffer(rs: seq<Request>, rs': seq<Request>)
    requires |rs| == |rs'|
    requires forall k :: 0 <= k < |rs| ==>
      rs[k] == rs'[k] || (rs[k].used == rs'[k].used == -1 && rs[k].numId != 0xFFFF_FFFF == rs'[k].numId)
    ensures |Warnings(rs)| == |Warnings(rs')|
    ensures rs != rs' ==> Warnings(rs) != Warnings(rs')
  {
    if rs != [] {
      var n := |rs| - 1;
      WarningsDiffer(rs[..n], rs'[..n]);
      var w, w' := Warnings(rs[..n]), Warnings(rs'[..n]);
      assert rs == rs[..n] + [rs[n]] && rs' == rs'[..n] + [rs'[n]];
      assert Warnings(rs)[..|w|] == w && Warnings(rs')[..|w|] == w';
      if rs[n] != rs'[n] {
        assert Warnings(rs)[|w|].kind != Warnings(rs')[|w|].kind;
      }
    }
  }

  /** A valid request goes unserved if the slot of a malformed one before it happens to hold the same number. */
  lemma StaleNumberWins()
    ensures var card := [Control(2, Read(Num(50)), true)];
      var slots := [Request(2, Other(0), None, 0), Request(0, Other(0), None, 0)];
      var (answers, warnings) := Reported(Get, slots, [Other(0), Num(2)], card);
      answers == [Answer(2, Num(50))] && warnings == [Warning(NoSuchControl, Num(2))]
  {
    var c := Control(2, Read(Num(50)), true);
    var slots := [Request(2, Other(0), None, 0), Request(0, Other(0), None, 0)];
    var rs := ParsedTable(Get, slots, [Other(0), Num(2)]);
    assert rs == [Request(2, Other(0), None, -1), Request(2, Num(2), None, 0)];
    ServeNext(Get, rs, [], c);
    assert [] + [c] == [c];
    assert Selects(rs, c) && FirstMatch(rs, 2, 0) == 0;
    var final := Serve(Get, rs, [c]).0;
    assert final == [Request(2, Other(0), Some(Num(50)), 1), rs[1]];
    assert final[..1][..0] == [] && final[..1][0] == final[0];
    assert Warnings(final[..1]) == [];
  }

  // ---------------------------------------------------------------- what becomes of each request

  /** What a served slot holds is an answer, and an answer comes from a served slot. */
  lemma {:induction false} ServedAnswersAre(rs: seq<Request>, a: Answer)
    ensures a in ServedAnswers(rs) <==> exists j :: 0 <= j < |rs| && rs[j].used > 0 && AnswerOf(rs[j]) == a
  {
    if rs != [] {
      var n := |rs| - 1;
      ServedAnswersAre(rs[..n], a);
      assert forall j :: 0 <= j < n ==> rs[..n][j] == rs[j];
      assert a in ServedAnswers(rs) <==> a in ServedAnswers(rs[..n]) || (rs[n].used > 0 && AnswerOf(rs[n]) == a);
    }
  }

  /** A slot that is not served is reported, with the reason. */
  lemma {:induction false} NotServedIsWarned(rs: seq<Request>, i: nat)
    requires i < |rs| && rs[i].used <= 0
    ensures rs[i].numId == 0xFFFF_FFFF ==> Warning(NumidInvalid, rs[i].token) in Warnings(rs)
    ensures rs[i].numId != 0xFFFF_FFFF && rs[i].used == 0 ==> Warning(NoSuchControl, rs[i].token) in Warnings(rs)
    ensures rs[i].numId != 0xFFFF_FFFF && rs[i].used < 0 ==> Warning(ValueRefused, rs[i].token) in Warnings(rs)
  {
    var n := |rs| - 1;
    if i < n {
      NotServedIsWarned(rs[..n], i);
    }
  }

  /** The answers with the number of a control come from the first slot that names it. */
  lemma AnswersBySlot(action: Action, rs: seq<Request>, card: seq<Control>, i: nat, k: nat, a: Answer)
    requires DistinctNumids(card) && IsFirst(rs, i) && Names(rs, i, card, k)
    requires forall j :: 0 <= j < |rs| ==> rs[j].used <= 0
    requires a.numid == card[k].numid
    ensures var (final, answers) := Serve(action, rs, card);
      a in answers <==> final[i].used > 0 && AnswerOf(final[i]) == a
  {
    var (final, answers) := Serve(action, rs, card);
    AnswersAreServed(action, rs, card);
    ServedAnswersAre(final, a);
    assert a in answers <==> a in multiset(answers);
    forall j | 0 <= j < |rs| && final[j].used > 0 && AnswerOf(final[j]) == a
      ensures j == i
    {
      if j != i {
        assert rs[j].numId == rs[i].numId;
        assert !IsFirst(rs, j) || !IsFirst(rs, i);
        OthersAreLeft(action, rs, card, j);
      }
    }
  }

  /** A write counts as done exactly if the card accepts it and there is a number or a list with elements to write;
      else it is reported as refused. */
  lemma WriteIsDone(rs: seq<Request>, card: seq<Control>, i: nat, k: nat)
    requires DistinctNumids(card) && IsFirst(rs, i) && Names(rs, i, card, k)
    requires forall j :: 0 <= j < |rs| ==> rs[j].used <= 0
    ensures var (final, answers) := Serve(Set, rs, card);
      var value := rs[i].value;
      var something := value.Some? && (value.value.Num? || (value.value.List? && |value.value.items| > 0));
      var done := card[k].writable && something;
      && (done ==> forall a: Answer :: a.numid == card[k].numid ==> (a in answers <==> a.value == value.value))
      && (!done ==> forall a: Answer :: a.numid == card[k].numid ==> a !in answers)
      && (!done && rs[i].numId != 0xFFFF_FFFF ==> Warning(ValueRefused, rs[i].token) in Warnings(final))
  {
    var (final, answers) := Serve(Set, rs, card);
    FirstIsServed(Set, rs, card, i, k);
    forall a: Answer | a.numid == card[k].numid
      ensures a in answers <==> final[i].used > 0 && AnswerOf(final[i]) == a
    {
      AnswersBySlot(Set, rs, card, i, k, a);
    }
    if final[i].used <= 0 {
      NotServedIsWarned(final, i);
    }
  }

  /** A control is read exactly if its reading succeeds; else the request is reported as refused. */
  lemma ReadIsDone(rs: seq<Request>, card: seq<Control>, i: nat, k: nat)
    requires DistinctNumids(card) && IsFirst(rs, i) && Names(rs, i, card, k)
    requires forall j :: 0 <= j < |rs| ==> rs[j].used <= 0
    ensures var (final, answers) := Serve(Get, rs, card);
      var done := card[k].reading.Read?;
      && (done ==> forall a: Answer :: a.numid == card[k].numid ==>
           (a in answers <==> a.value == card[k].reading.value))
      && (!done ==> forall a: Answer :: a.numid == card[k].numid ==> a !in answers)
      && (!done && rs[i].numId != 0xFFFF_FFFF ==> Warning(ValueRefused, rs[i].token) in Warnings(final))
  {
    var (final, answers) := Serve(Get, rs, card);
    FirstIsServed(Get, rs, card, i, k);
    forall a: Answer | a.numid == card[k].numid
      ensures a in answers <==> final[i].used > 0 && AnswerOf(final[i]) == a
    {
      AnswersBySlot(Get, rs, card, i, k, a);
    }
    if final[i].used <= 0 {
      NotServedIsWarned(final, i);
    }
  }

  /** A request for a number that the card does not have, or that an earlier request has, is reported as not existing
      unless it is malformed. */
  lemma UnknownIsWarned(action: Action, rs: seq<Request>, card: seq<Control>, i: nat)
    requires i < |rs| && rs[i].used <= 0
    requires !IsFirst(rs, i) || forall k: nat :: !Names(rs, i, card, k)
    ensures var ws := Warnings(Serve(action, rs, card).0);
      if rs[i].numId == 0xFFFF_FFFF then Warning(NumidInvalid, rs[i].token) in ws
      else if rs[i].used == 0 then Warning(NoSuchControl, rs[i].token) in ws
      else Warning(ValueRefused, rs[i].token) in ws
  {
    OthersAreLeft(action, rs, card, i);
    NotServedIsWarned(Serve(action, rs, card).0, i);
  }

  /** The spellings of a request. For reading, a number, a list that begins with it and an object with it as id are the
      same; for writing, the two-element list, the object with id and val, and the short form. */
  lemma SpellingsAgree(slots: seq<Request>, n: int, v: Json, more: seq<Json>)
    requires |slots| == 2 && 0 <= n < 0x8000_0000
    ensures forall token :: token in [Num(n), List([Num(n)] + more), Object(Some(Num(n)), Some(v))] ==>
      ParsedTable(Get, slots, [token, token])[0] == Request(n, token, None, 0)
    ensures forall token :: token in [List([Num(n), v]), Object(Some(Num(n)), Some(v))] ==>
      ParsedTable(Set, slots, [token, token]) == [Request(n, token, Some(v), 0), Request(n, token, Some(v), 0)]
    ensures ParsedTable(Set, slots, [Num(n), v]) == [Request(n, Num(n), Some(v), 0)]
  {
    assert ([Num(n)] + more)[0] == Num(n);
  }

  /** For writing, lists without exactly one value, objects without value, and anything without a number are
      malformed. */
  lemma MalformedIsRefused(slots: seq<Request>, items: seq<Json>, id: Option<Json>)
    requires |slots| == 2 && |items| != 2
    ensures ParsedTable(Set, slots, [List(items), Other(0)])[0].used == -1
    ensures ParsedTable(Set, slots, [Object(id, None), Other(0)])[0].used == -1
    ensures ParsedTable(Set, slots, [Object(None, id), Other(0)])[0].used == -1
    ensures ParsedTable(Set, slots, [Other(0), Other(0)])[0].used == -1
  {
  }

  /** Numbers beyond 32 bits are cut to the nearest int, and negative ones are unsigned numbers. */
  lemma NumbersOfTokens(slots: seq<Request>, n: int)
    requires |slots| == 1
    ensures n > 0x7fff_ffff ==> ParsedTable(Get, slots, [Num(n)])[0].numId == 0x7fff_ffff
    ensures n < -0x8000_0000 ==> ParsedTable(Get, slots, [Num(n)])[0].numId == 0x8000_0000
    ensures ParsedTable(Get, slots, [Num(-1)])[0].numId == 0xFFFF_FFFF
  {
  }

  /** One request for one control gets its value alone, or nothing; two requests get a list; writing gets nothing. */
  lemma ResponseShapes(r: Request, c: Control)
    requires c.numid == r.numId && r.used <= 0
    ensures var answers := Serve(Get, [r], [c]).1;
      Respond(Get, 1, answers) == if c.reading.Read? then Single(c.reading.value) else Nothing
    ensures var answers := Serve(Get, [r, r], [c]).1;
      Respond(Get, 2, answers) == Many(if c.reading.Read? then [c.reading.value] else [])
    ensures forall action, count, answers: seq<Answer> :: action == Set ==> Respond(action, count, answers) == Nothing
  {
    ServeNext(Get, [r], [], c);
    ServeNext(Get, [r, r], [], c);
    assert [] + [c] == [c];
    assert FirstMatch([r], c.numid, 0) == 0 && FirstMatch([r, r], c.numid, 0) == 0;
  }

  /** Reading all controls gives the values of those that can be read, in the order of the card. */
  lemma {:induction false} ReadingsAreInOrder(a: seq<Control>, c: Control, b: seq<Control>)
    ensures Readings(a + [c] + b) == Readings(a) + (if c.reading.Read? then [c.reading.value] else []) + Readings(b)
    decreases b
  {
    if b == [] {
      assert a + [c] + b == a + [c] && (a + [c])[..|a|] == a;
    } else {
      var n := |b| - 1;
      ReadingsAreInOrder(a, c, b[..n]);
      assert (a + [c] + b)[..|a| + 1 + n] == a + [c] + b[..n];
    }
  }

  /** A reading that fails after its value has been stored leaves the value in the slot, which is not served. */
  lemma FailureLeavesValue(r: Request, c: Control, v: Json)
    requires c.numid == r.numId && c.reading == Failed(Some(v)) && r.used <= 0
    ensures Serve(Get, [r], [c]) == ([Request(r.numId, r.token, Some(v), -1)], [])
  {
    ServeNext(Get, [r], [], c);
    assert [] + [c] == [c] && FirstMatch([r], c.numid, 0) == 0;
    assert [r][0 := Served(Get, r, c)] == [Served(Get, r, c)];
  }

  /** Answers come in the order of the card: more controls add answers behind those of the first ones. */
  lemma {:induction false} AnswersFollowCard(action: Action, rs: seq<Request>, a: seq<Control>, b: seq<Control>)
    ensures Serve(action, rs, a).1 <= Serve(action, rs, a + b).1
    decreases b
  {
    if b == [] {
      assert a + b == a;
    } else {
      var n := |b| - 1;
      AnswersFollowCard(action, rs, a, b[..n]);
      ServeNext(action, rs, a + b[..n], b[n]);
      assert a + b[..n] + [b[n]] == a + b;
    }
  }

  /** Warnings come in the order of the requests. */
  lemma {:induction false} WarningsFollowRequests(a: seq<Request>, b: seq<Request>)
    ensures Warnings(a + b) == Warnings(a) + Warnings(b)
    decreases b
  {
    if b == [] {
      assert a + b == a;
    } else {
      var n := |b| - 1;
      WarningsFollowRequests(a, b[..n]);
      assert (a + b)[..|a| + n] == a + b[..n];
    }
  }
}
