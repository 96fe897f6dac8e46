/** The explicit stack of vunpack: its well-formedness, the accounting of the skip counter, and
    what remains to be computed from a machine state, said with the recursive matcher. */
module WrapJsonUnpackMachine {
  import opened Options
  import opened WrapJsonBase
  import opened WrapJsonUnpack

  /** One slot of the stack: the container that was entered, how many of its items or keys were visited,
      its size (unset while skipping), and the accept set and type to return to when it is closed. */
  datatype Frame = Frame(parent: Json, acc: string, index: nat, count: nat, kind: char)

  /** The control state at the head of a turn. `skipFrom` is not a variable of the program: containers
      from that position of the stack on belong to an absent optional key. */
  datatype Control = Control(stack: seq<Frame>, acc: string, xacc: char, ignore: nat, obj: Json, skipFrom: nat)

  /** No optional key is absent. */
  const NOWHERE: nat := STACKCOUNT + 1

  function AcceptSet(kind: char): string {
    match kind
    case ']' => "*!][{snbiIfFoO"
    case '}' => "*!s}"
    case _ => "[{snbiIfFoO"
  }

  lemma Accepts(kind: char, c: char)
    requires c != '\0'
    ensures c in AcceptSet(kind)
        <==> match kind
             case ']' => Ends(c, ']') || Starts(c)
             case '}' => Ends(c, '}') || c == 's'
             case _ => Starts(c)
    ensures [kind] != AcceptSet(kind)
  {
  }

  /** A value may come next: at the base, in an array, or after a key. */
  predicate TakesValue(kind: char) {
    kind == '\0' || kind == ']' || kind == ':'
  }

  /** The type of the container in slot `i`; `:` when one of its keys waits for its value. */
  function TypeOf(stack: seq<Frame>, xacc: char, i: nat): char
    requires i < |stack|
  {
    if i + 1 < |stack| then stack[i + 1].kind else xacc
  }

  predicate Holds(f: Frame, kind: char) {
    if kind == ']' then f.parent.Arr? && f.count == |f.parent.elems| && f.index <= f.count
    else f.parent.Obj? && f.count == |f.parent.members|
  }

  /** Stack, type and skipped part agree. */
  predicate WfStack(stack: seq<Frame>, xacc: char, skipFrom: nat) {
    && |stack| <= STACKCOUNT
    && (TakesValue(xacc) || xacc == '}')
    && (|stack| == 0 <==> xacc == '\0')
    && (forall i :: 0 <= i < |stack| ==>
         && stack[i].acc == AcceptSet(stack[i].kind)
         && (if i == 0 then stack[i].kind == '\0' else stack[i].kind == ']' || stack[i].kind == ':'))
    && (forall i :: 0 <= i < |stack| && i < skipFrom ==> Holds(stack[i], TypeOf(stack, xacc, i)))
    && (skipFrom <= |stack| || skipFrom == NOWHERE)
    && (skipFrom <= |stack| ==>
      skipFrom > 0 && (if skipFrom == |stack| then xacc == ':' else stack[skipFrom].kind == ':'))
  }

  /** What the skip counter must be: 0 outside an absent optional key, and inside one 1 for that key,
      1 for each container opened since, and 1 for each key in them that waits for its value. */
  function SkipCount(stack: seq<Frame>, xacc: char, skipFrom: nat): nat {
    if skipFrom > |stack| then 0
    else if skipFrom == |stack| then 1
    else 1 + (if xacc == ':' then 1 else 0) + SkipCount(Parents(stack), Last(stack).kind, skipFrom)
  }

  lemma {:induction false} SkipCountPositive(stack: seq<Frame>, xacc: char, skipFrom: nat)
    requires skipFrom < |stack|
    ensures SkipCount(stack, xacc, skipFrom) >= 2 + (if xacc == ':' then 1 else 0)
  {
    if skipFrom < |stack| - 1 {
      SkipCountPositive(Parents(stack), Last(stack).kind, skipFrom);
    }
  }

  /** Accept set, type, stack, skip counter and look-ahead always agree. */
  predicate Wf(k: Call, m: Control, d: nat) {
    && d <= |k.desc|
    && WfStack(m.stack, m.xacc, m.skipFrom)
    && (m.acc == AcceptSet(m.xacc) || ((m.xacc == ']' || m.xacc == '}') && m.acc == [m.xacc]))
    && m.ignore == SkipCount(m.stack, m.xacc, m.skipFrom)
    && (m.ignore > 0 ==> m.obj == Null)
    && (m.xacc == ']' && m.acc != [']'] && Fetches(k, d, m.ignore > 0) ==>
         0 < Last(m.stack).index && m.obj == Last(m.stack).parent.elems[Last(m.stack).index - 1])
  }

  /** The skip counter tells exactly whether the innermost container, or the value due next, is absent. */
  lemma {:induction false} SkipCountTells(stack: seq<Frame>, xacc: char, skipFrom: nat)
    ensures SkipCount(stack, xacc, skipFrom) > 0 <==> skipFrom <= |stack|
    ensures xacc != ':' && skipFrom < |stack| ==>
      SkipCount(stack, xacc, skipFrom) - 1 == SkipCount(Parents(stack), Last(stack).kind, skipFrom)
    ensures xacc == ':' && skipFrom < |stack| ==>
      SkipCount(stack, xacc, skipFrom) - 1 == SkipCount(stack, '}', skipFrom) > 0
  {
    if skipFrom < |stack| {
      SkipCountPositive(stack, xacc, skipFrom);
      SkipCountPositive(stack, '}', skipFrom);
    }
  }

  /** What a turn relies on: the stack has the frame it looks at, and outside absent values that
      frame's size has been set. */
  lemma StackFacts(k: Call, m: Control, d: nat)
    requires Wf(k, m, d)
    ensures |m.stack| <= STACKCOUNT && (|m.stack| == 0 <==> m.xacc == '\0') && (TakesValue(m.xacc) || m.xacc == '}')
    ensures |m.stack| > 0 && m.ignore == 0 ==> Holds(Last(m.stack), m.xacc)
    ensures m.acc == AcceptSet(m.xacc) || ((m.xacc == ']' || m.xacc == '}') && m.acc == [m.xacc])
    ensures WfStack(m.stack, m.xacc, m.skipFrom) && m.ignore == SkipCount(m.stack, m.xacc, m.skipFrom)
    ensures m.ignore > 0 ==> m.obj == Null
  {
    hide AcceptSet, Fetches;
    SkipCountTells(m.stack, m.xacc, m.skipFrom);
    assert |m.stack| > 0 ==> TypeOf(m.stack, m.xacc, |m.stack| - 1) == m.xacc;
  }

  lemma BaseHasNoFrame(stack: seq<Frame>, xacc: char, skipFrom: nat)
    requires WfStack(stack, xacc, skipFrom)
    ensures |stack| == 0 <==> xacc == '\0'
    ensures |stack| == 0 ==> SkipCount(stack, xacc, skipFrom) == 0
  {
  }

  // ---------------------------------------------------------------- what remains to be computed

  function Items(f: Frame, skip: bool): seq<Json> {
    if skip || !f.parent.Arr? then [] else f.parent.elems
  }

  function Members(f: Frame, skip: bool): map<string, Json> {
    if skip || !f.parent.Obj? then map[] else f.parent.members
  }

  /** A value of a container of type `kind`, in slot |stack| - 1, has been read as `r`: what remains is
      the rest of that container, then of the containers around it. */
  ghost function Leave(k: Call, stack: seq<Frame>, kind: char, skipFrom: nat, r: Read): Outcome
    requires r.Done? ==> r.p.d <= |k.desc|
    decreases |stack|
  {
    if !r.Done? || |stack| == 0 then Finish(k, r)
    else
      var f := Last(stack);
      var skip := skipFrom <= |stack| - 1;
      if kind == ']' then
        Leave(k, Parents(stack), f.kind, skipFrom, ReadItems(k, r.p, Items(f, skip), f.index, skip, |stack|))
      else
        Leave(k, Parents(stack), f.kind, if skipFrom == |stack| then NOWHERE else skipFrom,
              ReadMembers(k, r.p, Members(f, skip), f.index, skip, |stack|))
  }

  /** What remains at the head of a turn. */
  ghost function Resume(k: Call, m: Control, p: Place): Outcome
    requires Wf(k, m, p.d)
  {
    var n := |m.stack|;
    if n == 0 then Finish(k, ReadValue(k, p, m.obj, false, 0))
    else
      var f := Last(m.stack);
      var skip := m.skipFrom <= n - 1;
      SkipCountTells(m.stack, m.xacc, m.skipFrom);
      if m.xacc == ':' then
        Leave(k, Parents(m.stack), f.kind, if m.skipFrom == n then NOWHERE else m.skipFrom,
              ReadMember(k, p, m.obj, m.ignore > 0, Members(f, skip), f.index, skip, n))
      else
        Leave(k, Parents(m.stack), f.kind, m.skipFrom,
              if m.acc == [m.xacc] then ReadCloser(k, p, m.xacc)
              else if m.xacc == ']' then ReadFetched(k, p, Items(f, skip), f.index, skip, n)
              else ReadMembers(k, p, Members(f, skip), f.index, skip, n))
  }

  // ---------------------------------------------------------------- the turns of the machine

  /** A character outside the accept set ends the run at the cursor. */
  lemma TurnRefuses(k: Call, m: Control, p: Place)
    requires Wf(k, m, p.d)
    ensures At(k.desc, p.d) == '\0' ==> Resume(k, m, p) == Refused(Truncated, p.d, p.writes)
    ensures At(k.desc, p.d) != '\0' && At(k.desc, p.d) !in m.acc ==>
      Resume(k, m, p) == Refused(InvalidCharacter, p.d, p.writes)
  {
    hide Skip, Next, Fetches, ReadScalar, ReadItems, ReadEnd, ReadKey;
    if m.xacc == ':' {
      var v := ReadValue(k, p, m.obj, m.ignore > 0, |m.stack|);
      assert At(k.desc, p.d) == '\0' ==> v == Fail(Truncated, p.d, p.writes);
    }
  }

  /** An array hands the item it has fetched to the value due next. */
  lemma TurnReadsItem(k: Call, m: Control, p: Place)
    requires Wf(k, m, p.d) && m.xacc == ']' && m.acc == AcceptSet(']') && Starts(At(k.desc, p.d))
    ensures Resume(k, m, p) == Leave(k, m.stack, ']', m.skipFrom, ReadValue(k, p, m.obj, m.ignore > 0, |m.stack|))
  {
    hide Skip, Next, ReadValue, ReadItems, ReadMembers, ReadEnd, ReadMember;
    SkipCountTells(m.stack, m.xacc, m.skipFrom);
    var n := |m.stack|;
    assert m.skipFrom > n - 1 ==> Holds(m.stack[n - 1], TypeOf(m.stack, m.xacc, n - 1));
  }

  /** Where a value is due, the turn reads it and hands it on. */
  lemma TurnReadsValue(k: Call, m: Control, p: Place)
    requires Wf(k, m, p.d) && TakesValue(m.xacc) && m.acc == AcceptSet(m.xacc) && Starts(At(k.desc, p.d))
    ensures Resume(k, m, p) == Leave(k, m.stack, m.xacc, m.skipFrom, ReadValue(k, p, m.obj, m.ignore > 0, |m.stack|))
  {
    hide Skip, Next, ReadValue, ReadItems, ReadMembers, ReadFetched, ReadEnd, Fetches;
    StackFacts(k, m, p.d);
    SkipCountTells(m.stack, m.xacc, m.skipFrom);
    if m.xacc == ']' {
      TurnReadsItem(k, m, p);
    }
  }

  lemma TurnReadsScalar(k: Call, m: Control, p: Place)
    requires Wf(k, m, p.d) && TakesValue(m.xacc) && m.acc == AcceptSet(m.xacc) && Scalar(At(k.desc, p.d))
    ensures Resume(k, m, p) == Leave(k, m.stack, m.xacc, m.skipFrom, ReadScalar(k, p, m.obj, m.ignore > 0))
  {
    hide Skip, Next, ReadScalar, Wf, Resume, Leave;
    TurnReadsValue(k, m, p);
  }

  /** An opener that finds the stack full, or a tree of another type, ends the run. */
  lemma TurnCannotOpen(k: Call, m: Control, p: Place)
    requires Wf(k, m, p.d) && TakesValue(m.xacc) && m.acc == AcceptSet(m.xacc)
    requires At(k.desc, p.d) == '[' || At(k.desc, p.d) == '{'
    ensures |m.stack| >= STACKCOUNT ==> Resume(k, m, p) == Refused(TooDeep, Next(k.desc, p.d), p.writes)
    ensures |m.stack| < STACKCOUNT && m.ignore == 0 && !(if At(k.desc, p.d) == '[' then m.obj.Arr? else m.obj.Obj?)
        ==> Resume(k, m, p) == Refused(MissfitType, p.d, p.writes)
  {
    hide Skip, Next, Wf, Resume;
    TurnReadsValue(k, m, p);
  }

  /** A failed piece ends the run; at the base of the stack the value is the whole answer. */
  lemma LeaveEnds(k: Call, stack: seq<Frame>, kind: char, skipFrom: nat, r: Read)
    requires r.Done? ==> r.p.d <= |k.desc|
    ensures !r.Done? || |stack| == 0 ==> Leave(k, stack, kind, skipFrom, r) == Finish(k, r)
  {
  }

  /** At the first turn what remains is the whole meaning. */
  lemma TurnFirst(k: Call, obj: Json)
    ensures var m := Control([], AcceptSet('\0'), '\0', 0, obj, NOWHERE);
      var p := Place(Skip(k.desc, 0), 0, []);
      Wf(k, m, p.d) && Resume(k, m, p) == Meaning(obj, Some(k.desc), k.args, k.store)
  {
  }

  /** The frame pushed for a container whose opener stands at the cursor. */
  function Pushed(m: Control, count: nat): seq<Frame> {
    m.stack + [Frame(m.obj, m.acc, 0, count, m.xacc)]
  }

  /** Pushing a frame keeps the stack well formed and the skip counter exact. */
  lemma {:induction false} PushKeepsWf(k: Call, m: Control, d: nat, count: nat, xacc: char)
    requires Wf(k, m, d) && TakesValue(m.xacc) && m.acc == AcceptSet(m.xacc) && |m.stack| < STACKCOUNT
    requires xacc == ']' || xacc == '}'
    requires m.ignore == 0 ==> Holds(Frame(m.obj, m.acc, 0, count, m.xacc), xacc)
    ensures WfStack(Pushed(m, count), xacc, m.skipFrom)
    ensures SkipCount(Pushed(m, count), xacc, m.skipFrom) == if m.ignore > 0 then m.ignore + 1 else 0
    ensures Parents(Pushed(m, count)) == m.stack
  {
    hide Skip, Fetches;
    SkipCountTells(m.stack, m.xacc, m.skipFrom);
    var stack := Pushed(m, count);
    assert Parents(stack) == m.stack;
    forall i | 0 <= i < |stack| && i < m.skipFrom
      ensures Holds(stack[i], TypeOf(stack, xacc, i))
    {
      assert i < |m.stack| ==> TypeOf(stack, xacc, i) == TypeOf(m.stack, m.xacc, i);
    }
  }

  lemma TurnOpensArray(k: Call, m: Control, p: Place, count: nat)
    requires Wf(k, m, p.d) && TakesValue(m.xacc) && m.acc == AcceptSet(m.xacc) && |m.stack| < STACKCOUNT
    requires At(k.desc, p.d) == '[' && (m.ignore == 0 ==> m.obj.Arr? && count == |m.obj.elems|)
    ensures Resume(k, m, p) == Leave(k, Pushed(m, count), ']', m.skipFrom, Done(p.(d := Next(k.desc, p.d))))
  {
    hide Skip, Next, ReadItems, Resume, WfStack, Fetches;
    TurnReadsValue(k, m, p);
    SkipCountTells(m.stack, m.xacc, m.skipFrom);
    assert Parents(Pushed(m, count)) == m.stack;
  }

  lemma TurnOpensObject(k: Call, m: Control, p: Place, count: nat)
    requires Wf(k, m, p.d) && TakesValue(m.xacc) && m.acc == AcceptSet(m.xacc) && |m.stack| < STACKCOUNT
    requires At(k.desc, p.d) == '{' && (m.ignore == 0 ==> m.obj.Obj? && count == |m.obj.members|)
    ensures var ignore := if m.ignore > 0 then m.ignore + 1 else 0;
      var m' := Control(Pushed(m, count), AcceptSet('}'), '}', ignore, m.obj, m.skipFrom);
      var p' := p.(d := Next(k.desc, p.d));
      Wf(k, m', p'.d) && Resume(k, m, p) == Resume(k, m', p')
  {
    hide Skip, Next, ReadItems, ReadMembers, WfStack, Fetches;
    TurnReadsValue(k, m, p);
    PushKeepsWf(k, m, p.d, count, '}');
    SkipCountTells(m.stack, m.xacc, m.skipFrom);
    assert Parents(Pushed(m, count)) == m.stack;
  }

  /** The closer pops the frame; the container it closes is a value of the type restored. */
  lemma TurnCloses(k: Call, m: Control, p: Place)
    requires Wf(k, m, p.d) && (m.xacc == ']' || m.xacc == '}') && At(k.desc, p.d) == m.xacc
    ensures |m.stack| > 0 && Last(m.stack).acc == AcceptSet(Last(m.stack).kind) && TakesValue(Last(m.stack).kind)
    ensures WfStack(Parents(m.stack), Last(m.stack).kind, m.skipFrom)
    ensures SkipCount(Parents(m.stack), Last(m.stack).kind, m.skipFrom) == if m.ignore > 0 then m.ignore - 1 else 0
    ensures Resume(k, m, p)
      == Leave(k, Parents(m.stack), Last(m.stack).kind, m.skipFrom, Done(p.(d := Next(k.desc, p.d))))
  {
    hide Skip, Next, Fetches, WfStack, ReadEnd, ReadCloser;
    StackFacts(k, m, p.d);
    PopKeepsWf(m.stack, m.xacc, m.skipFrom);
    SkipCountTells(m.stack, m.xacc, m.skipFrom);
    CloserOutcome(k, p, m.xacc, m.ignore > 0 || Last(m.stack).index == Last(m.stack).count);
    if m.acc == AcceptSet(m.xacc) {
      TurnReadsEnd(k, m, p);
    }
  }

  lemma CloserOutcome(k: Call, p: Place, c: char, complete: bool)
    requires p.d < |k.desc| && (c == ']' || c == '}') && At(k.desc, p.d) == c
    ensures ReadEnd(k, p, c, complete) == ReadCloser(k, p, c) == Done(p.(d := Next(k.desc, p.d)))
  {
    hide Skip, Next;
  }

  lemma PopKeepsWf(stack: seq<Frame>, xacc: char, skipFrom: nat)
    requires WfStack(stack, xacc, skipFrom) && |stack| > 0 && xacc != ':'
    ensures WfStack(Parents(stack), Last(stack).kind, skipFrom)
    ensures Last(stack).acc == AcceptSet(Last(stack).kind) && TakesValue(Last(stack).kind)
  {
    hide AcceptSet, Holds;
    forall i | 0 <= i < |stack| - 1 && i < skipFrom
      ensures Holds(Parents(stack)[i], TypeOf(Parents(stack), Last(stack).kind, i))
    {
      assert TypeOf(Parents(stack), Last(stack).kind, i) == TypeOf(stack, xacc, i);
    }
  }

  /** `!` demands a complete visit; `!` and `*` leave only the closer acceptable. */
  lemma TurnEnds(k: Call, m: Control, p: Place)
    requires Wf(k, m, p.d) && (m.xacc == ']' || m.xacc == '}') && m.acc == AcceptSet(m.xacc)
    requires At(k.desc, p.d) == '!' || At(k.desc, p.d) == '*'
    ensures var d := Next(k.desc, p.d);
      var f := Last(m.stack);
      var bang := At(k.desc, p.d) == '!';
      if bang && At(k.desc, d) != m.xacc then Resume(k, m, p) == Refused(InvalidCharacter, d, p.writes)
      else if bang && m.ignore == 0 && f.index != f.count then Resume(k, m, p) == Refused(Incomplete, d, p.writes)
      else Wf(k, m.(acc := [m.xacc]), d) && Resume(k, m, p) == Resume(k, m.(acc := [m.xacc]), p.(d := d))
  {
    hide Skip, Next, ReadCloser, ReadEnd, WfStack;
    TurnReadsEnd(k, m, p);
    EndOutcome(k, p, m.xacc, m.ignore > 0 || Last(m.stack).index == Last(m.stack).count);
  }

  lemma EndOutcome(k: Call, p: Place, c: char, complete: bool)
    requires p.d < |k.desc| && c != '\0' && (At(k.desc, p.d) == '!' || At(k.desc, p.d) == '*')
    ensures var d := Next(k.desc, p.d);
      var bang := At(k.desc, p.d) == '!';
      ReadEnd(k, p, c, complete)
      == if bang && At(k.desc, d) != c then Fail(InvalidCharacter, d, p.writes)
         else if bang && !complete then Fail(Incomplete, d, p.writes)
         else ReadCloser(k, p.(d := d), c)
  {
    hide Skip, Next, ReadCloser;
  }

  lemma TurnReadsEnd(k: Call, m: Control, p: Place)
    requires Wf(k, m, p.d) && (m.xacc == ']' || m.xacc == '}') && m.acc == AcceptSet(m.xacc)
    requires At(k.desc, p.d) == '!' || At(k.desc, p.d) == '*' || At(k.desc, p.d) == m.xacc
    ensures |m.stack| > 0
    ensures Resume(k, m, p) == Leave(k, Parents(m.stack), Last(m.stack).kind, m.skipFrom,
      ReadEnd(k, p, m.xacc, m.ignore > 0 || Last(m.stack).index == Last(m.stack).count))
  {
    hide Skip, Next, ReadEnd, ReadValue, ReadKey;
    SkipCountTells(m.stack, m.xacc, m.skipFrom);
    var n := |m.stack|;
    assert m.skipFrom > n - 1 ==> Holds(m.stack[n - 1], TypeOf(m.stack, m.xacc, n - 1));
  }

  /** The frame after a key has been found. */
  function Found(stack: seq<Frame>): seq<Frame>
    requires |stack| > 0
  {
    Parents(stack) + [Last(stack).(index := Last(stack).index + 1)]
  }

  /** A key whose argument cannot be used ends the run. */
  lemma TurnKeyFails(k: Call, m: Control, p: Place)
    requires Wf(k, m, p.d) && m.xacc == '}' && m.acc == AcceptSet('}') && At(k.desc, p.d) == 's'
    ensures var q := ReadKey(k, p);
      && (q.BadCall? ==> Resume(k, m, p) == Undefined)
      && (q.Fail? ==> Resume(k, m, p) == Refused(q.code, q.pos, q.writes))
  {
    hide Skip, Next;
  }

  /** Inside an absent value, a key is only counted. */
  lemma TurnKeySkipped(k: Call, m: Control, p: Place)
    requires Wf(k, m, p.d) && m.xacc == '}' && m.acc == AcceptSet('}') && At(k.desc, p.d) == 's'
    requires m.ignore > 0 && ReadKey(k, p).Done?
    ensures var m' := m.(xacc := ':', acc := AcceptSet(':'), ignore := m.ignore + 1);
      Wf(k, m', ReadKey(k, p).p.d) && Resume(k, m, p) == Resume(k, m', ReadKey(k, p).p)
  {
    hide Skip, Next, ReadKey;
    SkipCountTells(m.stack, m.xacc, m.skipFrom);
    KeyKeepsWf(m.stack, m.skipFrom);
  }

  /** Whether a key waits for its value does not matter to the frames. */
  lemma KeyKeepsWf(stack: seq<Frame>, skipFrom: nat)
    requires WfStack(stack, '}', skipFrom) && |stack| > 0
    ensures WfStack(stack, ':', skipFrom)
  {
    hide AcceptSet;
    forall i | 0 <= i < |stack| && i < skipFrom
      ensures Holds(stack[i], TypeOf(stack, ':', i))
    {
      assert Holds(stack[i], TypeOf(stack, '}', i));
    }
  }

  /** A key that the object holds is counted, and its value comes next. */
  lemma TurnKeyFound(k: Call, m: Control, p: Place)
    requires Wf(k, m, p.d) && m.xacc == '}' && m.acc == AcceptSet('}') && At(k.desc, p.d) == 's'
    requires m.ignore == 0 && ReadKey(k, p).Done? && Last(m.stack).parent.Obj?
    requires CString(k.args[p.a].key.value) in Last(m.stack).parent.members
    ensures var obj := Last(m.stack).parent.members[CString(k.args[p.a].key.value)];
      var m' := m.(stack := Found(m.stack), xacc := ':', acc := AcceptSet(':'), obj := obj);
      Wf(k, m', ReadKey(k, p).p.d) && Resume(k, m, p) == Resume(k, m', ReadKey(k, p).p)
  {
    hide Skip, Next, ReadKey, CString, Fetches;
    SkipCountTells(m.stack, m.xacc, m.skipFrom);
    KeyKeepsWf(m.stack, m.skipFrom);
    FoundKeepsWf(m.stack, ':', m.skipFrom);
    assert Parents(Found(m.stack)) == Parents(m.stack);
  }

  /** Counting a visit in the innermost container. */
  lemma FoundKeepsWf(stack: seq<Frame>, xacc: char, skipFrom: nat)
    requires WfStack(stack, xacc, skipFrom) && |stack| > 0 && (xacc == ']' ==> Last(stack).index < Last(stack).count)
    ensures WfStack(Found(stack), xacc, skipFrom)
    ensures SkipCount(Found(stack), xacc, skipFrom) == SkipCount(stack, xacc, skipFrom)
  {
    hide AcceptSet;
    assert Parents(Found(stack)) == Parents(stack);
    forall i | 0 <= i < |stack| && i < skipFrom
      ensures Holds(Found(stack)[i], TypeOf(Found(stack), xacc, i))
    {
      assert Holds(stack[i], TypeOf(stack, xacc, i));
      assert TypeOf(Found(stack), xacc, i) == TypeOf(stack, xacc, i);
    }
  }

  /** A key that the object does not hold: an error, or the start of an absent value. */
  lemma TurnKeyMissing(k: Call, m: Control, p: Place)
    requires Wf(k, m, p.d) && m.xacc == '}' && m.acc == AcceptSet('}') && At(k.desc, p.d) == 's'
    requires m.ignore == 0 && ReadKey(k, p).Done? && Last(m.stack).parent.Obj?
    requires CString(k.args[p.a].key.value) !in Last(m.stack).parent.members
    ensures At(k.desc, Next(k.desc, p.d)) != '?' ==>
      Resume(k, m, p) == Refused(KeyNotFound, ReadKey(k, p).p.d, p.writes)
    ensures At(k.desc, Next(k.desc, p.d)) == '?' ==>
      var m' := m.(xacc := ':', acc := AcceptSet(':'), ignore := 1, obj := Null, skipFrom := |m.stack|);
      Wf(k, m', ReadKey(k, p).p.d) && Resume(k, m, p) == Resume(k, m', ReadKey(k, p).p)
  {
    hide Skip, Next, CString, Fetches;
    SkipCountTells(m.stack, m.xacc, m.skipFrom);
    KeyKeepsWf(m.stack, m.skipFrom);
  }

  // ---------------------------------------------------------------- after a value

  /** After an item of an array, the look-ahead: out of range, one more item fetched, or nothing to fetch. */
  lemma AfterItem(k: Call, m: Control, p: Place)
    requires WfStack(m.stack, ']', m.skipFrom) && m.xacc == ']' && m.acc == AcceptSet(']') && p.d <= |k.desc|
    requires m.ignore == SkipCount(m.stack, ']', m.skipFrom) && (m.ignore > 0 ==> m.obj == Null)
    ensures var rest := Leave(k, m.stack, ']', m.skipFrom, Done(p));
      var f := Last(m.stack);
      if !Fetches(k, p.d, m.ignore > 0) then Wf(k, m, p.d) && rest == Resume(k, m, p)
      else
        && f.parent.Arr? && f.count == |f.parent.elems|
        && if f.index >= f.count then rest == Refused(OutOfRange, p.d, p.writes)
           else
             var m' := m.(stack := Found(m.stack), obj := f.parent.elems[f.index]);
             Wf(k, m', p.d) && rest == Resume(k, m', p)
  {
    hide Skip, ReadFetched;
    var n := |m.stack|;
    SkipCountTells(m.stack, m.xacc, m.skipFrom);
    assert m.skipFrom > n - 1 ==> Holds(m.stack[n - 1], TypeOf(m.stack, m.xacc, n - 1));
    if Fetches(k, p.d, m.ignore > 0) && Last(m.stack).index < Last(m.stack).count {
      FoundKeepsWf(m.stack, ']', m.skipFrom);
      assert Parents(Found(m.stack)) == Parents(m.stack);
    }
  }

  /** After the value of a member, its object goes on; an absent value ends here. */
  lemma {:induction false} AfterMember(k: Call, m: Control, p: Place)
    requires WfStack(m.stack, ':', m.skipFrom) && m.xacc == ':' && p.d <= |k.desc|
    requires m.ignore == SkipCount(m.stack, ':', m.skipFrom) && (m.ignore > 0 ==> m.obj == Null)
    ensures var m' := m.(xacc := '}', acc := AcceptSet('}'), ignore := if m.ignore > 0 then m.ignore - 1 else 0,
                         skipFrom := if m.skipFrom == |m.stack| then NOWHERE else m.skipFrom);
      Wf(k, m', p.d) && Leave(k, m.stack, ':', m.skipFrom, Done(p)) == Resume(k, m', p)
  {
    hide Skip, ReadMembers, Fetches, WfStack;
    MemberKeepsWf(m.stack, m.skipFrom);
    SkipCountTells(m.stack, m.xacc, m.skipFrom);
  }

  lemma MemberKeepsWf(stack: seq<Frame>, skipFrom: nat)
    requires WfStack(stack, ':', skipFrom)
    ensures var from := if skipFrom == |stack| then NOWHERE else skipFrom;
      && WfStack(stack, '}', from) && |stack| > 0
      && SkipCount(stack, '}', from) == if skipFrom == NOWHERE then 0 else SkipCount(stack, ':', skipFrom) - 1
  {
    hide AcceptSet;
    SkipCountTells(stack, ':', skipFrom);
    var from := if skipFrom == |stack| then NOWHERE else skipFrom;
    forall i | 0 <= i < |stack| && i < from
      ensures Holds(stack[i], TypeOf(stack, '}', i))
    {
      assert Holds(stack[i], TypeOf(stack, ':', i));
    }
  }
}
