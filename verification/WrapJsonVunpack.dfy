/** The imperative interpreter vunpack: a stack of frames updated in place, and the caller's
    targets written in place, proved to answer and to store what the recursive matcher says. */
module WrapJsonVunpack {
  import opened Options
  import opened WrapJsonBase
  import opened WrapJsonUnpack
  import opened WrapJsonUnpackMachine

  datatype Status = Success | Error(code: ErrorCode, pos: nat) | UndefinedCall

  function StatusOf(m: Outcome): Status {
    match m
    case Unpacked(_) => Success
    case Refused(code, pos, _) => Error(code, pos)
    case Undefined => UndefinedCall
  }

  /** The caller's memory after some writes. */
  function Apply(memory: seq<Value>, writes: seq<Write>): (r: seq<Value>)
    ensures |r| == |memory|
  {
    if writes == [] then memory
    else
      var before := Apply(memory, writes[..|writes| - 1]);
      var w := writes[|writes| - 1];
      if w.cell < |before| then before[w.cell := w.value] else before
  }

  /** Every pointer that is not NULL addresses the caller's memory. */
  predicate Addressable(args: seq<Arg>, size: nat) {
    forall i :: 0 <= i < |args| ==> !args[i].KeyArg? ==> args[i].cell.Some? ==> args[i].cell.value < size
  }

  lemma EmptyLog(memory: seq<Value>)
    ensures Apply(memory, []) == memory
  {
  }

  /** How a branch of the switch ends. */
  datatype Step = Go(d: nat, a: nat) | Stop(code: ErrorCode, pos: nat) | Bad

  /** The same with the targets written until then. */
  function Join(s: Step, writes: seq<Write>): Read {
    match s
    case Go(d, a) => Done(Place(d, a, writes))
    case Stop(code, pos) => Fail(code, pos, writes)
    case Bad => BadCall
  }

  /** `if (store && p) *p = value`, unless the value is absent. */
  method StoreTarget(memory: array<Value>, p: Arg, v: Value, skip: bool, ghost start: seq<Value>,
                     ghost writes: seq<Write>)
    requires !p.KeyArg? && (p.cell.Some? ==> p.cell.value < memory.Length)
    requires memory[..] == Apply(start, writes)
    modifies memory
    ensures memory[..] == Apply(start, writes + WriteIf(skip, p, v))
  {
    if !skip && p.cell.Some? {
      memory[p.cell.value] := v;
      assert (writes + WriteIf(skip, p, v))[..|writes|] == writes;
    } else {
      assert writes + [] == writes;
    }
  }

  /** The scalar branches of the switch. */
  method UnpackScalar(k: Call, d: nat, a: nat, obj: Json, skip: bool, memory: array<Value>, ghost start: seq<Value>,
                      ghost writes: seq<Write>)
    returns (r: Step, ghost writes': seq<Write>)
    requires d < |k.desc| && Scalar(At(k.desc, d))
    requires Addressable(k.args, memory.Length) && memory[..] == Apply(start, writes)
    modifies memory
    ensures Join(r, writes') == ReadScalar(k, Place(d, a, writes), obj, skip)
    ensures r != Bad ==> memory[..] == Apply(start, writes')
  {
    hide Skip, Apply;
    var c := At(k.desc, d);
    var d' := SkipIgnored(k.desc, d + 1);
    var a' := a;
    writes' := writes;
    if k.store && c != 'n' {
      if !(a < |k.args| && PointerFor(c, k.args[a])) {
        return Bad, writes;
      }
      a' := a + 1;
    }
    if !skip && !HasType(c, obj) {
      return Stop(MissfitType, d), writes;
    }
    assert writes + [] == writes;
    if k.store && c != 'n' && !skip {
      StoreTarget(memory, k.args[a], Stored(c, obj), skip, start, writes);
      writes' := writes + WriteIf(skip, k.args[a], Stored(c, obj));
    }
    r := Go(d', a');
    if c == 's' {
      r, writes' := UnpackLength(k, d', a', obj, skip, memory, start, writes');
    }
  }

  method UnpackLength(k: Call, d: nat, a: nat, obj: Json, skip: bool, memory: array<Value>, ghost start: seq<Value>,
                      ghost writes: seq<Write>)
    returns (r: Step, ghost writes': seq<Write>)
    requires d <= |k.desc| && (!skip ==> obj.Str?)
    requires Addressable(k.args, memory.Length) && memory[..] == Apply(start, writes)
    modifies memory
    ensures Join(r, writes') == ReadLength(k, Place(d, a, writes), obj, skip)
    ensures r != Bad ==> memory[..] == Apply(start, writes')
  {
    hide Skip, Apply;
    writes' := writes;
    r := Go(d, a);
    if At(k.desc, d) == '%' {
      var d' := SkipIgnored(k.desc, d + 1);
      r := Go(d', a);
      if k.store {
        if !(a < |k.args| && k.args[a].SizePtr?) {
          return Bad, writes;
        }
        var size := SizeVal(if skip then 0 else |obj.s|);
        StoreTarget(memory, k.args[a], size, skip, start, writes);
        writes' := writes + WriteIf(skip, k.args[a], size);
        r := Go(d', a + 1);
      }
    }
  }

  /** The branch that expects a key: it is looked up, or only counted inside an absent value. */
  method UnpackKey(k: Call, stack: array<Frame>, n: nat, ignore: nat, obj: Json, start: nat, a: nat,
                   ghost skipFrom: nat, ghost writes: seq<Write>)
    returns (r: Step, ignore': nat, obj': Json, ghost skipFrom': nat)
    requires n <= stack.Length == STACKCOUNT && start < |k.desc| && At(k.desc, start) == 's'
    requires Wf(k, Control(stack[..n], AcceptSet('}'), '}', ignore, obj, skipFrom), start)
    modifies stack
    ensures var before :=
      old(Resume(k, Control(stack[..n], AcceptSet('}'), '}', ignore, obj, skipFrom), Place(start, a, writes)));
      match r
      case Bad => before == Undefined
      case Stop(code, pos) => before == Refused(code, pos, writes)
      case Go(d, a') =>
        var m := Control(stack[..n], AcceptSet(':'), ':', ignore', obj', skipFrom');
        start < d <= |k.desc| && Wf(k, m, d) && before == Resume(k, m, Place(d, a', writes))
  {
    hide Skip, Resume, WfStack, SkipCount, Fetches, CString;
    ghost var m := Control(stack[..n], AcceptSet('}'), '}', ignore, obj, skipFrom);
    ghost var p := Place(start, a, writes);
    StackFacts(k, m, start);
    TurnKeyFails(k, m, p);
    ignore', obj', skipFrom' := ignore, obj, skipFrom;
    var d := SkipIgnored(k.desc, start + 1);
    if !(a < |k.args| && k.args[a].KeyArg?) {
      return Bad, ignore', obj', skipFrom';
    }
    if k.args[a].key.None? {
      return Stop(NullKey, d), ignore', obj', skipFrom';
    }
    var key := CString(k.args[a].key.value);
    var optional := At(k.desc, d) == '?';
    if optional {
      d := SkipIgnored(k.desc, d + 1);
    }
    if ignore > 0 {
      ignore' := ignore + 1;
      TurnKeySkipped(k, m, p);
    } else if key in stack[n - 1].parent.members {
      obj' := stack[n - 1].parent.members[key];
      stack[n - 1] := stack[n - 1].(index := stack[n - 1].index + 1);
      TurnKeyFound(k, m, p);
      assert stack[..n] == Found(m.stack);
    } else {
      TurnKeyMissing(k, m, p);
      if !optional {
        return Stop(KeyNotFound, d), ignore', obj', skipFrom';
      }
      ignore', obj', skipFrom' := 1, Null, n;
    }
    r := Go(d, a + 1);
  }

  /** The opening brackets: a frame is pushed, unless the stack is full or the tree has another type. */
  method UnpackOpen(k: Call, stack: array<Frame>, n: nat, acc: string, xacc: char, ignore: nat, obj: Json, start: nat,
                    a: nat, ghost skipFrom: nat, ghost writes: seq<Write>)
    returns (r: Step, ignore': nat)
    requires n <= stack.Length == STACKCOUNT && start < |k.desc|
    requires At(k.desc, start) == '[' || At(k.desc, start) == '{'
    requires Wf(k, Control(stack[..n], acc, xacc, ignore, obj, skipFrom), start) && TakesValue(xacc)
    requires acc == AcceptSet(xacc)
    modifies stack
    ensures var before :=
      old(Resume(k, Control(stack[..n], acc, xacc, ignore, obj, skipFrom), Place(start, a, writes)));
      match r
      case Bad => false
      case Stop(code, pos) => before == Refused(code, pos, writes)
      case Go(d, a') =>
        && n < STACKCOUNT && start < d <= |k.desc|
        && if At(k.desc, start) == '{' then
             var m := Control(stack[..n + 1], AcceptSet('}'), '}', ignore', obj, skipFrom);
             Wf(k, m, d) && before == Resume(k, m, Place(d, a', writes))
           else
             && WfStack(stack[..n + 1], ']', skipFrom)
             && ignore' == SkipCount(stack[..n + 1], ']', skipFrom) && (ignore' > 0 ==> obj == Null)
             && before == Leave(k, stack[..n + 1], ']', skipFrom, Done(Place(d, a', writes)))
  {
    hide Skip, Resume, Leave, WfStack, SkipCount, Fetches;
    ghost var m := Control(stack[..n], acc, xacc, ignore, obj, skipFrom);
    ghost var p := Place(start, a, writes);
    StackFacts(k, m, start);
    TurnCannotOpen(k, m, p);
    var d := SkipIgnored(k.desc, start + 1);
    ignore' := ignore;
    if n >= STACKCOUNT {
      return Stop(TooDeep, d), ignore';
    }
    var count := stack[n].count;
    if ignore > 0 {
      ignore' := ignore + 1;
    } else if At(k.desc, start) == '[' {
      if !obj.Arr? {
        return Stop(MissfitType, start), ignore';
      }
      count := |obj.elems|;
    } else {
      if !obj.Obj? {
        return Stop(MissfitType, start), ignore';
      }
      count := |obj.members|;
    }
    stack[n] := Frame(obj, acc, 0, count, xacc);
    assert stack[..n + 1] == Pushed(m, count);
    if At(k.desc, start) == '[' {
      PushKeepsWf(k, m, start, count, ']');
      TurnOpensArray(k, m, p, count);
    } else {
      TurnOpensObject(k, m, p, count);
    }
    r := Go(d, a);
  }

  /** The branches `!` and `*`: only the closer is accepted afterwards. */
  method UnpackEnd(k: Call, stack: array<Frame>, n: nat, acc: string, xacc: char, ignore: nat, obj: Json, start: nat,
                   a: nat, ghost skipFrom: nat, ghost writes: seq<Write>)
    returns (r: Step)
    requires n <= stack.Length == STACKCOUNT && start < |k.desc|
    requires (At(k.desc, start) == '!' || At(k.desc, start) == '*') && At(k.desc, start) in acc
    requires Wf(k, Control(stack[..n], acc, xacc, ignore, obj, skipFrom), start)
    ensures var m := Control(stack[..n], acc, xacc, ignore, obj, skipFrom);
      var before := Resume(k, m, Place(start, a, writes));
      match r
      case Bad => false
      case Stop(code, pos) => before == Refused(code, pos, writes)
      case Go(d, a') =>
        && start < d <= |k.desc| && a' == a
        && Wf(k, m.(acc := [xacc]), d) && before == Resume(k, m.(acc := [xacc]), Place(d, a, writes))
  {
    hide Skip, Resume, WfStack, SkipCount, Wf, AcceptSet;
    Accepts(xacc, At(k.desc, start));
    ghost var m := Control(stack[..n], acc, xacc, ignore, obj, skipFrom);
    StackFacts(k, m, start);
    TurnEnds(k, m, Place(start, a, writes));
    var d := SkipIgnored(k.desc, start + 1);
    if At(k.desc, start) == '!' {
      if At(k.desc, d) != xacc {
        return Stop(InvalidCharacter, d);
      }
      if ignore == 0 && stack[n - 1].index != stack[n - 1].count {
        return Stop(Incomplete, d);
      }
    }
    r := Go(d, a);
  }

  /** The closing brackets: the frame is popped, and the container becomes a value of the type restored. */
  method UnpackClose(k: Call, c: char, stack: array<Frame>, n: nat, acc: string, xacc: char, ignore: nat, obj: Json,
                     start: nat, a: nat, ghost skipFrom: nat, ghost writes: seq<Write>)
    returns (d: nat, acc': string, xacc': char, ignore': nat)
    requires n <= stack.Length == STACKCOUNT && start < |k.desc| && At(k.desc, start) == c && c in acc
    requires c == ']' || c == '}'
    requires Wf(k, Control(stack[..n], acc, xacc, ignore, obj, skipFrom), start)
    ensures n > 0 && start < d <= |k.desc|
    ensures WfStack(stack[..n - 1], xacc', skipFrom) && TakesValue(xacc') && acc' == AcceptSet(xacc')
    ensures ignore' == SkipCount(stack[..n - 1], xacc', skipFrom) && (ignore' > 0 ==> obj == Null)
    ensures Resume(k, Control(stack[..n], acc, xacc, ignore, obj, skipFrom), Place(start, a, writes))
         == Leave(k, stack[..n - 1], xacc', skipFrom, Done(Place(d, a, writes)))
  {
    hide Skip, Resume, Leave, Wf, WfStack, SkipCount, AcceptSet;
    ghost var m := Control(stack[..n], acc, xacc, ignore, obj, skipFrom);
    StackFacts(k, m, start);
    Accepts(xacc, c);
    if n == 0 || c != xacc {
      assert false;  // internal_error
    }
    TurnCloses(k, m, Place(start, a, writes));
    d := SkipIgnored(k.desc, start + 1);
    acc', xacc' := stack[n - 1].acc, stack[n - 1].kind;
    ignore' := if ignore > 0 then ignore - 1 else 0;
    assert stack[..n - 1] == Parents(m.stack);
  }

  /** The second switch: the end of the format at the base, the look-ahead of an array, or the end of a member. */
  method AfterValue(k: Call, stack: array<Frame>, n: nat, acc: string, xacc: char, ignore: nat, obj: Json, d: nat,
                    a: nat, ghost skipFrom: nat, ghost writes: seq<Write>)
    returns (over: Option<Status>, acc': string, xacc': char, ignore': nat, obj': Json, ghost skipFrom': nat)
    requires n <= stack.Length == STACKCOUNT && d <= |k.desc|
    requires WfStack(stack[..n], xacc, skipFrom) && TakesValue(xacc) && acc == AcceptSet(xacc)
    requires ignore == SkipCount(stack[..n], xacc, skipFrom) && (ignore > 0 ==> obj == Null)
    modifies stack
    ensures var before := old(Leave(k, stack[..n], xacc, skipFrom, Done(Place(d, a, writes))));
      if over.Some? then before != Undefined && over.value == StatusOf(before) && before.writes == writes
      else
        var m := Control(stack[..n], acc', xacc', ignore', obj', skipFrom');
        Wf(k, m, d) && before == Resume(k, m, Place(d, a, writes))
    ensures over == Some(Success) ==> ignore == 0
  {
    hide Skip, Resume, Leave, SkipCount, Wf, WfStack, AcceptSet;
    BaseHasNoFrame(stack[..n], xacc, skipFrom);
    ghost var m := Control(stack[..n], acc, xacc, ignore, obj, skipFrom);
    ghost var p := Place(d, a, writes);
    over, acc', xacc', ignore', obj', skipFrom' := None, acc, xacc, ignore, obj, skipFrom;
    match xacc
    case '\0' =>
      LeaveEnds(k, stack[..n], xacc, skipFrom, Done(p));
      if n != 0 {
        assert false;  // internal_error
      }
      over := Some(if At(k.desc, d) != '\0' then Error(InvalidCharacter, d) else Success);
    case ']' =>
      AfterItem(k, m, p);
      if ignore == 0 && (Starts(At(k.desc, d)) || At(k.desc, d) == '\0') {
        if stack[n - 1].index >= stack[n - 1].count {
          over := Some(Error(OutOfRange, d));
          return;
        }
        obj' := stack[n - 1].parent.elems[stack[n - 1].index];
        stack[n - 1] := stack[n - 1].(index := stack[n - 1].index + 1);
        assert stack[..n] == Found(m.stack);
      }
    case ':' =>
      AfterMember(k, m, p);
      acc', xacc' := AcceptSet('}'), '}';
      if ignore > 0 {
        ignore' := ignore - 1;
      }
      skipFrom' := if skipFrom == n then NOWHERE else skipFrom;
    case _ =>
      assert false;  // internal_error
  }

  /** The interpreter behind wrap_json_check, wrap_json_match and wrap_json_unpack. */
  method Vunpack(tree: Json, desc: Option<string>, args: seq<Arg>, store: bool, memory: array<Value>)
    returns (rc: Status)
    requires Addressable(args, memory.Length)
    modifies memory
    ensures var m := Meaning(tree, desc, args, store);
      rc == StatusOf(m) && (m != Undefined ==> memory[..] == Apply(old(memory[..]), m.writes))
  {
    EmptyLog(memory[..]);
    if desc.None? {
      return Error(NullSpec, 0);
    }
    rc := Interpret(tree, Call(desc.value, args, store), memory);
  }

  /** The main loop. Every turn consumes a character, keeps the machine well formed (the skip
      counter included), and leaves what remains to be computed unchanged. */
  method Interpret(tree: Json, k: Call, memory: array<Value>) returns (rc: Status)
    requires Addressable(k.args, memory.Length)
    modifies memory
    ensures var m := Meaning(tree, Some(k.desc), k.args, k.store);
      rc == StatusOf(m) && (m != Undefined ==> memory[..] == Apply(old(memory[..]), m.writes))
  {
    hide Skip, Apply, ReadValue, ReadScalar, ReadKey, Resume, Leave, Wf, WfStack, SkipCount, Fetches;
    hide CString, AcceptSet, Meaning;
    ghost var answer := Meaning(tree, Some(k.desc), k.args, k.store);
    ghost var start := memory[..];
    ghost var writes: seq<Write> := [];
    EmptyLog(start);
    var stack := new Frame[STACKCOUNT];
    var n: nat, acc, xacc, ignore: nat, obj := 0, AcceptSet('\0'), '\0', 0, tree;
    var d: nat := SkipIgnored(k.desc, 0);
    var a: nat := 0;
    ghost var skipFrom: nat := NOWHERE;
    TurnFirst(k, tree);
    while true
      invariant n <= stack.Length == STACKCOUNT && d <= |k.desc|
      invariant Wf(k, Control(stack[..n], acc, xacc, ignore, obj, skipFrom), d)
      invariant Resume(k, Control(stack[..n], acc, xacc, ignore, obj, skipFrom), Place(d, a, writes)) == answer
      invariant memory[..] == Apply(start, writes)
      decreases |k.desc| - d
    {
      ghost var m := Control(stack[..n], acc, xacc, ignore, obj, skipFrom);
      ghost var p := Place(d, a, writes);
      StackFacts(k, m, d);
      TurnRefuses(k, m, p);
      var c := At(k.desc, d);
      if c == '\0' {
        return Error(Truncated, d);
      }
      Accepts(xacc, c);
      if c !in acc {
        return Error(InvalidCharacter, d);
      }
      if c == 's' && xacc == '}' {
        var r;
        r, ignore, obj, skipFrom := UnpackKey(k, stack, n, ignore, obj, d, a, skipFrom, writes);
        if r.Bad? {
          return UndefinedCall;
        }
        if r.Stop? {
          return Error(r.code, r.pos);
        }
        d, a, xacc, acc := r.d, r.a, ':', AcceptSet(':');
        continue;
      } else if c == '[' || c == '{' {
        var r, ignore' := UnpackOpen(k, stack, n, acc, xacc, ignore, obj, d, a, skipFrom, writes);
        if r.Stop? {
          return Error(r.code, r.pos);
        }
        n, ignore, d, a := n + 1, ignore', r.d, r.a;
        if c == '{' {
          xacc, acc := '}', AcceptSet('}');
          continue;
        }
        xacc, acc := ']', AcceptSet(']');
      } else if c == '}' || c == ']' {
        d, acc, xacc, ignore := UnpackClose(k, c, stack, n, acc, xacc, ignore, obj, d, a, skipFrom, writes);
        n := n - 1;
      } else if c == '!' || c == '*' {
        var r := UnpackEnd(k, stack, n, acc, xacc, ignore, obj, d, a, skipFrom, writes);
        if r.Stop? {
          return Error(r.code, r.pos);
        }
        d, acc := r.d, [xacc];
        continue;
      } else {
        TurnReadsScalar(k, m, p);
        var r;
        r, writes := UnpackScalar(k, d, a, obj, ignore > 0, memory, start, writes);
        LeaveEnds(k, m.stack, xacc, skipFrom, Join(r, writes));
        if r.Bad? {
          return UndefinedCall;
        }
        if r.Stop? {
          return Error(r.code, r.pos);
        }
        d, a := r.d, r.a;
      }
      var over;
      over, acc, xacc, ignore, obj, skipFrom := AfterValue(k, stack, n, acc, xacc, ignore, obj, d, a, skipFrom, writes);
      if over.Some? {
        return over.value;
      }
    }
  }
}
