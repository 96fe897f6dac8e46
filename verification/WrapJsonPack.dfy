/** The packing interpreter: a recursive meaning of a format string, and the iterative
    stack machine of wrap_json_vpack proved to compute exactly that meaning. */
module WrapJsonPack {
  import opened Options
  import opened WrapJsonBase

  /** One element of the variable argument list. A size is a `size_t`, an `int` is 32 bits wide. */
  datatype Arg =
    | StrArg(text: Option<string>)
    | SizeArg(size: nat)
    | IntArg(i: int32)
    | Int64Arg(l: int64)
    | DoubleArg(r: real)
    | JsonArg(json: Json)

  /** The format string and the argument list of one call. */
  datatype Call = Call(desc: string, args: seq<Arg>)

  /** Outcome of reading one piece of the format at cursor `d` with the next argument at `a`.
      `BadCall` is C's undefined behaviour: an argument of the wrong type, or a read past a buffer. */
  datatype Read<+T> =
    | Done(value: T, d: nat, a: nat)
    | Fail(code: ErrorCode, pos: nat)
    | BadCall

  datatype Outcome = Packed(json: Json) | Refused(code: ErrorCode, pos: nat) | Undefined

  // ---------------------------------------------------------------- strings

  datatype Fragment = Fragment(text: Option<string>, size: int)

  /** True when `size` bytes may be read from the fragment. */
  predicate Readable(f: Fragment) {
    match f.text
    case None => f.size == 0
    case Some(s) => 0 <= f.size <= |s|
  }

  predicate AllReadable(strs: seq<Fragment>) {
    forall k :: 0 <= k < |strs| ==> Readable(strs[k])
  }

  predicate NotNull(strs: seq<Fragment>) {
    exists k :: 0 <= k < |strs| && strs[k].text.Some?
  }

  function Bytes(f: Fragment): string
    requires Readable(f)
  {
    if f.text.Some? then f.text.value[..f.size] else ""
  }

  /** The fragments in order. */
  function Concat(strs: seq<Fragment>): string
    requires AllReadable(strs)
  {
    if strs == [] then "" else Bytes(strs[0]) + Concat(strs[1..])
  }

  /** One fragment is its bytes, and two lists of fragments follow each other. */
  lemma {:induction false} ConcatJoins(a: seq<Fragment>, b: seq<Fragment>)
    requires AllReadable(a) && AllReadable(b)
    ensures AllReadable(a + b) && Concat(a + b) == Concat(a) + Concat(b)
    ensures |a| == 1 ==> Concat(a) == Bytes(a[0])
  {
    if a == [] {
      assert a + b == b;
    } else {
      ConcatJoins(a[1..], b);
      assert (a + b)[0] == a[0] && (a + b)[1..] == a[1..] + b;
    }
  }

  /** The length part of a fragment: `%`, `#` or nothing. */
  function ReadSize(k: Call, text: Option<string>, d: nat, a: nat): (r: Read<Fragment>)
    requires d <= |k.desc|
    ensures r.Done? ==> d <= r.d <= |k.desc|
    ensures !r.Fail?
  {
    var c := At(k.desc, d);
    if c == '%' then
      if a < |k.args| && k.args[a].SizeArg?
      then Done(Fragment(text, k.args[a].size), Next(k.desc, d), a + 1)
      else BadCall
    else if c == '#' then
      if a < |k.args| && k.args[a].IntArg? then Done(Fragment(text, k.args[a].i), Next(k.desc, d), a + 1) else BadCall
    else
      Done(Fragment(text, if text.Some? then |CString(text.value)| else 0), d, a)
  }

  function SkipQuestion(k: Call, d: nat): (r: nat)
    requires d <= |k.desc|
    ensures d <= r <= |k.desc|
  {
    if At(k.desc, d) == '?' then Next(k.desc, d) else d
  }

  /** One fragment; its value carries whether a `?` stood before or after the length. */
  function ReadFragment(k: Call, d: nat, a: nat): (r: Read<(Fragment, bool)>)
    requires d <= |k.desc|
    ensures r.Done? ==> d <= r.d <= |k.desc|
    ensures !r.Fail?
  {
    if !(a < |k.args| && k.args[a].StrArg?) then BadCall
    else
      var sized := ReadSize(k, k.args[a].text, SkipQuestion(k, d), a + 1);
      if sized.BadCall? then BadCall
      else Done((sized.value, At(k.desc, d) == '?' || At(k.desc, sized.d) == '?'), SkipQuestion(k, sized.d), sized.a)
  }

  /** The fragments from cursor `d` on, after those already in `strs`. */
  function ReadFragments(k: Call, d: nat, a: nat, strs: seq<Fragment>, nullable: bool): (r: Read<(seq<Fragment>, bool)>)
    requires d <= |k.desc| && |strs| < STRCOUNT
    ensures r.Done? ==> d <= r.d <= |k.desc|
    decreases |k.desc| - d
  {
    var one := ReadFragment(k, d, a);
    if one.BadCall? then BadCall
    else
      var strs' := strs + [one.value.0];
      var nullable' := nullable || one.value.1;
      if At(k.desc, one.d) != '+' then Done((strs', nullable'), one.d, one.a)
      else if |strs'| >= STRCOUNT then Fail(TooLong, one.d)
      else ReadFragments(k, Next(k.desc, one.d), one.a, strs', nullable')
  }

  /** What the fragments read so far amount to. */
  function Assemble(k: Call, r: Read<(seq<Fragment>, bool)>): (j: Read<Json>)
    ensures j.Done? ==> r.Done? && j.d == r.d && j.a == r.a && (j.value.Str? || j.value.Null?)
  {
    match r
    case BadCall => BadCall
    case Fail(code, pos) => Fail(code, pos)
    case Done(value, d, a) =>
      if NotNull(value.0) then
        if AllReadable(value.0) then Done(Str(Concat(value.0)), d, a) else BadCall
      else if value.1 || At(k.desc, d) == '*' then Done(Null, d, a)
      else Fail(NullString, d)
  }

  /** A string whose `s` has been consumed; Null when all of its fragments are NULL. */
  function ReadText(k: Call, d: nat, a: nat): (r: Read<Json>)
    requires d <= |k.desc|
    ensures r.Done? ==> d <= r.d <= |k.desc| && (r.value.Str? || r.value.Null?)
  {
    Assemble(k, ReadFragments(k, d, a, [], false))
  }

  // ---------------------------------------------------------------- the recursive meaning

  /** A value that is not a container; `c` has been consumed. */
  function ReadScalar(k: Call, c: char, d: nat, a: nat): (r: Read<Json>)
    requires d <= |k.desc| && c in "snbiIfoO"
    ensures r.Done? ==> d <= r.d <= |k.desc|
  {
    if c == 's' then ReadText(k, d, a)
    else if c == 'n' then Done(Null, d, a)
    else if a >= |k.args| then BadCall
    else
      var arg := k.args[a];
      if c == 'b' then if arg.IntArg? then Done(Bool(arg.i != 0), d, a + 1) else BadCall
      else if c == 'i' then if arg.IntArg? then Done(Int(arg.i), d, a + 1) else BadCall
      else if c == 'I' then if arg.Int64Arg? then Done(Int(arg.l), d, a + 1) else BadCall
      else if c == 'f' then if arg.DoubleArg? then Done(Double(arg.r), d, a + 1) else BadCall
      else if !arg.JsonArg? then BadCall
      else if At(k.desc, d) == '?' then Done(arg.json, Next(k.desc, d), a + 1)
      else if At(k.desc, d) != '*' && arg.json.Null? then Fail(NullObject, d)
      else Done(arg.json, d, a + 1)
  }

  /** One value from cursor `d` on, inside `depth` open containers. */
  function ReadValue(k: Call, d: nat, a: nat, depth: nat): (r: Read<Json>)
    requires d <= |k.desc|
    ensures r.Done? ==> d < r.d <= |k.desc|
    decreases |k.desc| - d, 0
  {
    var c := At(k.desc, d);
    if c == '\0' then Fail(Truncated, d)
    else if c !in "[{snbiIfoO" then Fail(InvalidCharacter, d)
    else
      var d1 := Next(k.desc, d);
      if c == '[' || c == '{' then
        if depth + 1 >= STACKCOUNT then Fail(TooDeep, d1)
        else if c == '[' then ReadItems(k, d1, a, depth + 1, [])
        else ReadMembers(k, d1, a, depth + 1, map[])
      else ReadScalar(k, c, d1, a)
  }

  /** The cursor after the `*` that may follow a value. */
  function SkipStar(k: Call, d: nat): (r: nat)
    requires d <= |k.desc|
    ensures d <= r <= |k.desc|
  {
    if At(k.desc, d) == '*' then Next(k.desc, d) else d
  }

  /** A null value followed by `*` is left out. */
  predicate Kept(k: Call, v: Json, d: nat) {
    v != Null || At(k.desc, d) != '*'
  }

  function AddItem(k: Call, items: seq<Json>, v: Json, d: nat): seq<Json> {
    if Kept(k, v, d) then items + [v] else items
  }

  function AddMember(k: Call, members: map<string, Json>, key: string, v: Json, d: nat): map<string, Json> {
    if Kept(k, v, d) then members[CString(key) := v] else members
  }

  /** A container closed just before cursor `d`: an empty one followed by `*` counts as null. */
  function Closed(k: Call, cont: Json, d: nat): Json {
    if At(k.desc, d) == '*' && (cont == Arr([]) || cont == Obj(map[])) then Null else cont
  }

  /** The rest of an array whose first items are `items`, up to and including its `]`. */
  function ReadItems(k: Call, d: nat, a: nat, depth: nat, items: seq<Json>): (r: Read<Json>)
    requires d <= |k.desc|
    ensures r.Done? ==> d < r.d <= |k.desc|
    decreases |k.desc| - d, 1
  {
    var c := At(k.desc, d);
    if c == '\0' then Fail(Truncated, d)
    else if c !in "][{snbiIfoO" then Fail(InvalidCharacter, d)
    else if c == ']' then Done(Closed(k, Arr(items), Next(k.desc, d)), Next(k.desc, d), a)
    else
      var v := ReadValue(k, d, a, depth);
      if v.Done? then ReadItems(k, SkipStar(k, v.d), v.a, depth, AddItem(k, items, v.value, v.d)) else v
  }

  /** The rest of an object that already holds `members`, up to and including its `}`. */
  function ReadMembers(k: Call, d: nat, a: nat, depth: nat, members: map<string, Json>): (r: Read<Json>)
    requires d <= |k.desc|
    ensures r.Done? ==> d < r.d <= |k.desc|
    decreases |k.desc| - d, 1
  {
    var c := At(k.desc, d);
    if c == '\0' then Fail(Truncated, d)
    else if c !in "s}" then Fail(InvalidCharacter, d)
    else if c == '}' then Done(Closed(k, Obj(members), Next(k.desc, d)), Next(k.desc, d), a)
    else
      var key := ReadText(k, Next(k.desc, d), a);
      if !key.Done? then key
      else if key.value.Null? then Fail(NullKey, key.d)
      else ReadMember(k, key.d, key.a, depth, members, key.value.s)
  }

  /** The value of `key`, then the rest of the object. */
  function ReadMember(k: Call, d: nat, a: nat, depth: nat, members: map<string, Json>, key: string): (r: Read<Json>)
    requires d <= |k.desc|
    ensures r.Done? ==> d < r.d <= |k.desc|
    decreases |k.desc| - d, 1
  {
    var v := ReadValue(k, d, a, depth);
    if v.Done? then ReadMembers(k, SkipStar(k, v.d), v.a, depth, AddMember(k, members, key, v.value, v.d)) else v
  }

  /** A complete format holds one value and nothing after it. */
  function Finish(k: Call, r: Read<Json>): Outcome {
    match r
    case BadCall => Undefined
    case Fail(code, pos) => Refused(code, pos)
    case Done(v, d, a) => if At(k.desc, d) != '\0' then Refused(InvalidCharacter, d) else Packed(v)
  }

  /** What wrap_json_vpack answers. */
  function Meaning(desc: Option<string>, args: seq<Arg>): Outcome {
    match desc
    case None => Refused(NullSpec, 0)
    case Some(s) => var k := Call(s, args); Finish(k, ReadValue(k, Skip(s, 0), 0, 0))
  }

  // ---------------------------------------------------------------- the stack machine

  /** One slot of the explicit stack: the container being filled, the key waiting for its value,
      the characters accepted next, and the type: NUL at the base, `]`, `}` or `:`. */
  datatype Frame = Frame(cont: Json, key: string, acc: string, kind: char)

  predicate WfFrame(f: Frame) {
    match f.kind
    case '\0' => f.acc == "[{snbiIfoO"
    case ']' => f.acc == "][{snbiIfoO" && f.cont.Arr?
    case '}' => f.acc == "s}" && f.cont.Obj?
    case ':' => f.acc == "[{snbiIfoO" && f.cont.Obj?
    case _ => false
  }

  /** Accept set, container type and position always agree. */
  predicate WfStack(stack: seq<Frame>) {
    && 1 <= |stack| <= STACKCOUNT
    && (forall i :: 0 <= i < |stack| ==> WfFrame(stack[i]) && (stack[i].kind == '\0' <==> i == 0))
    && (forall i :: 0 <= i < |stack| - 1 ==> stack[i].kind != '}')
  }

  /** What remains to be computed from a machine state, said with the recursive meaning:
      finish the innermost container, hand it to the frame below, and so on down to the base. */
  ghost function Resume(k: Call, stack: seq<Frame>, d: nat, a: nat): Outcome
    requires WfStack(stack) && d <= |k.desc|
    decreases |stack|, 1
  {
    var f := Last(stack);
    var depth := |stack| - 1;
    match f.kind
    case ']' => Leave(k, Parents(stack), ReadItems(k, d, a, depth, f.cont.elems))
    case '}' => Leave(k, Parents(stack), ReadMembers(k, d, a, depth, f.cont.members))
    case ':' => Leave(k, Parents(stack), ReadMember(k, d, a, depth, f.cont.members, f.key))
    case _ => Finish(k, ReadValue(k, d, a, 0))
  }

  /** The innermost container has been read as `r`; `stack` holds the frames around it. */
  ghost function Leave(k: Call, stack: seq<Frame>, r: Read<Json>): Outcome
    requires WfStack(stack) && Last(stack).kind != '}' && (r.Done? ==> r.d <= |k.desc|)
    decreases |stack|, 0
  {
    match r
    case BadCall => Undefined
    case Fail(code, pos) => Refused(code, pos)
    case Done(v, d, a) =>
      var f := Last(stack);
      var depth := |stack| - 1;
      match f.kind
      case ']' => Leave(k, Parents(stack), ReadItems(k, SkipStar(k, d), a, depth, AddItem(k, f.cont.elems, v, d)))
      case ':' =>
        Leave(k, Parents(stack), ReadMembers(k, SkipStar(k, d), a, depth, AddMember(k, f.cont.members, f.key, v, d)))
      case _ => Finish(k, r)
  }

  /** A value, or the reason there is none, is handed to the frame that waits for it. */
  lemma ResumeWithValue(k: Call, stack: seq<Frame>, d: nat, a: nat)
    requires WfStack(stack) && d <= |k.desc|
    requires Last(stack).kind != '}' && (Last(stack).kind == ']' ==> At(k.desc, d) in "[{snbiIfoO")
    ensures Resume(k, stack, d, a) == Leave(k, stack, ReadValue(k, d, a, |stack| - 1))
  {
  }

  /** At the base of the stack the rest of the run is the whole meaning. */
  lemma ResumeStarts(k: Call, stack: seq<Frame>, d: nat)
    requires WfStack(stack) && |stack| == 1 && d == Skip(k.desc, 0)
    ensures Resume(k, stack, d, 0) == Meaning(Some(k.desc), k.args)
  {
  }

  /** A character outside the accept set ends the run at the cursor. */
  lemma ResumeRefuses(k: Call, stack: seq<Frame>, d: nat, a: nat)
    requires WfStack(stack) && d <= |k.desc|
    ensures At(k.desc, d) == '\0' ==> Resume(k, stack, d, a) == Refused(Truncated, d)
    ensures At(k.desc, d) != '\0' && At(k.desc, d) !in Last(stack).acc ==>
      Resume(k, stack, d, a) == Refused(InvalidCharacter, d)
  {
    if Last(stack).kind in ":\0" {
      ResumeWithValue(k, stack, d, a);
    }
  }

  /** Opening a container pushes a frame that reads it. */
  lemma ResumeOpens(k: Call, stack: seq<Frame>, d: nat, a: nat, f: Frame)
    requires WfStack(stack) && d <= |k.desc| && Last(stack).kind != '}' && |stack| < STACKCOUNT
    requires WfFrame(f)
    requires At(k.desc, d) == '[' ==> f.kind == ']' && f.cont == Arr([])
    requires At(k.desc, d) == '{' ==> f.kind == '}' && f.cont == Obj(map[])
    requires At(k.desc, d) == '[' || At(k.desc, d) == '{'
    ensures WfStack(stack + [f])
    ensures Resume(k, stack, d, a) == Resume(k, stack + [f], Next(k.desc, d), a)
  {
    ResumeWithValue(k, stack, d, a);
    assert Parents(stack + [f]) == stack;
  }

  /** A value kept by an array or stored under a key leaves the frame updated. */
  lemma LeaveIntoFrame(k: Call, stack: seq<Frame>, f: Frame, v: Json, d: nat, a: nat)
    requires WfStack(stack) && Last(stack).kind in "]:" && d <= |k.desc|
    requires Last(stack).kind == ']' ==> f == Last(stack).(cont := Arr(AddItem(k, Last(stack).cont.elems, v, d)))
    requires Last(stack).kind == ':' ==>
      WfFrame(f) && f.kind == '}' && f.cont == Obj(AddMember(k, Last(stack).cont.members, Last(stack).key, v, d))
    ensures WfStack(Parents(stack) + [f])
    ensures Leave(k, stack, Done(v, d, a)) == Resume(k, Parents(stack) + [f], SkipStar(k, d), a)
  {
    assert Parents(Parents(stack) + [f]) == Parents(stack);
  }

  /** Closing a container hands it to the frames around it. */
  lemma ResumeCloses(k: Call, stack: seq<Frame>, d: nat, a: nat)
    requires WfStack(stack) && d <= |k.desc|
    requires At(k.desc, d) == Last(stack).kind && Last(stack).kind in "]}"
    ensures WfStack(Parents(stack))
    ensures Resume(k, stack, d, a)
         == Leave(k, Parents(stack), Done(Closed(k, Last(stack).cont, Next(k.desc, d)), Next(k.desc, d), a))
  {
  }

  /** After `s`, an object frame holds its key and waits for a value. */
  lemma ResumeKey(k: Call, stack: seq<Frame>, d: nat, a: nat, key: Read<Json>, f: Frame)
    requires WfStack(stack) && d <= |k.desc|
    requires Last(stack).kind == '}' && At(k.desc, d) == 's'
    requires key == ReadText(k, Next(k.desc, d), a)
    ensures key.BadCall? ==> Resume(k, stack, d, a) == Undefined
    ensures key.Fail? ==> Resume(k, stack, d, a) == Refused(key.code, key.pos)
    ensures key.Done? && key.value.Null? ==> Resume(k, stack, d, a) == Refused(NullKey, key.d)
    ensures key.Done? && key.value.Str?
        && WfFrame(f) && f.kind == ':' && f.cont == Last(stack).cont && f.key == key.value.s
        ==> WfStack(Parents(stack) + [f]) && Resume(k, stack, d, a) == Resume(k, Parents(stack) + [f], key.d, key.a)
  {
    assert Parents(Parents(stack) + [f]) == Parents(stack);
  }

  // ---------------------------------------------------------------- wrap_json_vpack

  /** The fragments of a string are copied from the last one back to the first. */
  method CopyFragments(strs: seq<Fragment>) returns (s: string)
    requires AllReadable(strs)
    ensures s == Concat(strs)
  {
    s := "";
    var nstr := |strs|;
    while nstr > 0
      invariant 0 <= nstr <= |strs|
      invariant s == Concat(strs[nstr..])
    {
      nstr := nstr - 1;
      assert strs[nstr..][1..] == strs[nstr + 1..];
      s := Bytes(strs[nstr]) + s;
    }
    assert strs[0..] == strs;
  }

  /** The length of a fragment: an explicit argument, or the length of the C string. */
  method PackSize(k: Call, text: Option<string>, start: nat, arg: nat) returns (r: Read<Fragment>)
    requires start <= |k.desc|
    ensures r == ReadSize(k, text, start, arg)
  {
    match At(k.desc, start)
    case '%' =>
      if !(arg < |k.args| && k.args[arg].SizeArg?) {
        return BadCall;
      }
      var d := SkipIgnored(k.desc, start + 1);
      r := Done(Fragment(text, k.args[arg].size), d, arg + 1);
    case '#' =>
      if !(arg < |k.args| && k.args[arg].IntArg?) {
        return BadCall;
      }
      var d := SkipIgnored(k.desc, start + 1);
      r := Done(Fragment(text, k.args[arg].i), d, arg + 1);
    case _ =>
      r := Done(Fragment(text, if text.Some? then |CString(text.value)| else 0), start, arg);
  }

  /** One turn of the fragment loop: a string argument with its `?` and its length. */
  method PackFragment(k: Call, start: nat, arg: nat) returns (r: Read<(Fragment, bool)>)
    requires start <= |k.desc|
    ensures r == ReadFragment(k, start, arg)
  {
    if !(arg < |k.args| && k.args[arg].StrArg?) {
      return BadCall;
    }
    var d: nat, nullable := start, false;
    if At(k.desc, d) == '?' {
      d := SkipIgnored(k.desc, d + 1);
      nullable := true;
    }
    var sized := PackSize(k, k.args[arg].text, d, arg + 1);
    if sized.BadCall? {
      return BadCall;
    }
    d := sized.d;
    if At(k.desc, d) == '?' {
      d := SkipIgnored(k.desc, d + 1);
      nullable := true;
    }
    r := Done((sized.value, nullable), d, sized.a);
  }

  /** The string branch of the switch: reads fragments as long as `+` follows. */
  method PackText(k: Call, start: nat, arg: nat) returns (r: Read<Json>)
    requires start <= |k.desc|
    ensures r == ReadText(k, start, arg)
  {
    hide Skip, CString, ReadFragment;
    var d: nat, a: nat := start, arg;
    var strs: seq<Fragment> := [];
    var notnull, nullable := false, false;
    while true
      invariant d <= |k.desc| && |strs| < STRCOUNT
      invariant notnull == NotNull(strs)
      invariant ReadFragments(k, start, arg, [], false) == ReadFragments(k, d, a, strs, nullable)
      decreases |k.desc| - d
    {
      var one := PackFragment(k, d, a);
      if one.BadCall? {
        return BadCall;
      }
      ExtendNotNull(strs, one.value.0);
      strs := strs + [one.value.0];
      notnull := notnull || one.value.0.text.Some?;
      nullable := nullable || one.value.1;
      d, a := one.d, one.a;
      if At(k.desc, d) != '+' {
        break;
      }
      if |strs| >= STRCOUNT {
        return Fail(TooLong, d);
      }
      d := SkipIgnored(k.desc, d + 1);
    }
    if At(k.desc, d) == '*' {
      nullable := true;
    }
    if notnull {
      if forall i :: 0 <= i < |strs| ==> Readable(strs[i]) {
        var s := CopyFragments(strs);
        r := Done(Str(s), d, a);
      } else {
        r := BadCall;
      }
    } else if nullable {
      r := Done(Null, d, a);
    } else {
      r := Fail(NullString, d);
    }
  }

  lemma ExtendNotNull(strs: seq<Fragment>, f: Fragment)
    ensures NotNull(strs + [f]) <==> NotNull(strs) || f.text.Some?
  {
    if NotNull(strs) {
      var i :| 0 <= i < |strs| && strs[i].text.Some?;
      assert (strs + [f])[i].text.Some?;
    }
    assert f.text.Some? ==> (strs + [f])[|strs|].text.Some?;
  }

  /** The scalar branches of the switch. */
  method PackScalar(k: Call, c: char, d: nat, a: nat) returns (r: Read<Json>)
    requires d <= |k.desc| && c in "snbiIfoO"
    ensures r == ReadScalar(k, c, d, a)
  {
    if c == 's' {
      r := PackText(k, d, a);
    } else if c == 'n' {
      r := Done(Null, d, a);
    } else if a >= |k.args| {
      r := BadCall;
    } else {
      match k.args[a]
      case IntArg(i) =>
        r := if c == 'b' then Done(Bool(i != 0), d, a + 1) else if c == 'i' then Done(Int(i), d, a + 1) else BadCall;
      case Int64Arg(l) =>
        r := if c == 'I' then Done(Int(l), d, a + 1) else BadCall;
      case DoubleArg(x) =>
        r := if c == 'f' then Done(Double(x), d, a + 1) else BadCall;
      case JsonArg(json) =>
        if c != 'o' && c != 'O' {
          r := BadCall;
        } else if At(k.desc, d) == '?' {
          var d' := SkipIgnored(k.desc, d + 1);
          r := Done(json, d', a + 1);
        } else if At(k.desc, d) != '*' && json.Null? {
          r := Fail(NullObject, d);
        } else {
          r := Done(json, d, a + 1);
        }
      case _ =>
        r := BadCall;
    }
  }

  /** The second switch, for a value that an array or a member waits for: it is added to the
      container unless it is null and `*` follows; a key that got its value is released. */
  method StoreValue(k: Call, stack: array<Frame>, top: nat, r: Read<Json>) returns (d: nat)
    requires top < stack.Length == STACKCOUNT && r.Done? && r.d <= |k.desc|
    requires WfStack(stack[..top + 1]) && stack[top].kind in "]:"
    modifies stack
    ensures r.d <= d <= |k.desc| && WfStack(stack[..top + 1])
    ensures Resume(k, stack[..top + 1], d, r.a) == Leave(k, old(stack[..top + 1]), r)
  {
    ghost var frames := stack[..top + 1];
    assert Last(frames) == stack[top];
    var obj := r.value;
    d := r.d;
    var f := stack[top];
    if f.kind == ']' {
      if obj != Null || At(k.desc, d) != '*' {
        f := f.(cont := Arr(f.cont.elems + [obj]));
      }
    } else {
      if obj != Null || At(k.desc, d) != '*' {
        f := f.(cont := Obj(f.cont.members[CString(f.key) := obj]));
      }
      f := f.(key := "", acc := "s}", kind := '}');
    }
    if At(k.desc, d) == '*' {
      d := SkipIgnored(k.desc, d + 1);
    }
    stack[top] := f;
    LeaveIntoFrame(k, frames, f, obj, r.d, r.a);
    assert stack[..top + 1] == Parents(frames) + [f];
  }

  /** A scalar, or a key, is read where the innermost frame waits for it. */
  lemma ResumeScalar(k: Call, stack: seq<Frame>, d: nat, a: nat)
    requires WfStack(stack) && d < |k.desc| && At(k.desc, d) in Last(stack).acc && At(k.desc, d) !in "[{]}"
    ensures At(k.desc, d) in "snbiIfoO" && (Last(stack).kind == '}' ==> At(k.desc, d) == 's')
    ensures var r := ReadScalar(k, At(k.desc, d), Next(k.desc, d), a);
      && (Last(stack).kind == '}' ==> r == ReadText(k, Next(k.desc, d), a))
      && (Last(stack).kind != '}' ==> Resume(k, stack, d, a) == Leave(k, stack, r))
      && (r.BadCall? ==> Resume(k, stack, d, a) == Undefined)
      && (r.Fail? ==> Resume(k, stack, d, a) == Refused(r.code, r.pos))
      && (Last(stack).kind == '\0' ==> |stack| == 1 && Resume(k, stack, d, a) == Finish(k, r))
  {
    hide Skip, Next, ReadText, ReadItems;
    var c := At(k.desc, d);
    assert c in "snbiIfoO";
    if Last(stack).kind == '}' {
      ResumeKey(k, stack, d, a, ReadText(k, Next(k.desc, d), a), Last(stack));
    } else {
      ResumeWithValue(k, stack, d, a);
      assert ReadValue(k, d, a, |stack| - 1) == ReadScalar(k, c, Next(k.desc, d), a);
    }
  }

  /** The value of a scalar or a closed container, together with the cursor after it. */
  method PackValue(k: Call, c: char, stack: array<Frame>, top: nat, d: nat, a: nat) returns (r: Read<Json>, top': nat)
    requires top < stack.Length == STACKCOUNT && d < |k.desc|
    requires WfStack(stack[..top + 1]) && c == At(k.desc, d) && c != '\0' && c in stack[top].acc && c !in "[{"
    ensures top' <= top && WfStack(stack[..top' + 1])
    ensures r.Done? ==> d < r.d <= |k.desc|
    ensures stack[top'].kind != '}' ==> Resume(k, stack[..top + 1], d, a) == Leave(k, stack[..top' + 1], r)
    ensures stack[top'].kind == '}' ==> top' == top && c == 's' && r == ReadText(k, Next(k.desc, d), a)
    ensures r.BadCall? ==> Resume(k, stack[..top + 1], d, a) == Undefined
    ensures r.Fail? ==> Resume(k, stack[..top + 1], d, a) == Refused(r.code, r.pos)
    ensures r.Done? && stack[top'].kind == '\0' ==> top' == 0 && Resume(k, stack[..top + 1], d, a) == Finish(k, r)
  {
    hide Skip, ReadText, ReadScalar, ReadItems, ReadMembers, ReadMember, ReadValue;
    ghost var frames := stack[..top + 1];
    assert Last(frames) == stack[top];
    var d1 := SkipIgnored(k.desc, d + 1);
    if c == ']' || c == '}' {
      if c != stack[top].kind || top == 0 {
        assert false;  // internal_error
      }
      ResumeCloses(k, frames, d, a);
      var obj := stack[top].cont;
      top' := top - 1;
      if At(k.desc, d1) == '*' && (obj == Arr([]) || obj == Obj(map[])) {
        obj := Null;
      }
      r := Done(obj, d1, a);
      assert stack[..top' + 1] == Parents(frames);
      assert Last(Parents(frames)) == stack[top'];
    } else {
      ResumeScalar(k, frames, d, a);
      r := PackScalar(k, c, d1, a);
      top' := top;
    }
  }

  /** The opening brackets: a new frame is pushed unless the stack is full. */
  method OpenContainer(k: Call, c: char, stack: array<Frame>, top: nat, d: nat, a: nat) returns (r: Read<()>)
    requires top < stack.Length == STACKCOUNT && d < |k.desc|
    requires WfStack(stack[..top + 1]) && c == At(k.desc, d) && c in stack[top].acc && c in "[{"
    modifies stack
    ensures r.Done? ==> top + 1 < STACKCOUNT && d < r.d <= |k.desc| && WfStack(stack[..top + 2])
    ensures r.Done? ==> Resume(k, stack[..top + 2], r.d, r.a) == Resume(k, old(stack[..top + 1]), d, a)
    ensures r.Fail? ==> Resume(k, old(stack[..top + 1]), d, a) == Refused(r.code, r.pos)
    ensures !r.BadCall?
  {
    ghost var frames := stack[..top + 1];
    assert Last(frames) == stack[top];
    var d1 := SkipIgnored(k.desc, d + 1);
    if top + 1 >= STACKCOUNT {
      ResumeWithValue(k, frames, d, a);
      return Fail(TooDeep, d1);
    }
    if c == '[' {
      stack[top + 1] := Frame(Arr([]), "", "][{snbiIfoO", ']');
    } else {
      stack[top + 1] := Frame(Obj(map[]), "", "s}", '}');
    }
    ResumeOpens(k, frames, d, a, stack[top + 1]);
    assert stack[..top + 2] == frames + [stack[top + 1]];
    r := Done((), d1, a);
  }

  /** The second switch, for a string that an object takes as its next key. */
  method StoreKey(k: Call, stack: array<Frame>, top: nat, r: Read<Json>, ghost d: nat, ghost a: nat)
    returns (refused: bool)
    requires top < stack.Length == STACKCOUNT && d < |k.desc|
    requires WfStack(stack[..top + 1]) && stack[top].kind == '}' && At(k.desc, d) == 's'
    requires r == ReadText(k, Next(k.desc, d), a) && r.Done?
    modifies stack
    ensures refused ==> Resume(k, old(stack[..top + 1]), d, a) == Refused(NullKey, r.d)
    ensures !refused ==>
      WfStack(stack[..top + 1]) && Resume(k, stack[..top + 1], r.d, r.a) == Resume(k, old(stack[..top + 1]), d, a)
  {
    ghost var frames := stack[..top + 1];
    assert Last(frames) == stack[top];
    refused := r.value.Null?;
    if !refused {
      stack[top] := stack[top].(key := r.value.s, acc := "[{snbiIfoO", kind := ':');
      assert stack[..top + 1] == Parents(frames) + [stack[top]];
    }
    ResumeKey(k, frames, d, a, r, stack[top]);
  }

  /** The main loop over the format. Every turn consumes a character, and what remains to be
      computed never changes. */
  method Vpack(desc: Option<string>, args: seq<Arg>) returns (result: Outcome)
    ensures result == Meaning(desc, args)
  {
    hide Resume, Leave, ReadText, ReadValue, ReadItems, ReadMembers, ReadMember, Skip, Next;
    if desc.None? {
      return Refused(NullSpec, 0);
    }
    ghost var answer := Meaning(desc, args);
    var k := Call(desc.value, args);
    var stack := new Frame[STACKCOUNT];
    var top: nat := 0;
    stack[0] := Frame(Null, "", "[{snbiIfoO", '\0');
    var d: nat := SkipIgnored(k.desc, 0);
    var a: nat := 0;
    ResumeStarts(k, stack[..top + 1], d);
    while true
      invariant top < stack.Length == STACKCOUNT && d <= |k.desc|
      invariant WfStack(stack[..top + 1])
      invariant Resume(k, stack[..top + 1], d, a) == answer
      decreases |k.desc| - d
    {
      ghost var frames := stack[..top + 1];
      assert Last(frames) == stack[top];
      ResumeRefuses(k, frames, d, a);
      var c := At(k.desc, d);
      if c == '\0' {
        return Refused(Truncated, d);
      }
      if c !in stack[top].acc {
        return Refused(InvalidCharacter, d);
      }
      if c == '[' || c == '{' {
        var pushed := OpenContainer(k, c, stack, top, d, a);
        if pushed.Fail? {
          return Refused(pushed.code, pushed.pos);
        }
        top, d, a := top + 1, pushed.d, pushed.a;
        continue;
      }
      var r, top' := PackValue(k, c, stack, top, d, a);
      top := top';
      if r.BadCall? {
        return Undefined;
      }
      if r.Fail? {
        return Refused(r.code, r.pos);
      }
      match stack[top].kind
      case '\0' =>
        if top != 0 {
          assert false;  // internal_error
        }
        if At(k.desc, r.d) != '\0' {
          return Refused(InvalidCharacter, r.d);
        }
        return Packed(r.value);
      case '}' =>
        var refused := StoreKey(k, stack, top, r, d, a);
        if refused {
          return Refused(NullKey, r.d);
        }
        d, a := r.d, r.a;
      case _ =>
        d := StoreValue(k, stack, top, r);
        a := r.a;
    }
  }
}
