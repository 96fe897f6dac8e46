/** Which error unpacking answers: for a well-formed format it is the first misfit in the order of the format. */
module WrapJsonMisfits {
  import opened Options
  import opened WrapJsonBase
  import opened WrapJsonUnpack
  import opened WrapJsonUnpackGrammar

  /** Everything is in order, or the first thing that is not; `Ugly` is an argument of the wrong type. */
  datatype Verdict = Good | Bad(code: ErrorCode) | Ugly

  function Then(v: Verdict, w: Verdict): Verdict {
    if v == Good then w else v
  }

  function Unless(ok: bool, code: ErrorCode): Verdict {
    if ok then Good else Bad(code)
  }

  function Pointer(ok: bool): Verdict {
    if ok then Good else Ugly
  }

  /** The verdict on `obj`, inside `depth` containers; nothing is asked of a value that is absent. */
  function Judge(f: Fmt, args: seq<Arg>, store: bool, obj: Json, skip: bool, a: nat, depth: nat): Verdict {
    match f
    case FLeaf(c, sized) =>
      Then(Pointer(!store || c == 'n' || (a < |args| && PointerFor(c, args[a]))),
      Then(Unless(skip || HasType(c, obj), MissfitType),
           Pointer(!store || !sized || (a + 1 < |args| && args[a + 1].SizePtr?))))
    case FArr(items, close) =>
      var elems := if obj.Arr? && !skip then obj.elems else [];
      Then(Unless(depth < 32, TooDeep),
      Then(Unless(skip || obj.Arr?, MissfitType),
      Then(JudgeItems(items, args, store, elems, skip, a, depth + 1),
           Unless(skip || !close.Bang? || Count(items) == |elems|, Incomplete))))
    case FObj(members, close) =>
      var m := if obj.Obj? && !skip then obj.members else map[];
      Then(Unless(depth < 32, TooDeep),
      Then(Unless(skip || obj.Obj?, MissfitType),
      Then(JudgeMembers(members, args, store, m, skip, a, depth + 1),
           Unless(skip || !close.Bang? || Found(LookedUp(members, args, store, a), m) == |m|, Incomplete))))
  }

  function JudgeItems(items: Items, args: seq<Arg>, store: bool, elems: seq<Json>, skip: bool, a: nat,
                      depth: nat): Verdict {
    match items
    case INil => Good
    case ICons(head, tail) =>
      if !skip && elems == [] then Bad(OutOfRange)
      else
        Then(Judge(head, args, store, if skip then Null else elems[0], skip, a, depth),
             JudgeItems(tail, args, store, if skip then [] else elems[1..], skip, a + Arity(head, store), depth))
  }

  function JudgeMembers(members: Members, args: seq<Arg>, store: bool, m: map<string, Json>, skip: bool, a: nat,
                        depth: nat): Verdict {
    match members
    case MNil => Good
    case MCons(optional, head, tail) =>
      if !(a < |args| && args[a].KeyArg?) then Ugly
      else if args[a].key.None? then Bad(NullKey)
      else
        var key := CString(args[a].key.value);
        var there := !skip && key in m;
        Then(Unless(skip || there || optional, KeyNotFound),
        Then(Judge(head, args, store, if there then m[key] else Null, !there, a + 1, depth),
             JudgeMembers(tail, args, store, m, skip, a + 1 + Arity(head, store), depth)))
  }

  // ---------------------------------------------------------------- the interpreter agrees

  /** The outcome is what the verdict says; a success ends at cursor `d` and argument `a`. */
  predicate Says(r: Read, v: Verdict, d: nat, a: nat) {
    match v
    case Good => r.Done? && r.p.d == d && r.p.a == a
    case Bad(code) => r.Fail? && r.code == code
    case Ugly => r.BadCall?
  }

  lemma LeafJudged(k: Call, f: Fmt, p: Place, obj: Json, skip: bool, depth: nat)
    requires p.d <= |k.desc| && f.FLeaf?
    requires var e := Spells(f, k.desc, Some(p.d)); e.Some? && At(k.desc, e.value) != '%'
    ensures Says(ReadValue(k, p, obj, skip, depth), Judge(f, k.args, k.store, obj, skip, p.a, depth),
                 Spells(f, k.desc, Some(p.d)).value, p.a + Arity(f, k.store))
  {
    hide Skip, Stored;
    FirstCharacter(f, k.desc, p.d);
  }

  lemma {:induction false} ValueJudged(k: Call, f: Fmt, p: Place, obj: Json, skip: bool, depth: nat)
    requires p.d <= |k.desc|
    requires var e := Spells(f, k.desc, Some(p.d)); e.Some? && At(k.desc, e.value) != '%'
    ensures Says(ReadValue(k, p, obj, skip, depth), Judge(f, k.args, k.store, obj, skip, p.a, depth),
                 Spells(f, k.desc, Some(p.d)).value, p.a + Arity(f, k.store))
    decreases f, 2
  {
    hide Skip, Next, ReadScalar, ReadItems, ReadMembers, JudgeItems, JudgeMembers, SpellsItems, SpellsMembers;
    hide SpellsClose, Found, LookedUp, HasType, PointerFor;
    FirstCharacter(f, k.desc, p.d);
    var q := p.(d := Next(k.desc, p.d));
    match f
    case FArr(items, close) =>
      var elems := if obj.Arr? && !skip then obj.elems else [];
      assert elems[0..] == elems;
      ItemsJudged(k, items, close, q, elems, 0, skip, depth + 1);
    case FObj(members, close) =>
      MembersJudged(k, members, close, q, if obj.Obj? && !skip then obj.members else map[], 0, skip, depth + 1);
    case _ =>
      LeafJudged(k, f, p, obj, skip, depth);
  }

  lemma EndJudged(k: Call, p: Place, close: Close, closer: char, complete: bool)
    requires p.d <= |k.desc| && (closer == ']' || closer == '}')
    requires SpellsClose(close, closer, k.desc, Some(p.d)).Some?
    ensures p.d < |k.desc| && Ends(At(k.desc, p.d), closer) && At(k.desc, p.d) != '\0'
    ensures Says(ReadEnd(k, p, closer, complete), Unless(!close.Bang? || complete, Incomplete),
                 SpellsClose(close, closer, k.desc, Some(p.d)).value, p.a)
  {
    hide Skip, Next;
  }

  /** One turn of an array that has a further item in the format. */
  lemma ItemTurn(k: Call, p: Place, elems: seq<Json>, index: nat, skip: bool, depth: nat)
    requires p.d <= |k.desc| && index <= |elems| && Starts(At(k.desc, p.d))
    ensures var r := ReadItems(k, p, elems, index, skip, depth);
      if !skip && index == |elems| then r == Fail(OutOfRange, p.d, p.writes)
      else
        var v := ReadValue(k, p, if skip then Null else elems[index], skip, depth);
        r == if v.Done? then ReadItems(k, v.p, elems, if skip then index else index + 1, skip, depth) else v
  {
    hide Skip, Next, ReadValue, ReadEnd;
  }

  lemma {:induction false} ItemsJudged(k: Call, items: Items, close: Close, p: Place, elems: seq<Json>, index: nat,
                                       skip: bool, depth: nat)
    requires p.d <= |k.desc| && index <= |elems|
    requires SpellsClose(close, ']', k.desc, SpellsItems(items, k.desc, Some(p.d))).Some?
    ensures var rest := if skip then [] else elems[index..];
      Says(ReadItems(k, p, elems, index, skip, depth),
           Then(JudgeItems(items, k.args, k.store, rest, skip, p.a, depth),
                Unless(skip || !close.Bang? || index + Count(items) == |elems|, Incomplete)),
           SpellsClose(close, ']', k.desc, SpellsItems(items, k.desc, Some(p.d))).value,
           p.a + ArityItems(items, k.store))
    decreases items, 1
  {
    hide Skip, Next, ReadItems, ReadValue, ReadEnd, Judge, Spells, SpellsClose, Arity;
    match items
    case INil =>
      EndJudged(k, p, close, ']', skip || index == |elems|);
      ItemsTurn(k, p, elems, index, skip, depth);
    case ICons(head, tail) =>
      SpelledItem(items, close, k.desc, p.d);
      ItemTurn(k, p, elems, index, skip, depth);
      if skip || index < |elems| {
        assert !skip ==> elems[index..][0] == elems[index] && elems[index..][1..] == elems[index + 1..];
        var obj := if skip then Null else elems[index];
        ValueJudged(k, head, p, obj, skip, depth);
        var v := ReadValue(k, p, obj, skip, depth);
        if v.Done? {
          ItemsJudged(k, tail, close, v.p, elems, if skip then index else index + 1, skip, depth);
        }
      }
  }

  lemma KeyJudged(k: Call, members: Members, p: Place, m: map<string, Json>, found: nat, skip: bool, depth: nat)
    requires p.d < |k.desc| && members.MCons? && At(k.desc, p.d) == 's'
    requires members.optional <==> At(k.desc, Next(k.desc, p.d)) == '?'
    requires EatIf(k.desc, Some(Next(k.desc, p.d)), members.optional, '?').Some?
    ensures EatIf(k.desc, Some(Next(k.desc, p.d)), members.optional, '?').value <= |k.desc|
    ensures var r := ReadMembers(k, p, m, found, skip, depth);
      if !(p.a < |k.args| && k.args[p.a].KeyArg?) then r.BadCall?
      else if k.args[p.a].key.None? then r.Fail? && r.code == NullKey
      else
        var key := CString(k.args[p.a].key.value);
        var there := !skip && key in m;
        var d := EatIf(k.desc, Some(Next(k.desc, p.d)), members.optional, '?').value;
        if !skip && !there && !members.optional then r.Fail? && r.code == KeyNotFound
        else
          var v := ReadValue(k, Place(d, p.a + 1, p.writes), if there then m[key] else Null, !there, depth);
          r == if v.Done? then ReadMembers(k, v.p, m, if there then found + 1 else found, skip, depth) else v
  {
    hide Skip, Next, ReadValue, CString;
  }

  lemma {:induction false} MembersJudged(k: Call, members: Members, close: Close, p: Place, m: map<string, Json>,
                                         found: nat, skip: bool, depth: nat)
    requires p.d <= |k.desc|
    requires SpellsClose(close, '}', k.desc, SpellsMembers(members, k.desc, Some(p.d))).Some?
    ensures var all := found + Found(LookedUp(members, k.args, k.store, p.a), m);
      Says(ReadMembers(k, p, m, found, skip, depth),
           Then(JudgeMembers(members, k.args, k.store, m, skip, p.a, depth),
                Unless(skip || !close.Bang? || all == |m|, Incomplete)),
           SpellsClose(close, '}', k.desc, SpellsMembers(members, k.desc, Some(p.d))).value,
           p.a + ArityMembers(members, k.store))
    decreases members, 1
  {
    hide Skip, Next, ReadKey, ReadValue, ReadEnd, ReadMember, ReadMembers, Judge, Spells, SpellsClose, Arity, CString;
    hide Found, LookedUp, EatIf;
    match members
    case MNil =>
      EndJudged(k, p, close, '}', skip || found == |m|);
      MembersCases(k, p, m, found, skip, depth);
      NoMembers(k, p, m, skip);
    case MCons(optional, head, tail) =>
      SpelledMember(members, close, k.desc, p.d);
      KeyJudged(k, members, p, m, found, skip, depth);
      if IsKey(k.args, p.a) {
        var there := !skip && CString(k.args[p.a].key.value) in m;
        if skip || there || optional {
          MemberJudged(k, members, close, p, m, found, skip, depth);
        }
      }
  }

  /** If a value is in order, what comes after it decides. */
  lemma SaysThen(v: Read, w: Verdict, rest: Read, x: Verdict, y: Verdict, d': nat, a': nat, d: nat, a: nat)
    requires Says(v, w, d', a') && (v.Done? ==> Says(rest, Then(x, y), d, a))
    ensures Says(if v.Done? then rest else v, Then(Then(w, x), y), d, a)
  {
  }

  /** A member that is read, and the rest of its object. */
  lemma {:induction false} MemberJudged(k: Call, members: Members, close: Close, p: Place, m: map<string, Json>,
                                        found: nat, skip: bool, depth: nat)
    requires p.d < |k.desc| && members.MCons? && IsKey(k.args, p.a)
    requires SpellsClose(close, '}', k.desc, SpellsMembers(members, k.desc, Some(p.d))).Some?
    requires skip || CString(k.args[p.a].key.value) in m || members.optional
    ensures var all := found + Found(LookedUp(members, k.args, k.store, p.a), m);
      var there := !skip && CString(k.args[p.a].key.value) in m;
      var obj := if there then m[CString(k.args[p.a].key.value)] else Null;
      var tail := JudgeMembers(members.tail, k.args, k.store, m, skip, p.a + 1 + Arity(members.head, k.store), depth);
      Says(ReadMembers(k, p, m, found, skip, depth),
           Then(Then(Judge(members.head, k.args, k.store, obj, !there, p.a + 1, depth), tail),
                Unless(skip || !close.Bang? || all == |m|, Incomplete)),
           SpellsClose(close, '}', k.desc, SpellsMembers(members, k.desc, Some(p.d))).value,
           p.a + ArityMembers(members, k.store))
    decreases members, 0
  {
    hide Skip, Next, ReadKey, ReadValue, ReadEnd, ReadMember, ReadMembers, Judge, JudgeMembers, Spells, SpellsClose;
    hide Arity, CString, Found, LookedUp, EatIf, Then, Unless;
    SpelledMember(members, close, k.desc, p.d);
    KeyJudged(k, members, p, m, found, skip, depth);
    LookedUpFirst(members, k.args, k.store, p.a, m);
    var key := CString(k.args[p.a].key.value);
    var there := !skip && key in m;
    var q := Place(EatIf(k.desc, Some(Next(k.desc, p.d)), members.optional, '?').value, p.a + 1, p.writes);
    var obj := if there then m[key] else Null;
    var b := p.a + 1 + Arity(members.head, k.store);
    var found' := if there then found + 1 else found;
    ValueJudged(k, members.head, q, obj, !there, depth);
    var v := ReadValue(k, q, obj, !there, depth);
    var all := found + Found(LookedUp(members, k.args, k.store, p.a), m);
    var end := SpellsClose(close, '}', k.desc, SpellsMembers(members, k.desc, Some(p.d))).value;
    if v.Done? {
      ValueEnds(v, k, members.head, q, obj, !there, depth);
      MembersJudged(k, members.tail, close, v.p, m, found', skip, depth);
    }
    var rest := if v.Done? then ReadMembers(k, v.p, m, found', skip, depth) else v;
    SaysThen(v, Judge(members.head, k.args, k.store, obj, !there, p.a + 1, depth), rest,
             JudgeMembers(members.tail, k.args, k.store, m, skip, b, depth),
             Unless(skip || !close.Bang? || all == |m|, Incomplete), Spells(members.head, k.desc, Some(q.d)).value, b,
             end, p.a + ArityMembers(members, k.store));
  }

  lemma ValueEnds(v: Read, k: Call, f: Fmt, p: Place, obj: Json, skip: bool, depth: nat)
    requires p.d <= |k.desc| && v == ReadValue(k, p, obj, skip, depth) && v.Done?
    requires Spells(f, k.desc, Some(p.d)).Some?
    requires Says(v, Judge(f, k.args, k.store, obj, skip, p.a, depth), Spells(f, k.desc, Some(p.d)).value,
                  p.a + Arity(f, k.store))
    ensures v.p.d == Spells(f, k.desc, Some(p.d)).value && v.p.a == p.a + Arity(f, k.store)
  {
    hide ReadValue, Judge, Spells, Arity;
  }

  /** With a well-formed format, unpacking succeeds exactly if nothing is wrong, and fails with the first misfit. */
  lemma UnpackJudges(f: Fmt, desc: string, obj: Json, args: seq<Arg>, store: bool)
    requires IsFormat(f, desc)
    ensures var r := Meaning(obj, Some(desc), args, store);
      match Judge(f, args, store, obj, false, 0, 0)
      case Good => r.Unpacked?
      case Bad(code) => r.Refused? && r.code == code
      case Ugly => r == Undefined
  {
    hide Skip, ReadValue, Spells, Judge;
    ValueJudged(Call(desc, args, store), f, Place(Skip(desc, 0), 0, []), obj, false, 0);
  }

  // ---------------------------------------------------------------- the scalar specifiers

  /** A format of one specifier. */
  lemma OneSpecifier(c: char, obj: Json, args: seq<Arg>)
    requires Scalar(c)
    ensures var k := Call([c], args, true);
      Meaning(obj, Some([c]), args, true) == Finish(k, ReadScalar(k, Place(0, 0, []), obj, false))
  {
    assert Skip([c], 0) == 0;
  }

  /** What `c` stores through the pointer `p`: `v` if the tree has its type, and nothing otherwise. */
  predicate Stores(c: char, obj: Json, p: Arg, fits: bool, v: Value)
    requires !p.KeyArg?
  {
    Meaning(obj, Some([c]), [p], true)
    == if !fits then Refused(MissfitType, 0, [])
       else Unpacked(if p.cell.Some? then [Write(p.cell.value, v)] else [])
  }

  lemma StoresAre(c: char, obj: Json, p: Arg)
    requires Scalar(c) && c != 'n' && !p.KeyArg? && PointerFor(c, p)
    ensures HasType(c, obj) ==> Stores(c, obj, p, true, Stored(c, obj))
    ensures !HasType(c, obj) ==> Meaning(obj, Some([c]), [p], true) == Refused(MissfitType, 0, [])
  {
    hide Stored, HasType, PointerFor;
    OneSpecifier(c, obj, [p]);
    assert Next([c], 0) == 1;
    assert [] + WriteIf(false, p, if HasType(c, obj) then Stored(c, obj) else IntVal(0))
        == WriteIf(false, p, if HasType(c, obj) then Stored(c, obj) else IntVal(0));
  }

  /** Which trees each specifier accepts, and what it stores of them. */
  lemma SpecifiersStore(obj: Json, cell: Option<nat>)
    ensures Stores('s', obj, StrPtr(cell), obj.Str?, StrVal(if obj.Str? then obj.s else ""))
    ensures Stores('b', obj, IntPtr(cell), obj.Bool?, IntVal(if obj.Bool? && obj.b then 1 else 0))
    ensures Stores('i', obj, IntPtr(cell), obj.Int?,
                   IntVal(if !obj.Int? then 0 else if obj.n > 0x7fff_ffff then 0x7fff_ffff
                          else if obj.n < -0x8000_0000 then -0x8000_0000 else obj.n))
    ensures Stores('I', obj, Int64Ptr(cell), obj.Int?, Int64Val(if obj.Int? then obj.n else 0))
    ensures Stores('f', obj, DoublePtr(cell), obj.Double?, DoubleVal(if obj.Double? then obj.r else 0.0))
    ensures Stores('F', obj, DoublePtr(cell), obj.Double? || obj.Int?,
                   DoubleVal(if obj.Double? then obj.r else if obj.Int? then obj.n as real else 0.0))
    ensures Stores('o', obj, JsonPtr(cell), true, JsonVal(obj)) && Stores('O', obj, JsonPtr(cell), true, JsonVal(obj))
    ensures Meaning(obj, Some("n"), [], true) == if obj.Null? then Unpacked([]) else Refused(MissfitType, 0, [])
  {
    hide Meaning;
    StoresAre('s', obj, StrPtr(cell));
    StoresAre('b', obj, IntPtr(cell));
    StoresAre('i', obj, IntPtr(cell));
    StoresAre('I', obj, Int64Ptr(cell));
    StoresAre('f', obj, DoublePtr(cell));
    StoresAre('F', obj, DoublePtr(cell));
    StoresAre('o', obj, JsonPtr(cell));
    StoresAre('O', obj, JsonPtr(cell));
    NullSpecifier(obj);
  }

  lemma NullSpecifier(obj: Json)
    ensures Meaning(obj, Some("n"), [], true) == if obj.Null? then Unpacked([]) else Refused(MissfitType, 0, [])
  {
    OneSpecifier('n', obj, []);
    assert Next("n", 0) == 1;
  }

  /** A pointer of another type is undefined behaviour, whatever the tree. */
  lemma WrongPointers(obj: Json, p: Arg)
    ensures !p.StrPtr? ==> Meaning(obj, Some("s"), [p], true) == Undefined
    ensures !p.IntPtr? ==> Meaning(obj, Some("b"), [p], true) == Meaning(obj, Some("i"), [p], true) == Undefined
    ensures !p.Int64Ptr? ==> Meaning(obj, Some("I"), [p], true) == Undefined
    ensures !p.DoublePtr? ==> Meaning(obj, Some("f"), [p], true) == Meaning(obj, Some("F"), [p], true) == Undefined
    ensures !p.JsonPtr? ==> Meaning(obj, Some("o"), [p], true) == Meaning(obj, Some("O"), [p], true) == Undefined
  {
    hide Meaning, Stored;
    OneSpecifier('s', obj, [p]);
    OneSpecifier('b', obj, [p]);
    OneSpecifier('i', obj, [p]);
    OneSpecifier('I', obj, [p]);
    OneSpecifier('f', obj, [p]);
    OneSpecifier('F', obj, [p]);
    OneSpecifier('o', obj, [p]);
    OneSpecifier('O', obj, [p]);
  }
}
