/** Laws of unpacking: absent values write nothing, strictness, and checking in lockstep with storing. */
module WrapJsonUnpackLaws {
  import opened Options
  import opened WrapJsonBase
  import opened WrapJsonUnpack
  import opened WrapJsonUnpackGrammar

  // ---------------------------------------------------------------- absent values

  /** The targets written when a piece of the format has been read, whether it succeeded or not. */
  function WritesOf(r: Read): seq<Write>
    requires !r.BadCall?
  {
    match r
    case Done(p) => p.writes
    case Fail(_, _, writes) => writes
  }

  /** No target inside the value of an absent optional key is written, even when the run fails there. */
  lemma {:induction false} AbsentWritesNothing(k: Call, p: Place, obj: Json, depth: nat)
    requires p.d <= |k.desc|
    ensures var r := ReadValue(k, p, obj, true, depth); r.BadCall? || WritesOf(r) == p.writes
    decreases |k.desc| - p.d, 0
  {
    hide Skip, Next, ReadItems, ReadMembers;
    var q := p.(d := Next(k.desc, p.d));
    match At(k.desc, p.d)
    case '[' => AbsentItems(k, q, [], 0, depth + 1);
    case '{' => AbsentMembers(k, q, map[], 0, depth + 1);
    case _ =>
  }

  lemma {:induction false} AbsentItems(k: Call, p: Place, elems: seq<Json>, index: nat, depth: nat)
    requires p.d <= |k.desc|
    ensures var r := ReadItems(k, p, elems, index, true, depth); r.BadCall? || WritesOf(r) == p.writes
    decreases |k.desc| - p.d, 1
  {
    hide Skip, Next, ReadValue;
    if Starts(At(k.desc, p.d)) {
      AbsentWritesNothing(k, p, Null, depth);
      var v := ReadValue(k, p, Null, true, depth);
      if v.Done? {
        AbsentItems(k, v.p, elems, index, depth);
      }
    }
  }

  lemma {:induction false} AbsentMembers(k: Call, p: Place, m: map<string, Json>, found: nat, depth: nat)
    requires p.d <= |k.desc|
    ensures var r := ReadMembers(k, p, m, found, true, depth); r.BadCall? || WritesOf(r) == p.writes
    decreases |k.desc| - p.d, 1
  {
    hide Skip, Next, ReadValue, CString;
    if At(k.desc, p.d) == 's' {
      var q := ReadKey(k, p);
      if q.Done? {
        AbsentWritesNothing(k, q.p, Null, depth);
        var v := ReadValue(k, q.p, Null, true, depth);
        if v.Done? {
          AbsentMembers(k, v.p, m, found, depth);
        }
      }
    }
  }

  // ---------------------------------------------------------------- strictness

  predicate Distinct(keys: seq<string>) {
    forall i, j :: 0 <= i < j < |keys| ==> keys[i] != keys[j]
  }

  function Names(keys: seq<string>): set<string> {
    set i | 0 <= i < |keys| :: keys[i]
  }

  lemma NamesCons(keys: seq<string>)
    requires keys != []
    ensures Names(keys) == {keys[0]} + Names(keys[1..])
  {
    forall key | key in Names(keys)
      ensures key in {keys[0]} + Names(keys[1..])
    {
      var i :| 0 <= i < |keys| && keys[i] == key;
      assert i > 0 ==> keys[1..][i - 1] == key;
    }
    forall key | key in Names(keys[1..])
      ensures key in Names(keys)
    {
      var i :| 0 <= i < |keys[1..]| && keys[1..][i] == key;
      assert keys[i + 1] == key;
    }
  }

  lemma OneMoreName(present: set<string>, names: set<string>, key: string)
    requires key !in names
    ensures |present * ({key} + names)| == (if key in present then 1 else 0) + |present * names|
  {
    if key in present {
      assert present * ({key} + names) == {key} + present * names;
    } else {
      assert present * ({key} + names) == present * names;
    }
  }

  /** With distinct keys the count of successful lookups is the number of members visited. */
  lemma {:induction false} FoundCountsMembers(keys: seq<string>, m: map<string, Json>)
    requires Distinct(keys)
    ensures Found(keys, m) == |m.Keys * Names(keys)|
  {
    if keys == [] {
      assert m.Keys * Names(keys) == {};
    } else {
      assert Distinct(keys[1..]) && keys[0] !in Names(keys[1..]);
      NamesCons(keys);
      hide Distinct, Names;
      FoundCountsMembers(keys[1..], m);
      OneMoreName(m.Keys, Names(keys[1..]), keys[0]);
    }
  }

  lemma SubsetOfSameSize(a: set<string>, b: set<string>)
    requires a <= b && |a| == |b|
    ensures a == b
  {
    assert b == a + (b - a);
  }

  /** `!` compares the count of successful lookups with the size of the object. That tells whether every
      member was visited, for all objects, exactly when the keys looked up are pairwise distinct. */
  lemma StrictnessNeedsDistinctKeys(keys: seq<string>)
    ensures Distinct(keys)
        <==> forall m: map<string, Json> :: Found(keys, m) == |m| <==> m.Keys <= Names(keys)
  {
    if Distinct(keys) {
      forall m: map<string, Json>
        ensures Found(keys, m) == |m| <==> m.Keys <= Names(keys)
      {
        FoundCountsMembers(keys, m);
        assert |m| == |m.Keys|;
        if m.Keys <= Names(keys) {
          assert m.Keys * Names(keys) == m.Keys;
        } else if Found(keys, m) == |m| {
          SubsetOfSameSize(m.Keys * Names(keys), m.Keys);
        }
      }
    } else {
      var i, j :| 0 <= i < j < |keys| && keys[i] == keys[j];
      var m: map<string, Json> := map[keys[i] := Null];
      FoundTwice(keys, i, j, m);
      assert m.Keys <= Names(keys);
      assert |m| == 1;
    }
  }

  lemma {:induction false} FoundTwice(keys: seq<string>, i: nat, j: nat, m: map<string, Json>)
    requires i < j < |keys| && keys[i] in m && keys[j] in m
    ensures Found(keys, m) >= 2
  {
    if i == 0 {
      FoundOnce(keys[1..], j - 1, m);
    } else {
      FoundTwice(keys[1..], i - 1, j - 1, m);
    }
  }

  lemma {:induction false} FoundOnce(keys: seq<string>, j: nat, m: map<string, Json>)
    requires j < |keys| && keys[j] in m
    ensures Found(keys, m) >= 1
  {
    if j > 0 {
      FoundOnce(keys[1..], j - 1, m);
    }
  }

  /** With distinct keys, a strict object format fits exactly the objects that the plain one fits and
      whose members are all looked up; a strict array format, those whose elements are all visited. */
  lemma StrictFits(items: Items, members: Members, args: seq<Arg>, store: bool, obj: Json, a: nat)
    ensures obj.Obj? && Distinct(LookedUp(members, args, store, a)) ==>
      Fits(FObj(members, Bang), args, store, obj, false, a)
      == if obj.members.Keys <= Names(LookedUp(members, args, store, a))
        then Fits(FObj(members, Plain), args, store, obj, false, a) else None
    ensures obj.Arr? ==>
      Fits(FArr(items, Bang), args, store, obj, false, a)
      == if Count(items) == |obj.elems| then Fits(FArr(items, Plain), args, store, obj, false, a) else None
  {
    StrictnessNeedsDistinctKeys(LookedUp(members, args, store, a));
  }

  /** The same rule seen from a caller: looking up one key twice passes as a complete visit of any object with two
      members. */
  lemma StrictRepeatedKey(m: map<string, Json>)
    requires "a" in m && m["a"].Int?
    ensures Meaning(Obj(m), Some("{sisi!}"), [KeyArg(Some("a")), KeyArg(Some("a"))], false)
         == if |m| == 2 then Unpacked([]) else Refused(Incomplete, 6, [])
  {
    var k := Call("{sisi!}", [KeyArg(Some("a")), KeyArg(Some("a"))], false);
    NothingToSkip();
    hide Skip, CString, ReadMembers, ReadValue;
    ReadBang(k, Place(5, 2, []), m, 2);
    ReadOneInt(k, Place(3, 1, []), m, 1);
    ReadOneInt(k, Place(1, 0, []), m, 0);
    ReadBrace(k, m);
  }

  lemma NothingToSkip()
    ensures forall d :: 0 <= d <= 7 ==> Skip("{sisi!}", d) == d
    ensures CString("a") == "a"
  {
    assert "a"[1..] == "";
  }

  /** A format that begins with an object. */
  lemma ReadBrace(k: Call, m: map<string, Json>)
    requires k.desc != "" && k.desc[0] == '{' && Skip(k.desc, 0) == 0 && Skip(k.desc, 1) == 1
    ensures Meaning(Obj(m), Some(k.desc), k.args, k.store)
         == Finish(k, ReadMembers(k, Place(1, 0, []), m, 0, false, 1))
  {
    hide Skip, ReadMembers, ReadItems, ReadScalar;
    assert Next(k.desc, 0) == 1;
  }

  /** The end of a strict object. */
  lemma ReadBang(k: Call, p: Place, m: map<string, Json>, found: nat)
    requires p.d + 2 == |k.desc| && k.desc[p.d] == '!' && k.desc[p.d + 1] == '}'
    ensures ReadMembers(k, p, m, found, false, 1)
         == if found == |m| then Done(p.(d := p.d + 2)) else Fail(Incomplete, p.d + 1, p.writes)
  {
    assert Next(k.desc, p.d) == p.d + 1 && Next(k.desc, p.d + 1) == p.d + 2;
  }

  /** Checking one member `si`. */
  lemma ReadOneInt(k: Call, p: Place, m: map<string, Json>, found: nat)
    requires p.d + 2 <= |k.desc| && k.desc[p.d] == 's' && k.desc[p.d + 1] == 'i' && !k.store && IsKey(k.args, p.a)
    requires Skip(k.desc, p.d + 1) == p.d + 1 && Skip(k.desc, p.d + 2) == p.d + 2
    requires var key := CString(k.args[p.a].key.value); key in m && m[key].Int?
    ensures ReadMembers(k, p, m, found, false, 1)
         == ReadMembers(k, Place(p.d + 2, p.a + 1, p.writes), m, found + 1, false, 1)
  {
    hide Skip, CString;
    var obj := m[CString(k.args[p.a].key.value)];
    assert p.writes + [] == p.writes;
    assert ReadValue(k, Place(p.d + 1, p.a + 1, p.writes), obj, false, 1) == Done(Place(p.d + 2, p.a + 1, p.writes));
  }

  /** An object whose only member is looked up twice is refused, and an object with a member that is never visited
      is accepted. */
  lemma StrictGoesWrong()
    ensures Meaning(Obj(map["a" := Int(1)]), Some("{sisi!}"), [KeyArg(Some("a")), KeyArg(Some("a"))], false)
         == Refused(Incomplete, 6, [])
    ensures var twice := [KeyArg(Some("a")), KeyArg(Some("a"))];
      Meaning(Obj(map["a" := Int(1), "b" := Int(2)]), Some("{sisi!}"), twice, false) == Unpacked([])
  {
    hide Meaning;
    StrictRepeatedKey(map["a" := Int(1)]);
    var two: map<string, Json> := map["a" := Int(1), "b" := Int(2)];
    assert two.Keys == {"a", "b"} && "a" != "b";
    assert |two.Keys| == 2;
    StrictRepeatedKey(two);
  }

  // ---------------------------------------------------------------- checking and storing in lockstep

  /** The arguments a check takes: the keys alone. */
  function KeysOf(args: seq<Arg>): seq<Arg> {
    if args == [] then []
    else (if args[0].KeyArg? then [args[0]] else []) + KeysOf(args[1..])
  }

  /** How many keys stand before argument `a`. */
  function KeysBefore(args: seq<Arg>, a: nat): nat {
    if args == [] || a == 0 then 0
    else (if args[0].KeyArg? then 1 else 0) + KeysBefore(args[1..], a - 1)
  }

  lemma {:induction false} KeyMoves(args: seq<Arg>, a: nat)
    requires a < |args|
    ensures KeysBefore(args, a + 1) == KeysBefore(args, a) + if args[a].KeyArg? then 1 else 0
    ensures args[a].KeyArg? ==> KeysBefore(args, a) < |KeysOf(args)| && KeysOf(args)[KeysBefore(args, a)] == args[a]
  {
    if a > 0 {
      KeyMoves(args[1..], a - 1);
    }
  }

  /** The place a check has reached when the storing run has reached `p`. */
  function Checked(k: Call, p: Place): Place {
    Place(p.d, KeysBefore(k.args, p.a), [])
  }

  function CheckCall(k: Call): Call {
    Call(k.desc, KeysOf(k.args), false)
  }

  /** A storing run's outcome `r` against the check's outcome `c`: the same code at the same position. */
  predicate InStep(k: Call, r: Read, c: Read) {
    match r
    case BadCall => true
    case Fail(code, pos, _) => c == Fail(code, pos, [])
    case Done(p) => c == Done(Checked(k, p))
  }

  lemma ScalarInStep(k: Call, p: Place, obj: Json, skip: bool)
    requires k.store && p.d < |k.desc| && Scalar(At(k.desc, p.d))
    ensures InStep(k, ReadScalar(k, p, obj, skip), ReadScalar(CheckCall(k), Checked(k, p), obj, skip))
  {
    hide Skip, Next, KeysBefore, KeysOf, HasType, Stored, PointerFor, WriteIf;
    if p.a < |k.args| {
      KeyMoves(k.args, p.a);
      PointerIsNoKey(At(k.desc, p.d), k.args[p.a]);
    }
    if p.a + 1 < |k.args| {
      KeyMoves(k.args, p.a + 1);
    }
  }

  lemma PointerIsNoKey(c: char, p: Arg)
    ensures PointerFor(c, p) ==> !p.KeyArg?
  {
  }

  /** Checking and storing read every value in lockstep. */
  lemma {:induction false} ValueInStep(k: Call, p: Place, obj: Json, skip: bool, depth: nat)
    requires k.store && p.d <= |k.desc|
    ensures InStep(k, ReadValue(k, p, obj, skip, depth), ReadValue(CheckCall(k), Checked(k, p), obj, skip, depth))
    decreases |k.desc| - p.d, 0
  {
    hide Skip, Next, ReadScalar, ReadItems, ReadMembers, KeysBefore, KeysOf;
    var q := p.(d := Next(k.desc, p.d));
    match At(k.desc, p.d)
    case '[' =>
      if skip || obj.Arr? {
        ItemsInStep(k, q, if skip then [] else obj.elems, 0, skip, depth + 1);
      }
    case '{' =>
      if skip || obj.Obj? {
        MembersInStep(k, q, if skip then map[] else obj.members, 0, skip, depth + 1);
      }
    case _ =>
      if Scalar(At(k.desc, p.d)) {
        ScalarInStep(k, p, obj, skip);
      }
  }

  lemma {:induction false} ItemsInStep(k: Call, p: Place, elems: seq<Json>, index: nat, skip: bool, depth: nat)
    requires k.store && p.d <= |k.desc|
    ensures InStep(k, ReadItems(k, p, elems, index, skip, depth),
      ReadItems(CheckCall(k), Checked(k, p), elems, index, skip, depth))
    decreases |k.desc| - p.d, 1
  {
    hide Skip, Next, ReadValue, KeysBefore, KeysOf;
    if Starts(At(k.desc, p.d)) && (skip || index < |elems|) {
      var obj := if skip then Null else elems[index];
      ValueInStep(k, p, obj, skip, depth);
      var v := ReadValue(k, p, obj, skip, depth);
      if v.Done? {
        ItemsInStep(k, v.p, elems, if skip then index else index + 1, skip, depth);
      }
    }
  }

  lemma {:induction false} MembersInStep(k: Call, p: Place, m: map<string, Json>, found: nat, skip: bool, depth: nat)
    requires k.store && p.d <= |k.desc|
    ensures InStep(k, ReadMembers(k, p, m, found, skip, depth),
      ReadMembers(CheckCall(k), Checked(k, p), m, found, skip, depth))
    decreases |k.desc| - p.d, 1
  {
    hide Skip, Next, ReadValue, CString, KeysBefore, KeysOf;
    if p.a < |k.args| {
      KeyMoves(k.args, p.a);
    }
    if At(k.desc, p.d) == 's' && ReadKey(k, p).Done? {
      var q := ReadKey(k, p).p;
      var key := CString(k.args[p.a].key.value);
      var there := !skip && key in m;
      if skip || there || At(k.desc, Next(k.desc, p.d)) == '?' {
        var obj := if there then m[key] else Null;
        ValueInStep(k, q, obj, !there, depth);
        var v := ReadValue(k, q, obj, !there, depth);
        if v.Done? {
          MembersInStep(k, v.p, m, if there then found + 1 else found, skip, depth);
        }
      }
    }
  }

  /** wrap_json_check answers what wrap_json_unpack answers, given the same keys: success, or the same
      error at the same position. */
  lemma CheckAnswersLikeUnpack(obj: Json, desc: Option<string>, args: seq<Arg>)
    ensures match Meaning(obj, desc, args, true)
      case Undefined => true
      case Unpacked(_) => Meaning(obj, desc, KeysOf(args), false) == Unpacked([])
      case Refused(code, pos, _) => Meaning(obj, desc, KeysOf(args), false) == Refused(code, pos, [])
  {
    if desc.Some? {
      hide Skip, ReadValue, KeysOf;
      var k := Call(desc.value, args, true);
      ValueInStep(k, Place(Skip(desc.value, 0), 0, []), obj, false, 0);
    }
  }
}
