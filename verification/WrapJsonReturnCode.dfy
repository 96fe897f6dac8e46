/** The 32-bit return code that carries an error code and a position, and the two accessors that take it apart. */
module WrapJsonReturnCode {
  import opened Options
  import opened WrapJsonBase
  import P = WrapJsonPack
  import U = WrapJsonUnpack

  /** The enumeration order of the error codes; 0 is success. */
  function Number(c: ErrorCode): nat {
    match c
    case NullObject => 1
    case Truncated => 2
    case InternalError => 3
    case OutOfMemory => 4
    case InvalidCharacter => 5
    case TooLong => 6
    case TooDeep => 7
    case NullSpec => 8
    case NullKey => 9
    case NullString => 10
    case OutOfRange => 11
    case Incomplete => 12
    case MissfitType => 13
    case KeyNotFound => 14
  }

  /** The cast of a wider integer to a 32-bit int. */
  function ToInt32(x: int): int32 {
    (x + 0x8000_0000) % 0x1_0000_0000 - 0x8000_0000
  }

  /** `-(code | (int)(pos << 4))`: the shifted position has its four low bits clear. */
  function Encode(code: ErrorCode, pos: nat): int {
    -(ToInt32(pos * 16) + Number(code))
  }

  function Magnitude(rc: int): int {
    if rc < 0 then -rc else rc
  }

  /** wrap_json_get_error_position: the shift to the right rounds down. */
  function Position(rc: int): int {
    Magnitude(rc) / 16 + 1
  }

  /** wrap_json_get_error_code: the four low bits. */
  function Code(rc: int): int {
    Magnitude(rc) % 16
  }

  lemma ShiftWraps(pos: nat)
    ensures var r := pos % 0x1000_0000;
      ToInt32(pos * 16) == 16 * if r < 0x800_0000 then r else r - 0x1000_0000
  {
    var q, r := pos / 0x1000_0000, pos % 0x1000_0000;
    assert pos * 16 == q * 0x1_0000_0000 + r * 16;
    var x := r * 16 + 0x8000_0000;
    assert (pos * 16 + 0x8000_0000) % 0x1_0000_0000 == x % 0x1_0000_0000;
  }

  /** The return code is an int, negative exactly when the shifted position has not become negative. */
  lemma EncodeFits(code: ErrorCode, pos: nat)
    ensures -0x8000_0000 <= Encode(code, pos) <= 0x7fff_ffff
    ensures Encode(code, pos) < 0 <==> pos % 0x1000_0000 < 0x800_0000
  {
    ShiftWraps(pos);
  }

  /** The position comes back, counted from 1, exactly if it is below 2^27. */
  lemma PositionComesBack(code: ErrorCode, pos: nat)
    ensures Position(Encode(code, pos)) == pos + 1 <==> pos < 0x800_0000
  {
    ShiftWraps(pos);
  }

  /** The code comes back unless the shifted position is negative; NullSpec is its own mirror image. */
  lemma CodeComesBack(code: ErrorCode, pos: nat)
    ensures Code(Encode(code, pos)) == Number(code) <==> pos % 0x1000_0000 < 0x800_0000 || code == NullSpec
  {
    ShiftWraps(pos);
    var v: int := ToInt32(pos * 16);
    var n: int := Number(code);
    if v < 0 {
      assert Magnitude(Encode(code, pos)) == -v - n == 16 * (-v / 16 - 1) + (16 - n);
    }
  }

  /** At positions below 2^27 no two errors share a return code, and none is 0. */
  lemma ReturnCodesDiffer(code: ErrorCode, pos: nat, code': ErrorCode, pos': nat)
    requires pos < 0x800_0000 && pos' < 0x800_0000
    ensures Encode(code, pos) != 0
    ensures Encode(code, pos) == Encode(code', pos') ==> code == code' && pos == pos'
  {
    PositionComesBack(code, pos);
    PositionComesBack(code', pos');
    CodeComesBack(code, pos);
    CodeComesBack(code', pos');
  }

  /** The return codes at the beginning of a format: the negated numbers, in the order of the enumeration. */
  lemma CodesAtStart()
    ensures [Encode(NullObject, 0), Encode(Truncated, 0), Encode(InternalError, 0), Encode(OutOfMemory, 0),
             Encode(InvalidCharacter, 0), Encode(TooLong, 0), Encode(TooDeep, 0), Encode(NullSpec, 0)]
         == [-1, -2, -3, -4, -5, -6, -7, -8]
    ensures [Encode(NullKey, 0), Encode(NullString, 0), Encode(OutOfRange, 0), Encode(Incomplete, 0),
             Encode(MissfitType, 0), Encode(KeyNotFound, 0)] == [-9, -10, -11, -12, -13, -14]
    ensures Encode(InvalidCharacter, 2) == -37
  {
  }

  // ---------------------------------------------------------------- no error lies beyond the format

  lemma {:induction false} PackTextFailsInside(k: P.Call, d: nat, a: nat, strs: seq<P.Fragment>, nullable: bool)
    requires d <= |k.desc| && |strs| < STRCOUNT
    ensures var r := P.ReadFragments(k, d, a, strs, nullable); r.Fail? ==> r.pos <= |k.desc|
    decreases |k.desc| - d
  {
    hide P.ReadFragment;
    var one := P.ReadFragment(k, d, a);
    if one.Done? && At(k.desc, one.d) == '+' && |strs| + 1 < STRCOUNT {
      PackTextFailsInside(k, Next(k.desc, one.d), one.a, strs + [one.value.0], nullable || one.value.1);
    }
  }

  lemma {:induction false} PackValueFailsInside(k: P.Call, d: nat, a: nat, depth: nat)
    requires d <= |k.desc|
    ensures var r := P.ReadValue(k, d, a, depth); r.Fail? ==> r.pos <= |k.desc|
    decreases |k.desc| - d, 0
  {
    hide Skip, P.ReadItems, P.ReadMembers, P.ReadFragments;
    if d < |k.desc| {
      var d1 := Next(k.desc, d);
      PackTextFailsInside(k, d1, a, [], false);
      PackItemsFailInside(k, d1, a, depth + 1, []);
      PackMembersFailInside(k, d1, a, depth + 1, map[]);
    }
  }

  lemma {:induction false} PackItemsFailInside(k: P.Call, d: nat, a: nat, depth: nat, items: seq<Json>)
    requires d <= |k.desc|
    ensures var r := P.ReadItems(k, d, a, depth, items); r.Fail? ==> r.pos <= |k.desc|
    decreases |k.desc| - d, 1
  {
    hide Skip, P.ReadValue;
    PackValueFailsInside(k, d, a, depth);
    var v := P.ReadValue(k, d, a, depth);
    if v.Done? {
      PackItemsFailInside(k, P.SkipStar(k, v.d), v.a, depth, P.AddItem(k, items, v.value, v.d));
    }
  }

  lemma {:induction false} PackMembersFailInside(k: P.Call, d: nat, a: nat, depth: nat, members: map<string, Json>)
    requires d <= |k.desc|
    ensures var r := P.ReadMembers(k, d, a, depth, members); r.Fail? ==> r.pos <= |k.desc|
    decreases |k.desc| - d, 1
  {
    hide Skip, P.ReadValue, P.ReadFragments;
    if At(k.desc, d) == 's' {
      PackTextFailsInside(k, Next(k.desc, d), a, [], false);
      var key := P.ReadText(k, Next(k.desc, d), a);
      if key.Done? && key.value.Str? {
        PackValueFailsInside(k, key.d, key.a, depth);
        var v := P.ReadValue(k, key.d, key.a, depth);
        if v.Done? {
          PackMembersFailInside(k, P.SkipStar(k, v.d), v.a, depth, P.AddMember(k, members, key.value.s, v.value, v.d));
        }
      }
    }
  }

  lemma {:induction false} UnpackValueFailsInside(k: U.Call, p: U.Place, obj: Json, skip: bool, depth: nat)
    requires p.d <= |k.desc|
    ensures var r := U.ReadValue(k, p, obj, skip, depth); r.Fail? ==> r.pos <= |k.desc|
    decreases |k.desc| - p.d, 0
  {
    hide Skip, U.ReadItems, U.ReadMembers;
    if p.d < |k.desc| {
      var q := p.(d := Next(k.desc, p.d));
      UnpackItemsFailInside(k, q, if obj.Arr? && !skip then obj.elems else [], 0, skip, depth + 1);
      UnpackMembersFailInside(k, q, if obj.Obj? && !skip then obj.members else map[], 0, skip, depth + 1);
    }
  }

  lemma {:induction false} UnpackItemsFailInside(k: U.Call, p: U.Place, elems: seq<Json>, index: nat, skip: bool,
                                                 depth: nat)
    requires p.d <= |k.desc|
    ensures var r := U.ReadItems(k, p, elems, index, skip, depth); r.Fail? ==> r.pos <= |k.desc|
    decreases |k.desc| - p.d, 2
  {
    hide Skip, U.ReadValue;
    var fetches := U.Fetches(k, p.d, skip);
    if U.Starts(At(k.desc, p.d)) && !(fetches && index >= |elems|) {
      var obj := if skip then Null else elems[index];
      UnpackValueFailsInside(k, p, obj, skip, depth);
      var v := U.ReadValue(k, p, obj, skip, depth);
      if v.Done? {
        UnpackItemsFailInside(k, v.p, elems, if fetches then index + 1 else index, skip, depth);
      }
    }
  }

  lemma {:induction false} UnpackMembersFailInside(k: U.Call, p: U.Place, members: map<string, Json>, found: nat,
                                                   skip: bool, depth: nat)
    requires p.d <= |k.desc|
    ensures var r := U.ReadMembers(k, p, members, found, skip, depth); r.Fail? ==> r.pos <= |k.desc|
    decreases |k.desc| - p.d, 1
  {
    hide Skip, U.ReadValue, CString;
    if At(k.desc, p.d) == 's' {
      var q := U.ReadKey(k, p);
      if q.Done? {
        var key := CString(k.args[p.a].key.value);
        var here := !skip && key in members;
        var obj := if here then members[key] else Null;
        UnpackValueFailsInside(k, q.p, obj, !here, depth);
        var v := U.ReadValue(k, q.p, obj, !here, depth);
        if v.Done? {
          UnpackMembersFailInside(k, v.p, members, if here then found + 1 else found, skip, depth);
        }
      }
    }
  }

  /** The return code is negative, and tells code and position. */
  predicate Tells(code: ErrorCode, pos: nat) {
    var rc := Encode(code, pos);
    -0x8000_0000 <= rc < 0 && Code(rc) == Number(code) && Position(rc) == pos + 1
  }

  lemma EarlyErrorsTell(code: ErrorCode, pos: nat)
    requires pos < 0x800_0000
    ensures Tells(code, pos)
  {
    EncodeFits(code, pos);
    PositionComesBack(code, pos);
    CodeComesBack(code, pos);
  }

  /** Every error of packing with a format shorter than 2^27 characters can be told from its return code. */
  lemma PackErrorsTell(desc: Option<string>, args: seq<P.Arg>)
    requires desc.Some? ==> |desc.value| < 0x800_0000
    ensures var r := P.Meaning(desc, args);
      r.Refused? ==> Tells(r.code, r.pos) && (desc.Some? ==> r.pos <= |desc.value|)
  {
    hide Tells, P.ReadValue;
    if desc.Some? {
      PackValueFailsInside(P.Call(desc.value, args), Skip(desc.value, 0), 0, 0);
    }
    var r := P.Meaning(desc, args);
    if r.Refused? {
      EarlyErrorsTell(r.code, r.pos);
    }
  }

  /** And so can every error of checking or unpacking. */
  lemma UnpackErrorsTell(obj: Json, desc: Option<string>, args: seq<U.Arg>, store: bool)
    requires desc.Some? ==> |desc.value| < 0x800_0000
    ensures var r := U.Meaning(obj, desc, args, store);
      r.Refused? ==> Tells(r.code, r.pos) && (desc.Some? ==> r.pos <= |desc.value|)
  {
    hide Tells, U.ReadValue;
    if desc.Some? {
      UnpackValueFailsInside(U.Call(desc.value, args, store), U.Place(Skip(desc.value, 0), 0, []), obj, false, 0);
    }
    var r := U.Meaning(obj, desc, args, store);
    if r.Refused? {
      EarlyErrorsTell(r.code, r.pos);
    }
  }

  // ---------------------------------------------------------------- how long a format may be

  /** If packing with this format fails, the return code tells how and where. */
  predicate PackTells(desc: string, args: seq<P.Arg>) {
    var r := P.Meaning(Some(desc), args);
    r.Refused? ==> Tells(r.code, r.pos)
  }

  predicate UnpackTells(obj: Json, desc: string, args: seq<U.Arg>, store: bool) {
    var r := U.Meaning(obj, Some(desc), args, store);
    r.Refused? ==> Tells(r.code, r.pos)
  }

  /** A format of nothing but blanks. */
  function Blanks(n: nat): string {
    seq(n, _ => ' ')
  }

  lemma {:induction false} BlanksAreSkipped(n: nat, d: nat)
    requires d <= n
    ensures Skip(Blanks(n), d) == n
    decreases n - d
  {
    if d < n {
      BlanksAreSkipped(n, d + 1);
    }
  }

  /** The return code tells every error of packing with every format of `n` characters exactly if `n` is below 2^27. */
  lemma PackFormatsTell(n: nat)
    ensures (forall desc: string, args :: |desc| == n ==> PackTells(desc, args)) <==> n < 0x800_0000
  {
    hide Tells, P.Meaning, Blanks;
    if n < 0x800_0000 {
      forall desc: string, args | |desc| == n
        ensures PackTells(desc, args)
      {
        PackErrorsTell(Some(desc), args);
      }
    } else {
      BlanksAreRefused(n);
      LateErrorsDoNotTell(Truncated, n);
      assert !PackTells(Blanks(n), []);
    }
  }

  /** And so it is for checking and unpacking. */
  lemma UnpackFormatsTell(n: nat)
    ensures (forall obj, desc: string, args, store :: |desc| == n ==> UnpackTells(obj, desc, args, store))
        <==> n < 0x800_0000
  {
    hide Tells, U.Meaning, Blanks;
    if n < 0x800_0000 {
      forall obj, desc: string, args, store | |desc| == n
        ensures UnpackTells(obj, desc, args, store)
      {
        UnpackErrorsTell(obj, Some(desc), args, store);
      }
    } else {
      BlanksAreRefused(n);
      LateErrorsDoNotTell(Truncated, n);
      assert !UnpackTells(Null, Blanks(n), [], true);
    }
  }

  lemma LateErrorsDoNotTell(code: ErrorCode, pos: nat)
    requires pos >= 0x800_0000
    ensures !Tells(code, pos)
  {
    PositionComesBack(code, pos);
  }

  lemma BlanksAreRefused(n: nat)
    ensures |Blanks(n)| == n && P.Meaning(Some(Blanks(n)), []) == P.Refused(Truncated, n)
    ensures U.Meaning(Null, Some(Blanks(n)), [], true) == U.Refused(Truncated, n, [])
  {
    hide Skip;
    BlanksAreSkipped(n, 0);
  }
}
