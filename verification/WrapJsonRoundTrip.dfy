/** Unpacking undoes packing: what wrap_json_vpack builds from a format and its arguments,
    vunpack takes apart with the same format into the same values. */
module WrapJsonRoundTrip {
  import opened Options
  import opened WrapJsonBase
  import P = WrapJsonPack
  import PG = WrapJsonPackGrammar
  import U = WrapJsonUnpack
  import UG = WrapJsonUnpackGrammar
  import L = WrapJsonUnpackLaws
  import One = WrapJsonUnambiguous

  // ---------------------------------------------------------------- the formats both interpreters know

  /** A string of one fragment, as a value: its `s` may be followed by `%` alone. */
  predicate SharedText(t: PG.Text) {
    t.Piece? && !t.frag.pre && !t.frag.post && !t.frag.size.Hash?
  }

  /** A key is `s` or `s?`. */
  predicate SharedKey(t: PG.Text) {
    t.Piece? && t.frag.size.Whole? && !(t.frag.pre && t.frag.post)
  }

  /** The formats that are read back by position: as packing formats have `*`, unpacking formats have optional keys,
      so a member may have a `*`, but an item may not. */
  predicate Dual(f: PG.Fmt) {
    match f
    case FText(t) => SharedText(t)
    case FAny(_, question) => !question
    case FArr(items) => DualItems(items)
    case FObj(members) => DualMembers(members)
    case _ => true
  }

  predicate DualItems(items: PG.Items) {
    items.ICons? ==> !items.star && Dual(items.head) && DualItems(items.tail)
  }

  predicate DualMembers(members: PG.Members) {
    members.MCons? ==> SharedKey(members.key) && Dual(members.head) && DualMembers(members.tail)
  }

  /** The formats that are the same string for both interpreters have no `*` at all. */
  predicate Shared(f: PG.Fmt) {
    match f
    case FText(t) => SharedText(t)
    case FAny(_, question) => !question
    case FArr(items) => SharedItems(items)
    case FObj(members) => SharedMembers(members)
    case _ => true
  }

  predicate SharedItems(items: PG.Items) {
    items.ICons? ==> !items.star && Shared(items.head) && SharedItems(items.tail)
  }

  predicate SharedMembers(members: PG.Members) {
    members.MCons? ==> !members.star && SharedKey(members.key) && Shared(members.head) && SharedMembers(members.tail)
  }

  lemma {:induction false} SharedIsDual(f: PG.Fmt)
    requires Shared(f)
    ensures Dual(f)
  {
    match f
    case FArr(items) => SharedItemsAreDual(items);
    case FObj(members) => SharedMembersAreDual(members);
    case _ =>
  }

  lemma {:induction false} SharedItemsAreDual(items: PG.Items)
    requires SharedItems(items)
    ensures DualItems(items)
  {
    if items.ICons? {
      SharedIsDual(items.head);
      SharedItemsAreDual(items.tail);
    }
  }

  lemma {:induction false} SharedMembersAreDual(members: PG.Members)
    requires SharedMembers(members)
    ensures DualMembers(members) && Unstarred(members)
  {
    if members.MCons? {
      SharedIsDual(members.head);
      SharedMembersAreDual(members.tail);
    }
  }

  /** No member of this object has a `*`. */
  predicate Unstarred(members: PG.Members) {
    members.MCons? ==> !members.star && Unstarred(members.tail)
  }

  /** The dual format in the unpacking grammar, each container ending with `close`. */
  function ToUnpack(f: PG.Fmt, close: UG.Close): UG.Fmt {
    match f
    case FText(t) => UG.FLeaf('s', t.frag.size.Percent?)
    case FNull => UG.FLeaf('n', false)
    case FBool => UG.FLeaf('b', false)
    case FInt => UG.FLeaf('i', false)
    case FInt64 => UG.FLeaf('I', false)
    case FDouble => UG.FLeaf('f', false)
    case FAny(own, _) => UG.FLeaf(if own then 'O' else 'o', false)
    case FArr(items) => UG.FArr(ToItems(items, close), close)
    case FObj(members) => UG.FObj(ToMembers(members, close), close)
  }

  function ToItems(items: PG.Items, close: UG.Close): UG.Items {
    match items
    case INil => UG.INil
    case ICons(head, _, tail) => UG.ICons(ToUnpack(head, close), ToItems(tail, close))
  }

  function ToMembers(members: PG.Members, close: UG.Close): UG.Members {
    match members
    case MNil => UG.MNil
    case MCons(key, head, star, tail) =>
      UG.MCons(key.frag.pre || key.frag.post || star, ToUnpack(head, close), ToMembers(tail, close))
  }

  // ---------------------------------------------------------------- arguments that mirror each other

  /** The pointer argument `p`, if it is not NULL, receives `v`. */
  function Receives(p: U.Arg, v: U.Value): seq<U.Write>
    requires !p.KeyArg?
  {
    U.WriteIf(false, p, v)
  }

  function Width(f: PG.Fmt): nat {
    UG.Arity(ToUnpack(f, UG.Plain), true)
  }

  /** Argument for argument, `us` has a pointer of the right type where `ps` has a value, and the same
      string where `ps` has a key; the first argument of `f` is at `a`. */
  predicate Mirrors(f: PG.Fmt, ps: seq<P.Arg>, us: seq<U.Arg>, a: nat) {
    match f
    case FText(t) => a < |us| && us[a].StrPtr? && (t.frag.size.Percent? ==> a + 1 < |us| && us[a + 1].SizePtr?)
    case FNull => true
    case FBool => a < |us| && us[a].IntPtr?
    case FInt => a < |us| && us[a].IntPtr?
    case FInt64 => a < |us| && us[a].Int64Ptr?
    case FDouble => a < |us| && us[a].DoublePtr?
    case FAny(_, _) => a < |us| && us[a].JsonPtr?
    case FArr(items) => MirrorsItems(items, ps, us, a)
    case FObj(members) => MirrorsMembers(members, ps, us, a)
  }

  predicate MirrorsItems(items: PG.Items, ps: seq<P.Arg>, us: seq<U.Arg>, a: nat) {
    items.ICons? ==> Mirrors(items.head, ps, us, a) && MirrorsItems(items.tail, ps, us, a + Width(items.head))
  }

  /** The keys of one object are pairwise distinct as well. */
  predicate MirrorsMembers(members: PG.Members, ps: seq<P.Arg>, us: seq<U.Arg>, a: nat) {
    members.MCons? ==>
      && a < |us| && a < |ps| && ps[a].StrArg? && us[a] == U.KeyArg(ps[a].text)
      && Mirrors(members.head, ps, us, a + 1)
      && MirrorsMembers(members.tail, ps, us, a + 1 + Width(members.head))
      && (ps[a].text.Some? ==> CString(ps[a].text.value) !in KeyNames(members.tail, ps, a + 1 + Width(members.head)))
  }

  /** The keys of an object format, as C strings. */
  function KeyNames(members: PG.Members, ps: seq<P.Arg>, a: nat): set<string> {
    match members
    case MNil => {}
    case MCons(_, head, _, tail) =>
      (if a < |ps| && ps[a].StrArg? && ps[a].text.Some? then {CString(ps[a].text.value)} else {})
        + KeyNames(tail, ps, a + 1 + Width(head))
  }

  /** The arguments of `f` are NULL, or there are none, so that a `*` after it leaves it out. */
  predicate IsNothing(f: PG.Fmt, ps: seq<P.Arg>, a: nat) {
    match f
    case FText(_) => a < |ps| && ps[a].StrArg? && ps[a].text.None?
    case FNull => true
    case FAny(_, _) => a < |ps| && ps[a].JsonArg? && ps[a].json == Null
    case FArr(items) => items.INil?
    case FObj(members) => AllNothing(members, ps, a)
    case _ => false
  }

  predicate AllNothing(members: PG.Members, ps: seq<P.Arg>, a: nat) {
    members.MCons? ==>
      && members.star && IsNothing(members.head, ps, a + 1)
      && AllNothing(members.tail, ps, a + 1 + Width(members.head))
  }

  /** The packed arguments, each at the target that mirrors it: booleans as 0 or 1, strings as packed.
      Nothing is stored for a member that was left out. */
  function Restored(f: PG.Fmt, ps: seq<P.Arg>, us: seq<U.Arg>, a: nat): seq<U.Write>
    requires Mirrors(f, ps, us, a)
  {
    match f
    case FText(t) =>
      if !(a < |ps| && ps[a].StrArg? && ps[a].text.Some?) then []
      else if t.frag.size.Percent? then
        if a + 1 < |ps| && ps[a + 1].SizeArg? && ps[a + 1].size <= |ps[a].text.value| then
          Receives(us[a], U.StrVal(ps[a].text.value[..ps[a + 1].size])) + Receives(us[a + 1], U.SizeVal(ps[a + 1].size))
        else []
      else Receives(us[a], U.StrVal(CString(ps[a].text.value)))
    case FNull => []
    case FBool => if a < |ps| && ps[a].IntArg? then Receives(us[a], U.IntVal(if ps[a].i != 0 then 1 else 0)) else []
    case FInt => if a < |ps| && ps[a].IntArg? then Receives(us[a], U.IntVal(ps[a].i)) else []
    case FInt64 => if a < |ps| && ps[a].Int64Arg? then Receives(us[a], U.Int64Val(ps[a].l)) else []
    case FDouble => if a < |ps| && ps[a].DoubleArg? then Receives(us[a], U.DoubleVal(ps[a].r)) else []
    case FAny(_, _) => if a < |ps| && ps[a].JsonArg? then Receives(us[a], U.JsonVal(ps[a].json)) else []
    case FArr(items) => RestoredItems(items, ps, us, a)
    case FObj(members) => RestoredMembers(members, ps, us, a)
  }

  function RestoredItems(items: PG.Items, ps: seq<P.Arg>, us: seq<U.Arg>, a: nat): seq<U.Write>
    requires MirrorsItems(items, ps, us, a)
  {
    match items
    case INil => []
    case ICons(head, _, tail) => Restored(head, ps, us, a) + RestoredItems(tail, ps, us, a + Width(head))
  }

  function RestoredMembers(members: PG.Members, ps: seq<P.Arg>, us: seq<U.Arg>, a: nat): seq<U.Write>
    requires MirrorsMembers(members, ps, us, a)
  {
    match members
    case MNil => []
    case MCons(_, head, star, tail) =>
      (if star && IsNothing(head, ps, a + 1) then [] else Restored(head, ps, us, a + 1))
      + RestoredMembers(tail, ps, us, a + 1 + Width(head))
  }

  // ---------------------------------------------------------------- sizes agree

  lemma {:induction false} WidthAnyClose(f: PG.Fmt, close: UG.Close)
    ensures UG.Arity(ToUnpack(f, close), true) == Width(f)
  {
    match f
    case FArr(items) => WidthItems(items, close);
    case FObj(members) => WidthMembers(members, close);
    case _ =>
  }

  lemma {:induction false} WidthItems(items: PG.Items, close: UG.Close)
    ensures UG.ArityItems(ToItems(items, close), true) == UG.ArityItems(ToItems(items, UG.Plain), true)
  {
    if items.ICons? {
      WidthAnyClose(items.head, close);
      WidthItems(items.tail, close);
    }
  }

  lemma {:induction false} WidthMembers(members: PG.Members, close: UG.Close)
    ensures UG.ArityMembers(ToMembers(members, close), true) == UG.ArityMembers(ToMembers(members, UG.Plain), true)
  {
    if members.MCons? {
      WidthAnyClose(members.head, close);
      WidthMembers(members.tail, close);
    }
  }

  // ---------------------------------------------------------------- the packed tree fits

  /** A string packed from one fragment is that fragment. */
  lemma OneFragment(t: PG.Text, ps: seq<P.Arg>, a: nat)
    requires t.Piece? && !t.frag.size.Hash? && PG.TextValue(t, false, ps, a).Some?
    requires PG.TextValue(t, false, ps, a).value.0.Str? || !(t.frag.pre || t.frag.post)
    ensures a < |ps| && ps[a].StrArg? && ps[a].text.Some?
    ensures t.frag.size.Whole? ==> PG.TextValue(t, false, ps, a) == Some((Str(CString(ps[a].text.value)), a + 1))
    ensures t.frag.size.Percent? ==>
      && a + 1 < |ps| && ps[a + 1].SizeArg? && ps[a + 1].size <= |ps[a].text.value|
      && PG.TextValue(t, false, ps, a) == Some((Str(ps[a].text.value[..ps[a + 1].size]), a + 2))
  {
    hide CString;
    var fr := PG.DenoteFrag(t.frag, ps, a).value.0;
    assert P.NotNull([fr]) ==> fr.text.Some?;
    if fr.text.Some? {
      assert [fr][0].text.Some?;
      assert P.AllReadable([fr]) ==> P.Readable([fr][0]);
      if P.Readable(fr) {
        assert [fr][1..] == [];
        assert P.Concat([fr]) == P.Bytes(fr) + "" == P.Bytes(fr);
      }
      var v := ps[a].text.value;
      assert v[..|CString(v)|] == CString(v);
    }
  }

  /** What a `*` after a string does: it allows NULL, and nothing else. */
  lemma StarText(t: PG.Text, ps: seq<P.Arg>, a: nat)
    requires SharedText(t) && PG.TextValue(t, true, ps, a).Some?
    ensures a < |ps| && ps[a].StrArg?
    ensures PG.TextValue(t, true, ps, a).value.1 == a + if t.frag.size.Percent? then 2 else 1
    ensures ps[a].text.None? ==> PG.TextValue(t, true, ps, a).value.0 == Null
    ensures ps[a].text.Some? ==> PG.TextValue(t, true, ps, a) == PG.TextValue(t, false, ps, a)
    ensures ps[a].text.Some? ==> PG.TextValue(t, true, ps, a).value.0.Str?
  {
    hide CString, P.Concat, P.AllReadable;
    var fr := PG.DenoteFrag(t.frag, ps, a).value.0;
    assert PG.DenoteText(t, ps, a).value.0 == [fr] && [fr][0] == fr;
  }

  /** Packing takes as many arguments as unpacking. A `*` makes a value null exactly when there is nothing to pack, and
      makes no difference otherwise. */
  lemma {:induction false} DenoteWidth(f: PG.Fmt, star: bool, ps: seq<P.Arg>, a: nat)
    requires Dual(f) && PG.Denote(f, star, ps, a).Some?
    ensures PG.Denote(f, star, ps, a).value.1 == a + Width(f)
    ensures star ==> (PG.Denote(f, star, ps, a).value.0 == Null <==> IsNothing(f, ps, a))
    ensures star && !IsNothing(f, ps, a) ==> PG.Denote(f, false, ps, a) == PG.Denote(f, true, ps, a)
    decreases f
  {
    hide PG.TextValue;
    match f
    case FText(t) => if star { StarText(t, ps, a); } else { OneFragment(t, ps, a); }
    case FArr(items) => DenoteItemsWidth(items, ps, a);
    case FObj(members) => DenoteMembersWidth(members, ps, a);
    case _ =>
  }

  lemma {:induction false} DenoteItemsWidth(items: PG.Items, ps: seq<P.Arg>, a: nat)
    requires DualItems(items) && PG.DenoteItems(items, ps, a).Some?
    ensures PG.DenoteItems(items, ps, a).value.1 == a + UG.ArityItems(ToItems(items, UG.Plain), true)
    ensures PG.DenoteItems(items, ps, a).value.0 == [] <==> items.INil?
    decreases items
  {
    hide PG.Denote, UG.Arity, Dual, IsNothing;
    if items.ICons? {
      DenoteWidth(items.head, false, ps, a);
      DenoteItemsWidth(items.tail, ps, a + Width(items.head));
    }
  }

  lemma {:induction false} DenoteMembersWidth(members: PG.Members, ps: seq<P.Arg>, a: nat)
    requires DualMembers(members) && PG.DenoteMembers(members, ps, a).Some?
    ensures PG.DenoteMembers(members, ps, a).value.1 == a + UG.ArityMembers(ToMembers(members, UG.Plain), true)
    ensures PG.DenoteMembers(members, ps, a).value.0 == map[] <==> AllNothing(members, ps, a)
    decreases members
  {
    hide PG.Denote, UG.Arity, Dual, PG.TextValue, CString, IsNothing;
    if members.MCons? {
      OneFragment(members.key, ps, a);
      DenoteWidth(members.head, members.star, ps, a + 1);
      DenoteMembersWidth(members.tail, ps, a + 1 + Width(members.head));
      var v := PG.Denote(members.head, members.star, ps, a + 1).value;
      var rest := PG.DenoteMembers(members.tail, ps, v.1).value.0;
      var key := CString(PG.TextValue(members.key, false, ps, a).value.0.s);
      assert key in map[key := v.0] + rest;
      assert map[] + rest == rest;
    }
  }

  /** The absent value of an optional key reads nothing and stores nothing. */
  lemma {:induction false} AbsentFits(f: PG.Fmt, star: bool, close: UG.Close, ps: seq<P.Arg>, us: seq<U.Arg>, a: nat)
    requires Dual(f) && PG.Denote(f, star, ps, a).Some? && Mirrors(f, ps, us, a)
    ensures UG.Fits(ToUnpack(f, close), us, true, Null, true, a) == Some([])
    decreases f
  {
    hide PG.TextValue;
    var none: seq<U.Write> := [];
    assert none + none == none;
    match f
    case FArr(items) => AbsentItemsFit(items, close, ps, us, a);
    case FObj(members) => AbsentMembersFit(members, close, ps, us, a);
    case _ =>
  }

  lemma {:induction false} AbsentItemsFit(items: PG.Items, close: UG.Close, ps: seq<P.Arg>, us: seq<U.Arg>, a: nat)
    requires DualItems(items) && PG.DenoteItems(items, ps, a).Some? && MirrorsItems(items, ps, us, a)
    ensures UG.FitsItems(ToItems(items, close), us, true, [], true, a) == Some([])
    decreases items
  {
    hide PG.Denote, UG.Fits, UG.Arity, Mirrors, Dual, IsNothing;
    var none: seq<U.Write> := [];
    assert none + none == none;
    if items.ICons? {
      DenoteWidth(items.head, false, ps, a);
      WidthAnyClose(items.head, close);
      AbsentFits(items.head, false, close, ps, us, a);
      AbsentItemsFit(items.tail, close, ps, us, a + Width(items.head));
    }
  }

  lemma {:induction false} AbsentMembersFit(members: PG.Members, close: UG.Close, ps: seq<P.Arg>, us: seq<U.Arg>,
                                            a: nat)
    requires DualMembers(members) && PG.DenoteMembers(members, ps, a).Some? && MirrorsMembers(members, ps, us, a)
    ensures UG.FitsMembers(ToMembers(members, close), us, true, map[], true, a) == Some([])
    decreases members
  {
    hide PG.Denote, PG.DenoteMembers, UG.Fits, UG.Arity, Mirrors, Dual, CString, PG.TextValue, KeyNames, IsNothing;
    var none: seq<U.Write> := [];
    assert none + none == none;
    if members.MCons? {
      var v := FirstMember(members, ps, us, a);
      WidthAnyClose(members.head, close);
      AbsentFits(members.head, members.star, close, ps, us, a + 1);
      AbsentMembersFit(members.tail, close, ps, us, v.1);
      UG.FitsFirst(ToMembers(members, close), us, true, map[], true, a);
    }
  }

  /** A packed value that is no container fits. */
  lemma PackedLeafFits(f: PG.Fmt, close: UG.Close, ps: seq<P.Arg>, us: seq<U.Arg>, a: nat)
    requires Dual(f) && PG.Denote(f, false, ps, a).Some? && Mirrors(f, ps, us, a) && !f.FArr? && !f.FObj?
    ensures var (j, a') := PG.Denote(f, false, ps, a).value;
      a' == a + Width(f) && UG.Fits(ToUnpack(f, close), us, true, j, false, a) == Some(Restored(f, ps, us, a))
  {
    if f.FText? {
      hide CString;
      OneFragment(f.text, ps, a);
    }
  }

  lemma {:induction false} PackedFits(f: PG.Fmt, close: UG.Close, ps: seq<P.Arg>, us: seq<U.Arg>, a: nat)
    requires Dual(f) && PG.Denote(f, false, ps, a).Some? && Mirrors(f, ps, us, a)
    ensures var (j, a') := PG.Denote(f, false, ps, a).value;
      a' == a + Width(f) && UG.Fits(ToUnpack(f, close), us, true, j, false, a) == Some(Restored(f, ps, us, a))
    decreases f
  {
    match f
    case FArr(items) =>
      hide PG.DenoteItems, UG.FitsItems, RestoredItems, UG.ArityItems;
      PackedItemsFit(items, close, ps, us, a);
    case FObj(members) =>
      hide PG.DenoteMembers, UG.FitsMembers, RestoredMembers, UG.ArityMembers, UG.LookedUp, UG.Found;
      var m := PG.DenoteMembers(members, ps, a).value.0;
      PackedMembersFit(members, close, ps, us, a, m);
      KeysAgree(members, close, ps, us, a);
      DenoteMembersWidth(members, ps, a);
      L.StrictnessNeedsDistinctKeys(UG.LookedUp(ToMembers(members, close), us, true, a));
    case _ =>
      PackedLeafFits(f, close, ps, us, a);
  }

  lemma {:induction false} PackedItemsFit(items: PG.Items, close: UG.Close, ps: seq<P.Arg>, us: seq<U.Arg>, a: nat)
    requires DualItems(items) && PG.DenoteItems(items, ps, a).Some? && MirrorsItems(items, ps, us, a)
    ensures var (es, a') := PG.DenoteItems(items, ps, a).value;
      && a' == a + UG.ArityItems(ToItems(items, UG.Plain), true) && UG.Count(ToItems(items, close)) == |es|
      && UG.FitsItems(ToItems(items, close), us, true, es, false, a) == Some(RestoredItems(items, ps, us, a))
    decreases items
  {
    hide PG.Denote, UG.Fits, Restored, UG.Arity, Mirrors, Dual;
    if items.ICons? {
      PackedFits(items.head, close, ps, us, a);
      WidthAnyClose(items.head, close);
      PackedItemsFit(items.tail, close, ps, us, a + Width(items.head));
      var v := PG.Denote(items.head, false, ps, a).value;
      var rest := PG.DenoteItems(items.tail, ps, v.1).value.0;
      assert ([v.0] + rest)[1..] == rest;
    }
  }

  /** The keys looked up are distinct, and they are the keys packed, apart from those left out by a `*`. */
  lemma {:induction false} KeysAgree(members: PG.Members, close: UG.Close, ps: seq<P.Arg>, us: seq<U.Arg>, a: nat)
    requires DualMembers(members) && PG.DenoteMembers(members, ps, a).Some? && MirrorsMembers(members, ps, us, a)
    ensures var own := PG.DenoteMembers(members, ps, a).value.0;
      var keys := UG.LookedUp(ToMembers(members, close), us, true, a);
      && own.Keys <= KeyNames(members, ps, a) == L.Names(keys) && L.Distinct(keys)
      && (Unstarred(members) ==> own.Keys == KeyNames(members, ps, a))
    decreases members
  {
    hide PG.Denote, PG.DenoteMembers, UG.Arity, UG.LookedUp, KeyNames, Mirrors, Dual, CString;
    hide PG.TextValue, Width, L.Distinct, L.Names, IsNothing;
    match members
    case MNil =>
      NoKeys(ps, us, a);
    case MCons(_, head, _, tail) =>
      var v := FirstMember(members, ps, us, a);
      var key := CString(ps[a].text.value);
      KeysAgree(tail, close, ps, us, a + 1 + Width(head));
      FirstKey(members, close, ps, us, a);
      var keys := UG.LookedUp(ToMembers(tail, close), us, true, a + 1 + Width(head));
      AddName(key, keys);
      var rest := PG.DenoteMembers(tail, ps, v.1).value.0;
      assert (map[key := v.0] + rest).Keys == {key} + rest.Keys;
  }

  lemma NoKeys(ps: seq<P.Arg>, us: seq<U.Arg>, a: nat)
    ensures PG.DenoteMembers(PG.MNil, ps, a) == Some((map[], a))
    ensures KeyNames(PG.MNil, ps, a) == {} == L.Names(UG.LookedUp(UG.MNil, us, true, a))
    ensures L.Distinct(UG.LookedUp(UG.MNil, us, true, a))
  {
  }

  lemma FirstKey(members: PG.Members, close: UG.Close, ps: seq<P.Arg>, us: seq<U.Arg>, a: nat)
    requires members.MCons? && a < |ps| && ps[a].StrArg? && ps[a].text.Some? && UG.IsKey(us, a)
    ensures var next := a + 1 + Width(members.head);
      && UG.LookedUp(ToMembers(members, close), us, true, a)
         == [CString(us[a].key.value)] + UG.LookedUp(ToMembers(members.tail, close), us, true, next)
      && KeyNames(members, ps, a) == {CString(ps[a].text.value)} + KeyNames(members.tail, ps, next)
  {
    hide CString, UG.Arity, UG.LookedUp, KeyNames, ToUnpack, Width;
    WidthAnyClose(members.head, close);
    FirstLookup(ToMembers(members, close), us, a);
    FirstName(members, ps, a);
  }

  lemma FirstLookup(members: UG.Members, us: seq<U.Arg>, a: nat)
    requires members.MCons? && UG.IsKey(us, a)
    ensures UG.LookedUp(members, us, true, a)
         == [CString(us[a].key.value)] + UG.LookedUp(members.tail, us, true, a + 1 + UG.Arity(members.head, true))
  {
    hide CString, UG.Arity;
  }

  lemma FirstName(members: PG.Members, ps: seq<P.Arg>, a: nat)
    requires members.MCons? && a < |ps| && ps[a].StrArg? && ps[a].text.Some?
    ensures KeyNames(members, ps, a)
      == {CString(ps[a].text.value)} + KeyNames(members.tail, ps, a + 1 + Width(members.head))
  {
    hide CString, Width;
  }

  lemma AddName(key: string, keys: seq<string>)
    requires L.Distinct(keys) && key !in L.Names(keys)
    ensures L.Distinct([key] + keys) && L.Names([key] + keys) == {key} + L.Names(keys)
  {
    assert ([key] + keys)[1..] == keys && ([key] + keys)[0] == key;
    L.NamesCons([key] + keys);
  }

  /** The value of the first member, and the members of the object with it, unless it is left out. */
  lemma FirstMember(members: PG.Members, ps: seq<P.Arg>, us: seq<U.Arg>, a: nat) returns (v: (Json, nat))
    requires members.MCons? && DualMembers(members) && PG.DenoteMembers(members, ps, a).Some?
    requires MirrorsMembers(members, ps, us, a)
    ensures PG.Denote(members.head, members.star, ps, a + 1) == Some(v) && v.1 == a + 1 + Width(members.head)
    ensures ps[a].text.Some? && UG.IsKey(us, a) && CString(us[a].key.value) == CString(ps[a].text.value)
    ensures var rest := PG.DenoteMembers(members.tail, ps, v.1);
      var key := CString(ps[a].text.value);
      && rest.Some?
      && PG.DenoteMembers(members, ps, a)
         == Some((if LeftOut(members, ps, a) then rest.value.0 else map[key := v.0] + rest.value.0, rest.value.1))
    ensures !LeftOut(members, ps, a) ==> PG.Denote(members.head, false, ps, a + 1) == Some(v)
  {
    hide UG.Fits, Restored, UG.Arity, CString, PG.TextValue, IsNothing;
    OneFragment(members.key, ps, a);
    CStringTwice(ps[a].text.value);
    v := PG.Denote(members.head, members.star, ps, a + 1).value;
    DenoteWidth(members.head, members.star, ps, a + 1);
    var rest := PG.DenoteMembers(members.tail, ps, v.1).value.0;
    assert map[] + rest == rest;
  }

  /** The first member has a `*` and nothing to pack. */
  predicate LeftOut(members: PG.Members, ps: seq<P.Arg>, a: nat)
    requires members.MCons?
  {
    members.star && IsNothing(members.head, ps, a + 1)
  }

  /** The members of a suffix of the format, looked up in the whole object `m`. */
  lemma {:induction false} PackedMembersFit(members: PG.Members, close: UG.Close, ps: seq<P.Arg>, us: seq<U.Arg>,
                                            a: nat, m: map<string, Json>)
    requires DualMembers(members) && PG.DenoteMembers(members, ps, a).Some? && MirrorsMembers(members, ps, us, a)
    requires var own := PG.DenoteMembers(members, ps, a).value.0;
      forall key :: key in KeyNames(members, ps, a) ==> SameAt(own, m, key)
    ensures UG.FitsMembers(ToMembers(members, close), us, true, m, false, a)
      == Some(RestoredMembers(members, ps, us, a))
    decreases members
  {
    hide PG.Denote, PG.DenoteMembers, UG.Fits, UG.FitsMembers, Restored, UG.Arity, Mirrors, Dual, CString;
    hide KeyNames, Width, IsNothing;
    match members
    case MNil =>
      NoneToFit(us, m, a);
    case MCons(_, head, star, tail) =>
      var v := FirstMember(members, ps, us, a);
      var key := CString(ps[a].text.value);
      KeysAgree(tail, close, ps, us, v.1);
      FirstKey(members, close, ps, us, a);
      var rest := PG.DenoteMembers(tail, ps, v.1).value.0;
      var own := PG.DenoteMembers(members, ps, a).value.0;
      assert SameAt(own, m, key);
      WidthAnyClose(head, close);
      if LeftOut(members, ps, a) {
        AbsentFits(head, star, close, ps, us, a + 1);
      } else {
        assert own[key] == v.0;
        PackedFits(head, close, ps, us, a + 1);
      }
      forall k | k in KeyNames(tail, ps, v.1)
        ensures SameAt(rest, m, k)
      {
        assert SameAt(own, m, k) && k != key;
      }
      PackedMembersFit(tail, close, ps, us, v.1, m);
      UG.FitsFirst(ToMembers(members, close), us, true, m, false, a);
  }

  /** The two objects agree on one key. */
  predicate SameAt(own: map<string, Json>, m: map<string, Json>, key: string) {
    (key in own <==> key in m) && (key in own ==> m[key] == own[key])
  }

  lemma NoneToFit(us: seq<U.Arg>, m: map<string, Json>, a: nat)
    ensures UG.FitsMembers(UG.MNil, us, true, m, false, a) == Some([])
  {
  }

  lemma {:induction false} CStringTwice(s: string)
    ensures CString(CString(s)) == CString(s)
  {
    if s != [] && s[0] != '\0' {
      CStringTwice(s[1..]);
      assert ([s[0]] + CString(s[1..]))[1..] == CString(s[1..]);
    }
  }

  // ---------------------------------------------------------------- the same format string

  /** Whether a character closes a container. */
  predicate Closer(c: char) {
    c == ']' || c == '}'
  }

  /** The format string with `!` before every closer when `strict` holds, and itself otherwise. */
  function Strictly(desc: string, strict: bool): string {
    if desc == [] then []
    else (if strict && Closer(desc[0]) then ['!', desc[0]] else [desc[0]]) + Strictly(desc[1..], strict)
  }

  lemma {:induction false} NotStrict(desc: string)
    ensures Strictly(desc, false) == desc
  {
    if desc != [] {
      NotStrict(desc[1..]);
    }
  }

  /** Cursor `u` of `to` stands where cursor `d` of `desc` stands. */
  predicate Aligned(desc: string, d: nat, to: string, u: nat, strict: bool) {
    d <= |desc| && u <= |to| && to[u..] == Strictly(desc[d..], strict)
  }

  lemma AlignedAt(desc: string, d: nat, to: string, u: nat, strict: bool)
    requires Aligned(desc, d, to, u, strict)
    ensures d == |desc| ==> u == |to|
    ensures d < |desc| && !(strict && Closer(desc[d])) ==>
      u < |to| && to[u] == desc[d] && Aligned(desc, d + 1, to, u + 1, strict)
    ensures d < |desc| && strict && Closer(desc[d]) ==>
      u + 1 < |to| && to[u] == '!' && to[u + 1] == desc[d] && Aligned(desc, d + 1, to, u + 2, strict)
  {
    if d < |desc| {
      assert desc[d..][0] == desc[d] && desc[d..][1..] == desc[d + 1..];
      var n := if strict && Closer(desc[d]) then 2 else 1;
      assert to[u..][n..] == to[u + n..];
      assert to[u] == to[u..][0] && (n == 2 ==> to[u + 1] == to[u..][1]);
    }
  }

  lemma {:induction false} AlignedSkip(desc: string, d: nat, to: string, u: nat, strict: bool)
    requires Aligned(desc, d, to, u, strict)
    ensures Aligned(desc, Skip(desc, d), to, Skip(to, u), strict)
    decreases |desc| - d
  {
    AlignedAt(desc, d, to, u, strict);
    if Ignored(At(desc, d)) {
      AlignedSkip(desc, d + 1, to, u + 1, strict);
    }
  }

  /** Eating a character that is no closer keeps two cursors aligned. */
  lemma AlignedEat(desc: string, d: nat, to: string, u: nat, strict: bool, c: char)
    requires Aligned(desc, d, to, u, strict) && !Closer(c) && c != '\0' && Eat(desc, Some(d), c).Some?
    ensures var e := Eat(to, Some(u), c); e.Some? && Aligned(desc, Eat(desc, Some(d), c).value, to, e.value, strict)
  {
    AlignedAt(desc, d, to, u, strict);
    AlignedSkip(desc, d + 1, to, u + 1, strict);
  }

  /** So does eating a closer, with the `!` before it. */
  lemma AlignedClose(desc: string, d: nat, to: string, u: nat, strict: bool, c: char)
    requires Aligned(desc, d, to, u, strict) && Closer(c) && Eat(desc, Some(d), c).Some?
    ensures var e := UG.SpellsClose(if strict then UG.Bang else UG.Plain, c, to, Some(u));
      e.Some? && Aligned(desc, Eat(desc, Some(d), c).value, to, e.value, strict)
  {
    AlignedAt(desc, d, to, u, strict);
    AlignedSkip(desc, d + 1, to, if strict then u + 2 else u + 1, strict);
    if strict {
      assert Skip(to, u + 1) == u + 1;
    }
  }

  function CloseOf(strict: bool): UG.Close {
    if strict then UG.Bang else UG.Plain
  }

  lemma {:induction false} SpellingCarries(f: PG.Fmt, desc: string, d: nat, to: string, u: nat, strict: bool)
    requires Shared(f) && Aligned(desc, d, to, u, strict) && PG.Spells(f, desc, Some(d)).Some?
    ensures var e := UG.Spells(ToUnpack(f, CloseOf(strict)), to, Some(u));
      e.Some? && Aligned(desc, PG.Spells(f, desc, Some(d)).value, to, e.value, strict)
    decreases f
  {
    hide Skip, Next, Strictly, Aligned;
    PG.FirstCharacter(f, desc, d);
    match f
    case FText(t) =>
      TextCarries(t, desc, d, to, u, strict);
    case FArr(items) =>
      if At(desc, d) != '[' { PG.ItemsFromNothing(items, desc); }
      AlignedEat(desc, d, to, u, strict, '[');
      ItemsCarry(items, desc, Next(desc, d), to, Next(to, u), strict);
    case FObj(members) =>
      if At(desc, d) != '{' { PG.MembersFromNothing(members, desc); }
      AlignedEat(desc, d, to, u, strict, '{');
      MembersCarry(members, desc, Next(desc, d), to, Next(to, u), strict);
    case _ =>
      AlignedEat(desc, d, to, u, strict, At(desc, d));
  }

  lemma TextCarries(t: PG.Text, desc: string, d: nat, to: string, u: nat, strict: bool)
    requires SharedText(t) && Aligned(desc, d, to, u, strict) && PG.Spells(PG.FText(t), desc, Some(d)).Some?
    ensures var e := UG.Spells(UG.FLeaf('s', t.frag.size.Percent?), to, Some(u));
      e.Some? && Aligned(desc, PG.Spells(PG.FText(t), desc, Some(d)).value, to, e.value, strict)
  {
    hide Skip, Next, Strictly, Aligned;
    AlignedEat(desc, d, to, u, strict, 's');
    if t.frag.size.Percent? {
      AlignedEat(desc, Next(desc, d), to, Next(to, u), strict, '%');
    }
  }

  lemma {:induction false} ItemsCarry(items: PG.Items, desc: string, d: nat, to: string, u: nat, strict: bool)
    requires SharedItems(items) && Aligned(desc, d, to, u, strict) && PG.SpellsItems(items, desc, Some(d)).Some?
    ensures var close := CloseOf(strict);
      var e := UG.SpellsClose(close, ']', to, UG.SpellsItems(ToItems(items, close), to, Some(u)));
      e.Some? && Aligned(desc, PG.SpellsItems(items, desc, Some(d)).value, to, e.value, strict)
    decreases items
  {
    hide Skip, Next, Strictly, Aligned, PG.Spells, UG.Spells, UG.SpellsClose, Shared;
    match items
    case INil =>
      AlignedClose(desc, d, to, u, strict, ']');
    case ICons(head, _, tail) =>
      PG.SpelledItem(items, desc, d);
      SpellingCarries(head, desc, d, to, u, strict);
      var e := UG.Spells(ToUnpack(head, CloseOf(strict)), to, Some(u)).value;
      ItemsCarry(tail, desc, PG.Spells(head, desc, Some(d)).value, to, e, strict);
  }

  lemma {:induction false} MembersCarry(members: PG.Members, desc: string, d: nat, to: string, u: nat, strict: bool)
    requires SharedMembers(members) && Aligned(desc, d, to, u, strict) && PG.SpellsMembers(members, desc, Some(d)).Some?
    ensures var close := CloseOf(strict);
      var e := UG.SpellsClose(close, '}', to, UG.SpellsMembers(ToMembers(members, close), to, Some(u)));
      e.Some? && Aligned(desc, PG.SpellsMembers(members, desc, Some(d)).value, to, e.value, strict)
    decreases members
  {
    hide Skip, Next, Strictly, Aligned, PG.Spells, UG.Spells, UG.SpellsClose, Shared;
    match members
    case MNil =>
      AlignedClose(desc, d, to, u, strict, '}');
    case MCons(key, head, _, tail) =>
      PG.SpelledMember(members, desc, d);
      AlignedEat(desc, d, to, u, strict, 's');
      var d1, u1 := Next(desc, d), Next(to, u);
      if key.frag.pre || key.frag.post {
        AlignedEat(desc, d1, to, u1, strict, '?');
        d1, u1 := Next(desc, d1), Next(to, u1);
      }
      SpellingCarries(head, desc, d1, to, u1, strict);
      var e := UG.Spells(ToUnpack(head, CloseOf(strict)), to, Some(u1)).value;
      MembersCarry(tail, desc, PG.Spells(head, desc, Some(d1)).value, to, e, strict);
  }

  lemma {:induction false} SameDepth(f: PG.Fmt, close: UG.Close)
    ensures UG.Depth(ToUnpack(f, close)) == PG.Depth(f)
  {
    match f
    case FArr(items) => SameDepthItems(items, close);
    case FObj(members) => SameDepthMembers(members, close);
    case _ =>
  }

  lemma {:induction false} SameDepthItems(items: PG.Items, close: UG.Close)
    ensures UG.DepthItems(ToItems(items, close)) == PG.DepthItems(items)
  {
    if items.ICons? {
      SameDepth(items.head, close);
      SameDepthItems(items.tail, close);
    }
  }

  lemma {:induction false} SameDepthMembers(members: PG.Members, close: UG.Close)
    ensures UG.DepthMembers(ToMembers(members, close)) == PG.DepthMembers(members)
  {
    if members.MCons? {
      SameDepth(members.head, close);
      SameDepthMembers(members.tail, close);
    }
  }

  /** A reading of a format for packing is a reading for unpacking, of the same depth. */
  lemma FormatCarries(f: PG.Fmt, desc: string, strict: bool)
    requires PG.IsFormat(f, desc) && Shared(f)
    ensures UG.IsFormat(ToUnpack(f, CloseOf(strict)), Strictly(desc, strict))
    ensures UG.Depth(ToUnpack(f, CloseOf(strict))) == PG.Depth(f)
  {
    hide Skip, Strictly, PG.Spells, UG.Spells, Shared, PG.Depth, UG.Depth, ToUnpack;
    var to := Strictly(desc, strict);
    var u := ToUnpack(f, CloseOf(strict));
    assert Aligned(desc, 0, to, 0, strict) by {
      assert desc[0..] == desc && to[0..] == to;
    }
    AlignedSkip(desc, 0, to, 0, strict);
    SpellingCarries(f, desc, Skip(desc, 0), to, Skip(to, 0), strict);
    var e := PG.Spells(f, desc, Some(Skip(desc, 0)));
    AlignedAt(desc, e.value, to, UG.Spells(u, to, Some(Skip(to, 0))).value, strict);
    SameDepth(f, CloseOf(strict));
  }

  // ---------------------------------------------------------------- the round trip

  /** Whatever tree packing builds from a shared format, unpacking it with the same format, plain or with
      `!` before every closer, succeeds and stores exactly the packed arguments. */
  lemma RoundTrip(f: PG.Fmt, desc: string, ps: seq<P.Arg>, j: Json, us: seq<U.Arg>, strict: bool)
    requires PG.IsFormat(f, desc) && Shared(f) && PG.Builds(f, ps, j) && Mirrors(f, ps, us, 0)
    ensures U.Meaning(j, Some(Strictly(desc, strict)), us, true) == U.Unpacked(Restored(f, ps, us, 0))
  {
    hide Strictly, PG.IsFormat, UG.IsFormat, PG.Denote, UG.Fits, Restored, Mirrors, Shared, ToUnpack, U.Meaning;
    hide PG.Depth, UG.Depth, PG.Small;
    var to := Strictly(desc, strict);
    FormatCarries(f, desc, strict);
    SharedIsDual(f);
    PackedFits(f, CloseOf(strict), ps, us, 0);
    UG.UnpackAccepts(j, to, us, true, Restored(f, ps, us, 0));
  }

  /** A member with `*` when packing is the dual of an optional key when unpacking: whatever tree packing builds from
      a format, the dual format, in any spelling, takes apart into the packed arguments. Nothing is stored for the
      members that were left out because their arguments are NULL. */
  lemma DualRoundTrip(f: PG.Fmt, desc: string, ps: seq<P.Arg>, j: Json, us: seq<U.Arg>, to: string, strict: bool)
    requires PG.IsFormat(f, desc) && Dual(f) && P.Meaning(Some(desc), ps) == P.Packed(j) && Mirrors(f, ps, us, 0)
    requires UG.IsFormat(ToUnpack(f, CloseOf(strict)), to)
    ensures U.Meaning(j, Some(to), us, true) == U.Unpacked(Restored(f, ps, us, 0))
  {
    hide PG.IsFormat, UG.IsFormat, PG.Denote, UG.Fits, Restored, Mirrors, Dual, ToUnpack, U.Meaning, P.Meaning;
    hide PG.Depth, UG.Depth, PG.Small;
    One.PackByReading(f, desc, ps, j);
    PackedFits(f, CloseOf(strict), ps, us, 0);
    SameDepth(f, CloseOf(strict));
    One.UnpackByReading(ToUnpack(f, CloseOf(strict)), to, j, us, true, Restored(f, ps, us, 0));
  }

  /** The dual format has a spelling. */
  lemma DualIsSpelled(f: PG.Fmt, close: UG.Close)
    requires Dual(f)
    ensures UG.IsFormat(ToUnpack(f, close), One.Print(ToUnpack(f, close)))
  {
    hide Dual, ToUnpack, One.Print;
    DualIsWellFormed(f, close);
    One.PrintIsFormat(ToUnpack(f, close));
  }

  lemma {:induction false} DualIsWellFormed(f: PG.Fmt, close: UG.Close)
    requires Dual(f)
    ensures One.WellFormed(ToUnpack(f, close))
  {
    match f
    case FArr(items) => DualItemsAreWellFormed(items, close);
    case FObj(members) => DualMembersAreWellFormed(members, close);
    case _ =>
  }

  lemma {:induction false} DualItemsAreWellFormed(items: PG.Items, close: UG.Close)
    requires DualItems(items)
    ensures One.WellFormedItems(ToItems(items, close))
  {
    if items.ICons? {
      DualIsWellFormed(items.head, close);
      DualItemsAreWellFormed(items.tail, close);
    }
  }

  lemma {:induction false} DualMembersAreWellFormed(members: PG.Members, close: UG.Close)
    requires DualMembers(members)
    ensures One.WellFormedMembers(ToMembers(members, close))
  {
    if members.MCons? {
      DualIsWellFormed(members.head, close);
      DualMembersAreWellFormed(members.tail, close);
    }
  }

  /** A format over s, n, b, i, I, f, o, O and the brackets. */
  predicate PlainFormat(desc: string) {
    forall i :: 0 <= i < |desc| ==> desc[i] !in "*+#%?"
  }

  lemma PlainEat(desc: string, o: Option<nat>, c: char)
    requires PlainFormat(desc) && c in "*+#%?"
    ensures Eat(desc, o, c).None?
  {
  }

  lemma {:induction false} PlainIsShared(f: PG.Fmt, desc: string, o: Option<nat>)
    requires PlainFormat(desc) && PG.Spells(f, desc, o).Some?
    ensures Shared(f)
    decreases f
  {
    hide Skip, Next, PlainFormat, Eat;
    match f
    case FText(t) => PlainText(t, desc, Eat(desc, o, 's'));
    case FAny(own, question) => PlainEat(desc, Eat(desc, o, if own then 'O' else 'o'), '?');
    case FArr(items) => PlainItems(items, desc, Eat(desc, o, '['));
    case FObj(members) => PlainMembers(members, desc, Eat(desc, o, '{'));
    case _ =>
  }

  lemma PlainText(t: PG.Text, desc: string, o: Option<nat>)
    requires PlainFormat(desc) && PG.SpellsText(t, desc, o).Some?
    ensures SharedText(t) && SharedKey(t)
  {
    hide Skip, Next, PlainFormat, Eat;
    PlainEat(desc, o, '?');
    PlainEat(desc, o, '%');
    PlainEat(desc, o, '#');
    PlainEat(desc, None, '?');
    PlainEat(desc, None, '%');
    PlainEat(desc, None, '#');
    PlainEat(desc, PG.SpellsFrag(t.frag, desc, o), '+');
    if t.Plus? {
      PG.SpellsNothing(t.rest, desc);
    }
  }

  lemma {:induction false} PlainItems(items: PG.Items, desc: string, o: Option<nat>)
    requires PlainFormat(desc) && PG.SpellsItems(items, desc, o).Some?
    ensures SharedItems(items)
    decreases items
  {
    hide Skip, Next, PlainFormat, Eat, PG.Spells, Shared;
    if items.ICons? {
      var e := PG.Spells(items.head, desc, o);
      PlainEat(desc, e, '*');
      PG.ItemsFromNothing(items.tail, desc);
      PlainIsShared(items.head, desc, o);
      PlainItems(items.tail, desc, e);
    }
  }

  lemma {:induction false} PlainMembers(members: PG.Members, desc: string, o: Option<nat>)
    requires PlainFormat(desc) && PG.SpellsMembers(members, desc, o).Some?
    ensures SharedMembers(members)
    decreases members
  {
    hide Skip, Next, PlainFormat, Eat, PG.Spells, PG.SpellsText, Shared, SharedText, SharedKey;
    if members.MCons? {
      var ek := PG.SpellsText(members.key, desc, Eat(desc, o, 's'));
      var e := PG.Spells(members.head, desc, ek);
      PlainEat(desc, e, '*');
      PG.MembersFromNothing(members.tail, desc);
      PG.FromNothing(members.head, desc);
      PlainText(members.key, desc, Eat(desc, o, 's'));
      PlainIsShared(members.head, desc, ek);
      PlainMembers(members.tail, desc, e);
    }
  }

  /** Packing with a plain format, then unpacking the result with it. `f` is the syntax tree of the format;
      nothing is asked of the packing arguments beyond that packing succeeded. */
  lemma PackThenUnpack(desc: string, ps: seq<P.Arg>, j: Json) returns (f: PG.Fmt)
    requires PlainFormat(desc) && P.Meaning(Some(desc), ps) == P.Packed(j)
    ensures PG.IsFormat(f, desc) && PG.Builds(f, ps, j)
    ensures forall us: seq<U.Arg>, strict :: Mirrors(f, ps, us, 0) ==>
      U.Meaning(j, Some(Strictly(desc, strict)), us, true) == U.Unpacked(Restored(f, ps, us, 0))
    ensures forall us: seq<U.Arg> :: Mirrors(f, ps, us, 0) ==>
      U.Meaning(j, Some(desc), us, true) == U.Unpacked(Restored(f, ps, us, 0))
  {
    hide *;
    PG.PackAccepts(desc, ps, j);
    f :| PG.IsFormat(f, desc) && PG.Builds(f, ps, j);
    FormatIsSpelled(f, desc);
    PlainIsShared(f, desc, Some(Skip(desc, 0)));
    forall us: seq<U.Arg>, strict | Mirrors(f, ps, us, 0)
      ensures U.Meaning(j, Some(Strictly(desc, strict)), us, true) == U.Unpacked(Restored(f, ps, us, 0))
    {
      RoundTrip(f, desc, ps, j, us, strict);
    }
    NotStrict(desc);
    forall us: seq<U.Arg> | Mirrors(f, ps, us, 0)
      ensures U.Meaning(j, Some(desc), us, true) == U.Unpacked(Restored(f, ps, us, 0))
    {
      RoundTrip(f, desc, ps, j, us, false);
    }
  }

  lemma FormatIsSpelled(f: PG.Fmt, desc: string)
    requires PG.IsFormat(f, desc)
    ensures PG.Spells(f, desc, Some(Skip(desc, 0))).Some?
  {
  }
}
