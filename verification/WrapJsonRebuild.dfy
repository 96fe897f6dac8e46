/** Packing undoes unpacking: the values that vunpack has stored, packed with the same format, build the tree
    again, with the exact exceptions. */
module WrapJsonRebuild {
  import opened Options
  import opened WrapJsonBase
  import P = WrapJsonPack
  import PG = WrapJsonPackGrammar
  import U = WrapJsonUnpack
  import UG = WrapJsonUnpackGrammar
  import L = WrapJsonUnpackLaws
  import V = WrapJsonVunpack
  import One = WrapJsonUnambiguous
  import opened WrapJsonRoundTrip

  // ---------------------------------------------------------------- the stored values as arguments

  predicate IsTarget(u: U.Arg, cell: nat) {
    !u.KeyArg? && u.cell == Some(cell)
  }

  /** No pointer is NULL, each names a cell of the memory, and no two name the same. */
  predicate OwnTargets(us: seq<U.Arg>, size: nat) {
    && (forall i :: 0 <= i < |us| && !us[i].KeyArg? ==> us[i].cell.Some? && us[i].cell.value < size)
    && (forall i, k :: 0 <= i < k < |us| && !us[i].KeyArg? && !us[k].KeyArg? ==> us[i].cell != us[k].cell)
  }

  /** A key is passed on; a pointer becomes the value it points to. */
  function Refilled(u: U.Arg, memory: seq<U.Value>): P.Arg
    requires u.KeyArg? || (u.cell.Some? && u.cell.value < |memory|)
  {
    if u.KeyArg? then P.StrArg(u.key)
    else
      match memory[u.cell.value]
      case StrVal(s) => P.StrArg(Some(s))
      case SizeVal(n) => P.SizeArg(n)
      case IntVal(i) => P.IntArg(i)
      case Int64Val(l) => P.Int64Arg(l)
      case DoubleVal(r) => P.DoubleArg(r)
      case JsonVal(j) => P.JsonArg(j)
  }

  function Refill(us: seq<U.Arg>, memory: seq<U.Value>): seq<P.Arg>
    requires OwnTargets(us, |memory|)
  {
    seq(|us|, i requires 0 <= i < |us| => Refilled(us[i], memory))
  }

  /** The memory holds what has been written. */
  predicate Holds(memory: seq<U.Value>, writes: seq<U.Write>) {
    forall i :: 0 <= i < |writes| ==> writes[i].cell < |memory| && memory[writes[i].cell] == writes[i].value
  }

  lemma HoldsParts(memory: seq<U.Value>, v: seq<U.Write>, w: seq<U.Write>)
    requires Holds(memory, v + w)
    ensures Holds(memory, v) && Holds(memory, w)
  {
    assert forall i :: 0 <= i < |v| ==> (v + w)[i] == v[i];
    assert forall i :: 0 <= i < |w| ==> (v + w)[|v| + i] == w[i];
  }

  // ---------------------------------------------------------------- every target is written once

  /** The writes go to different cells, all of them targets among the arguments from `lo` to `hi`. */
  predicate OwnWrites(w: seq<U.Write>, us: seq<U.Arg>, lo: nat, hi: nat) {
    && (forall k :: 0 <= k < |w| ==> Targeted(us, lo, hi, w[k].cell))
    && (forall k, l :: 0 <= k < l < |w| ==> w[k].cell != w[l].cell)
  }

  predicate Targeted(us: seq<U.Arg>, lo: nat, hi: nat, cell: nat) {
    exists i :: lo <= i < hi && i < |us| && IsTarget(us[i], cell)
  }

  lemma OwnWritesJoin(v: seq<U.Write>, w: seq<U.Write>, us: seq<U.Arg>, size: nat, lo: nat, mid: nat, from: nat,
                      hi: nat)
    requires OwnTargets(us, size) && OwnWrites(v, us, lo, mid) && OwnWrites(w, us, from, hi)
    requires lo <= mid <= from <= hi
    ensures OwnWrites(v + w, us, lo, hi)
  {
    forall cell | Targeted(us, lo, mid, cell) || Targeted(us, from, hi, cell)
      ensures Targeted(us, lo, hi, cell) && !(Targeted(us, lo, mid, cell) && Targeted(us, from, hi, cell))
    {
    }
  }

  lemma OwnWritesWiden(w: seq<U.Write>, us: seq<U.Arg>, lo: nat, hi: nat, lo': nat)
    requires OwnWrites(w, us, lo, hi) && lo' <= lo
    ensures OwnWrites(w, us, lo', hi)
  {
    forall cell | Targeted(us, lo, hi, cell)
      ensures Targeted(us, lo', hi, cell)
    {
    }
  }

  lemma {:induction false} FitWritesOwn(f: UG.Fmt, us: seq<U.Arg>, store: bool, size: nat, j: Json, skip: bool, a: nat)
    requires OwnTargets(us, size) && UG.Fits(f, us, store, j, skip, a).Some?
    ensures OwnWrites(UG.Fits(f, us, store, j, skip, a).value, us, a, a + UG.Arity(f, store))
    decreases f
  {
    hide UG.FitsItems, UG.FitsMembers, UG.ArityItems, UG.ArityMembers;
    match f
    case FLeaf(c, sized) => LeafWritesOwn(c, sized, us, store, size, j, skip, a);
    case FArr(items, _) => ItemsWriteOwn(items, us, store, size, if skip then [] else j.elems, skip, a);
    case FObj(members, _) => MembersWriteOwn(members, us, store, size, if skip then map[] else j.members, skip, a);
  }

  lemma LeafWritesOwn(c: char, sized: bool, us: seq<U.Arg>, store: bool, size: nat, j: Json, skip: bool, a: nat)
    requires OwnTargets(us, size) && UG.FitsLeaf(c, sized, us, store, j, skip, a).Some?
    ensures var w := UG.FitsLeaf(c, sized, us, store, j, skip, a).value;
      OwnWrites(w, us, a, a + UG.Arity(UG.FLeaf(c, sized), store))
  {
    if store && c != 'n' && !skip {
      assert IsTarget(us[a], us[a].cell.value) && Targeted(us, a, a + 1, us[a].cell.value);
      if sized {
        assert IsTarget(us[a + 1], us[a + 1].cell.value);
        assert Targeted(us, a, a + 2, us[a].cell.value) && Targeted(us, a, a + 2, us[a + 1].cell.value);
      }
    }
  }

  lemma {:induction false} ItemsWriteOwn(items: UG.Items, us: seq<U.Arg>, store: bool, size: nat, elems: seq<Json>,
                                         skip: bool, a: nat)
    requires OwnTargets(us, size) && UG.FitsItems(items, us, store, elems, skip, a).Some?
    ensures OwnWrites(UG.FitsItems(items, us, store, elems, skip, a).value, us, a, a + UG.ArityItems(items, store))
    decreases items
  {
    hide UG.Fits, UG.Arity, OwnTargets, OwnWrites;
    match items
    case INil => assert OwnWrites([], us, a, a) by { NoWrites(us, a); }
    case ICons(head, tail) =>
      var obj := if skip then Null else elems[0];
      var more := if skip then [] else elems[1..];
      var mid := a + UG.Arity(head, store);
      FitWritesOwn(head, us, store, size, obj, skip, a);
      ItemsWriteOwn(tail, us, store, size, more, skip, mid);
      OwnWritesJoin(UG.Fits(head, us, store, obj, skip, a).value, UG.FitsItems(tail, us, store, more, skip, mid).value,
                    us, size, a, mid, mid, mid + UG.ArityItems(tail, store));
  }

  lemma NoWrites(us: seq<U.Arg>, a: nat)
    ensures OwnWrites([], us, a, a)
  {
  }

  lemma {:induction false} MembersWriteOwn(members: UG.Members, us: seq<U.Arg>, store: bool, size: nat,
                                           m: map<string, Json>, skip: bool, a: nat)
    requires OwnTargets(us, size) && UG.FitsMembers(members, us, store, m, skip, a).Some?
    ensures OwnWrites(UG.FitsMembers(members, us, store, m, skip, a).value, us, a, a + UG.ArityMembers(members, store))
    decreases members
  {
    hide UG.Fits, UG.Arity, OwnTargets, OwnWrites, CString;
    match members
    case MNil => assert OwnWrites([], us, a, a) by { NoWrites(us, a); }
    case MCons(_, head, tail) =>
      var key := CString(us[a].key.value);
      var there := !skip && key in m;
      var obj := if there then m[key] else Null;
      var mid := a + 1 + UG.Arity(head, store);
      FitWritesOwn(head, us, store, size, obj, !there, a + 1);
      MembersWriteOwn(tail, us, store, size, m, skip, mid);
      OwnWritesWiden(UG.Fits(head, us, store, obj, !there, a + 1).value, us, a + 1, mid, a);
      OwnWritesJoin(UG.Fits(head, us, store, obj, !there, a + 1).value,
                    UG.FitsMembers(tail, us, store, m, skip, mid).value,
                    us, size, a, mid, mid, mid + UG.ArityMembers(tail, store));
  }

  /** Writes to different cells are all there in the end. */
  lemma {:induction false} WritesStay(start: seq<U.Value>, w: seq<U.Write>)
    requires forall k :: 0 <= k < |w| ==> w[k].cell < |start|
    requires forall k, l :: 0 <= k < l < |w| ==> w[k].cell != w[l].cell
    ensures Holds(V.Apply(start, w), w)
  {
    if w != [] {
      var n := |w| - 1;
      WritesStay(start, w[..n]);
      assert forall k :: 0 <= k < n ==> w[..n][k] == w[k];
    }
  }

  // ---------------------------------------------------------------- what survives

  /** The tree, which fits the format, comes back: no integer is read by `i` that has more than 32 bits, no string with
      a NUL inside by `s` alone, no null by `o`; every key is there; and, unless the format is strict, every element
      and every member is visited. */
  predicate Faithful(f: PG.Fmt, us: seq<U.Arg>, j: Json, a: nat, strict: bool) {
    match f
    case FText(t) => j.Str? && (t.frag.size.Whole? ==> '\0' !in j.s)
    case FInt => j.Int? && -0x8000_0000 <= j.n <= 0x7fff_ffff
    case FAny(_, _) => j != Null
    case FArr(items) =>
      && j.Arr? && (strict || UG.Count(ToItems(items, UG.Plain)) == |j.elems|)
      && FaithfulItems(items, us, j.elems, a, strict)
    case FObj(members) =>
      && j.Obj? && (strict || j.members.Keys <= L.Names(UG.LookedUp(ToMembers(members, UG.Plain), us, true, a)))
      && FaithfulMembers(members, us, j.members, a, strict)
    case _ => true
  }

  predicate FaithfulItems(items: PG.Items, us: seq<U.Arg>, elems: seq<Json>, a: nat, strict: bool) {
    items.ICons? ==>
      && elems != [] && Faithful(items.head, us, elems[0], a, strict)
      && FaithfulItems(items.tail, us, elems[1..], a + Width(items.head), strict)
  }

  predicate FaithfulMembers(members: PG.Members, us: seq<U.Arg>, m: map<string, Json>, a: nat, strict: bool) {
    members.MCons? ==>
      && UG.IsKey(us, a) && CString(us[a].key.value) in m
      && Faithful(members.head, us, m[CString(us[a].key.value)], a + 1, strict)
      && FaithfulMembers(members.tail, us, m, a + 1 + Width(members.head), strict)
  }

  lemma {:induction false} NoNul(s: string)
    ensures CString(s) == s <==> '\0' !in s
  {
    if s != [] && s[0] != '\0' {
      NoNul(s[1..]);
      assert ([s[0]] + CString(s[1..]))[1..] == CString(s[1..]);
      assert s == [s[0]] + s[1..];
    }
  }

  // ---------------------------------------------------------------- values

  /** The value of a text whose argument is `s`. */
  lemma TextOf(t: PG.Text, ps: seq<P.Arg>, a: nat, s: string)
    requires t.Piece? && !t.frag.size.Hash? && a < |ps| && ps[a] == P.StrArg(Some(s))
    requires t.frag.size.Percent? ==> a + 1 < |ps| && ps[a + 1] == P.SizeArg(|s|)
    ensures PG.TextValue(t, false, ps, a)
         == if t.frag.size.Whole? then Some((Str(CString(s)), a + 1)) else Some((Str(s), a + 2))
  {
    hide CString;
    var fr := PG.DenoteFrag(t.frag, ps, a).value.0;
    assert [fr][0].text.Some? && P.Readable(fr);
    assert [fr][1..] == [];
    assert P.Concat([fr]) == P.Bytes(fr) + "" == P.Bytes(fr);
    assert s[..|CString(s)|] == CString(s) && s[..|s|] == s;
  }

  /** What a run has stored of a tree, if the memory still holds it. */
  ghost predicate Stored(f: PG.Fmt, us: seq<U.Arg>, memory: seq<U.Value>, j: Json, a: nat, strict: bool) {
    && OwnTargets(us, |memory|) && Shared(f) && Mirrors(f, Refill(us, memory), us, a)
    && var w := UG.Fits(ToUnpack(f, CloseOf(strict)), us, true, j, false, a);
    w.Some? && Holds(memory, w.value)
  }

  ghost predicate Rebuilds(f: PG.Fmt, us: seq<U.Arg>, memory: seq<U.Value>, j: Json, a: nat)
    requires OwnTargets(us, |memory|)
  {
    var v := PG.Denote(f, false, Refill(us, memory), a);
    v.Some? && v.value.0 == j
  }

  lemma {:induction false} Rebuilt(f: PG.Fmt, us: seq<U.Arg>, memory: seq<U.Value>, j: Json, a: nat, strict: bool)
    requires Stored(f, us, memory, j, a, strict)
    ensures Rebuilds(f, us, memory, j, a) <==> Faithful(f, us, j, a, strict)
    decreases f, 1
  {
    match f
    case FArr(items) => RebuiltArray(items, us, memory, j, a, strict);
    case FObj(members) => RebuiltObject(members, us, memory, j, a, strict);
    case _ => RebuiltScalar(f, us, memory, j, a, strict);
  }

  lemma RebuiltScalar(f: PG.Fmt, us: seq<U.Arg>, memory: seq<U.Value>, j: Json, a: nat, strict: bool)
    requires !f.FArr? && !f.FObj? && Stored(f, us, memory, j, a, strict)
    ensures Rebuilds(f, us, memory, j, a) <==> Faithful(f, us, j, a, strict)
  {
    hide CString, PG.TextValue;
    var w := UG.Fits(ToUnpack(f, CloseOf(strict)), us, true, j, false, a).value;
    var ps := Refill(us, memory);
    assert w != [] ==> w[0].cell == us[a].cell.value && memory[us[a].cell.value] == w[0].value;
    if f.FText? {
      assert f.text.frag.size.Percent? ==>
        w[1].cell == us[a + 1].cell.value && memory[us[a + 1].cell.value] == w[1].value;
      TextOf(f.text, ps, a, j.s);
      NoNul(j.s);
    }
  }

  lemma {:induction false} RebuiltArray(items: PG.Items, us: seq<U.Arg>, memory: seq<U.Value>, j: Json, a: nat,
                                        strict: bool)
    requires Stored(PG.FArr(items), us, memory, j, a, strict)
    ensures Rebuilds(PG.FArr(items), us, memory, j, a) <==> Faithful(PG.FArr(items), us, j, a, strict)
    decreases items, 1
  {
    hide Holds, PG.DenoteItems, UG.FitsItems, MirrorsItems, SharedItems, FaithfulItems, RestoredItems, UG.ArityItems;
    var ps := Refill(us, memory);
    RebuiltItems(items, us, memory, j.elems, a, strict);
    if PG.DenoteItems(items, ps, a).Some? {
      SharedItemsAreDual(items);
      PackedItemsFit(items, UG.Plain, ps, us, a);
      PackedItemsFit(items, CloseOf(strict), ps, us, a);
    }
  }

  ghost predicate StoredItems(items: PG.Items, us: seq<U.Arg>, memory: seq<U.Value>, elems: seq<Json>, a: nat,
                              strict: bool) {
    && OwnTargets(us, |memory|) && SharedItems(items) && MirrorsItems(items, Refill(us, memory), us, a)
    && var w := UG.FitsItems(ToItems(items, CloseOf(strict)), us, true, elems, false, a);
    w.Some? && Holds(memory, w.value)
  }

  lemma {:induction false} RebuiltItems(items: PG.Items, us: seq<U.Arg>, memory: seq<U.Value>, elems: seq<Json>, a: nat,
                                        strict: bool)
    requires StoredItems(items, us, memory, elems, a, strict)
    ensures var es := PG.DenoteItems(items, Refill(us, memory), a);
      es.Some? && es.value.0 <= elems <==> FaithfulItems(items, us, elems, a, strict)
    decreases items, 0
  {
    hide Holds, OwnTargets, PG.Denote, UG.Fits, Mirrors, Shared, Faithful, UG.Arity, Refill;
    if items.ICons? {
      var close := CloseOf(strict);
      var ps := Refill(us, memory);
      var b := a + Width(items.head);
      WidthAnyClose(items.head, close);
      HoldsParts(memory, UG.Fits(ToUnpack(items.head, close), us, true, elems[0], false, a).value,
                 UG.FitsItems(ToItems(items.tail, close), us, true, elems[1..], false, b).value);
      Rebuilt(items.head, us, memory, elems[0], a, strict);
      RebuiltItems(items.tail, us, memory, elems[1..], b, strict);
      var v := PG.Denote(items.head, false, ps, a);
      if v.Some? {
        SharedIsDual(items.head);
        DenoteWidth(items.head, false, ps, a);
        var rest := PG.DenoteItems(items.tail, ps, b);
        if rest.Some? {
          assert ([v.value.0] + rest.value.0)[1..] == rest.value.0;
          assert [v.value.0] + rest.value.0 <= elems <==> v.value.0 == elems[0] && rest.value.0 <= elems[1..] by {
            assert elems == [elems[0]] + elems[1..];
          }
        }
      }
    }
  }

  lemma {:induction false} RebuiltObject(members: PG.Members, us: seq<U.Arg>, memory: seq<U.Value>, j: Json, a: nat,
                                         strict: bool)
    requires Stored(PG.FObj(members), us, memory, j, a, strict)
    ensures Rebuilds(PG.FObj(members), us, memory, j, a) <==> Faithful(PG.FObj(members), us, j, a, strict)
    decreases members, 1
  {
    hide Holds, PG.DenoteMembers, UG.FitsMembers, MirrorsMembers, SharedMembers, FaithfulMembers, UG.LookedUp, UG.Found;
    hide L.Names, L.Distinct;
    var ps := Refill(us, memory);
    RebuiltMembers(members, us, memory, j.members, a, strict);
    var own := PG.DenoteMembers(members, ps, a);
    if own.Some? {
      SharedMembersAreDual(members);
      KeysAgree(members, UG.Plain, ps, us, a);
      KeysAgree(members, CloseOf(strict), ps, us, a);
      L.StrictnessNeedsDistinctKeys(UG.LookedUp(ToMembers(members, CloseOf(strict)), us, true, a));
      assert own.value.0 == j.members <==> Agrees(own.value.0, j.members) && j.members.Keys <= own.value.0.Keys;
    }
  }

  ghost predicate StoredMembers(members: PG.Members, us: seq<U.Arg>, memory: seq<U.Value>, m: map<string, Json>, a: nat,
                                strict: bool) {
    && OwnTargets(us, |memory|) && SharedMembers(members) && MirrorsMembers(members, Refill(us, memory), us, a)
    && var w := UG.FitsMembers(ToMembers(members, CloseOf(strict)), us, true, m, false, a);
    w.Some? && Holds(memory, w.value)
  }

  predicate Agrees(own: map<string, Json>, m: map<string, Json>) {
    forall key :: key in own ==> key in m && m[key] == own[key]
  }

  lemma {:induction false} RebuiltMembers(members: PG.Members, us: seq<U.Arg>, memory: seq<U.Value>,
                                          m: map<string, Json>, a: nat, strict: bool)
    requires StoredMembers(members, us, memory, m, a, strict)
    ensures var own := PG.DenoteMembers(members, Refill(us, memory), a);
      own.Some? && Agrees(own.value.0, m) <==> FaithfulMembers(members, us, m, a, strict)
    decreases members, 0
  {
    hide Holds, PG.Denote, UG.Fits, Mirrors, Shared, Faithful, UG.Arity, CString, KeyNames, PG.TextValue;
    hide UG.FitsMembers, PG.DenoteMembers, Width;
    match members
    case MNil => NoKeys(Refill(us, memory), us, a);
    case MCons(_, head, _, tail) =>
      var close := CloseOf(strict);
      var ps := Refill(us, memory);
      var b := a + 1 + Width(head);
      FitsNeedKeys(ToMembers(members, close), us, m, a);
      var key := CString(us[a].key.value);
      WidthAnyClose(head, close);
      UG.FitsFirst(ToMembers(members, close), us, true, m, false, a);
      TextOf(members.key, ps, a, us[a].key.value);
      CStringTwice(us[a].key.value);
      var own := PG.DenoteMembers(members, ps, a);
      var v := PG.Denote(head, false, ps, a + 1);
      if v.Some? {
        SharedIsDual(head);
        DenoteWidth(head, false, ps, a + 1);
      }
      DenoteOne(members, ps, a, key);
      if own.Some? {
        SharedMembersAreDual(tail);
        KeysAgree(tail, close, ps, us, b);
      }
      if key in m {
        HoldsParts(memory, UG.Fits(ToUnpack(head, close), us, true, m[key], false, a + 1).value,
                   UG.FitsMembers(ToMembers(tail, close), us, true, m, false, b).value);
        Rebuilt(head, us, memory, m[key], a + 1, strict);
        RebuiltMembers(tail, us, memory, m, b, strict);
      } else if own.Some? {
        assert key in own.value.0;
      }
  }

  lemma FitsNeedKeys(members: UG.Members, us: seq<U.Arg>, m: map<string, Json>, a: nat)
    requires members.MCons? && UG.FitsMembers(members, us, true, m, false, a).Some?
    ensures UG.IsKey(us, a)
  {
  }

  /** The members with the first one, whose key is `key`. */
  lemma DenoteOne(members: PG.Members, ps: seq<P.Arg>, a: nat, key: string)
    requires members.MCons? && !members.star
    requires PG.TextValue(members.key, false, ps, a) == Some((Str(key), a + 1)) && CString(key) == key
    ensures var v := PG.Denote(members.head, false, ps, a + 1);
      PG.DenoteMembers(members, ps, a) ==
      if v.None? then None
      else
        var rest := PG.DenoteMembers(members.tail, ps, v.value.1);
        if rest.None? then None else Some((map[key := v.value.0] + rest.value.0, rest.value.1))
  {
    hide PG.Denote, PG.TextValue, CString;
  }

  // ---------------------------------------------------------------- the theorem

  /** The two argument lists have the same keys. */
  predicate SameKeys(ps: seq<P.Arg>, ps': seq<P.Arg>, us: seq<U.Arg>) {
    |ps| == |ps'| == |us| && forall i :: 0 <= i < |us| && us[i].KeyArg? ==> ps[i] == ps'[i]
  }

  lemma {:induction false} MirrorsKeys(f: PG.Fmt, ps: seq<P.Arg>, ps': seq<P.Arg>, us: seq<U.Arg>, a: nat)
    requires SameKeys(ps, ps', us) && Mirrors(f, ps, us, a)
    ensures Mirrors(f, ps', us, a)
  {
    match f
    case FArr(items) => MirrorsKeysOfItems(items, ps, ps', us, a);
    case FObj(members) => MirrorsKeysOfMembers(members, ps, ps', us, a);
    case _ =>
  }

  lemma {:induction false} MirrorsKeysOfItems(items: PG.Items, ps: seq<P.Arg>, ps': seq<P.Arg>, us: seq<U.Arg>, a: nat)
    requires SameKeys(ps, ps', us) && MirrorsItems(items, ps, us, a)
    ensures MirrorsItems(items, ps', us, a)
  {
    if items.ICons? {
      MirrorsKeys(items.head, ps, ps', us, a);
      MirrorsKeysOfItems(items.tail, ps, ps', us, a + Width(items.head));
    }
  }

  lemma {:induction false} MirrorsKeysOfMembers(members: PG.Members, ps: seq<P.Arg>, ps': seq<P.Arg>, us: seq<U.Arg>,
                                                a: nat)
    requires SameKeys(ps, ps', us) && MirrorsMembers(members, ps, us, a)
    ensures MirrorsMembers(members, ps', us, a) && KeyNames(members, ps', a) == KeyNames(members, ps, a)
  {
    hide Mirrors, CString, Width;
    if members.MCons? {
      MirrorsKeys(members.head, ps, ps', us, a + 1);
      MirrorsKeysOfMembers(members.tail, ps, ps', us, a + 1 + Width(members.head));
    }
  }

  /** Whatever tree has been unpacked with a shared format, plain or strict, into targets of its own, packing the
      stored values with that format builds the tree again exactly when it is faithful to the format and the format
      nests no more containers than packing allows, which is one less than unpacking allows. */
  lemma UnpackThenPack(f: PG.Fmt, desc: string, us: seq<U.Arg>, j: Json, start: seq<U.Value>, strict: bool)
    requires PG.IsFormat(f, desc) && Shared(f) && OwnTargets(us, |start|)
    requires Mirrors(f, Refill(us, start), us, 0)
    requires U.Meaning(j, Some(Strictly(desc, strict)), us, true).Unpacked?
    ensures var memory := V.Apply(start, U.Meaning(j, Some(Strictly(desc, strict)), us, true).writes);
      P.Meaning(Some(desc), Refill(us, memory)) == P.Packed(j)
      <==> Faithful(f, us, j, 0, strict) && PG.Depth(f) < STACKCOUNT
  {
    hide Strictly, PG.IsFormat, UG.IsFormat, PG.Denote, UG.Fits, Mirrors, Shared, ToUnpack, U.Meaning;
    hide P.Meaning, Faithful;
    hide PG.Depth, UG.Depth, PG.Small, V.Apply, Holds, Refill;
    var to := Strictly(desc, strict);
    var u := ToUnpack(f, CloseOf(strict));
    var w := U.Meaning(j, Some(to), us, true).writes;
    var memory := V.Apply(start, w);
    FormatCarries(f, desc, strict);
    One.UnpackByReading(u, to, j, us, true, w);
    FitWritesOwn(u, us, true, |start|, j, false, 0);
    WritesStay(start, w);
    assert SameKeys(Refill(us, start), Refill(us, memory), us) by {
      KeysStay(us, start, memory);
    }
    MirrorsKeys(f, Refill(us, start), Refill(us, memory), us, 0);
    Rebuilt(f, us, memory, j, 0, strict);
    SharedIsSmall(f);
    One.PackByReading(f, desc, Refill(us, memory), j);
  }

  /** An integer of more than 32 bits read by `i` comes back as the largest int. */
  lemma IntegerIsClamped()
    ensures U.Meaning(Int(0x1_0000_0000), Some("i"), [U.IntPtr(Some(0))], true)
         == U.Unpacked([U.Write(0, U.IntVal(0x7fff_ffff))])
    ensures P.Meaning(Some("i"), [P.IntArg(0x7fff_ffff)]) == P.Packed(Int(0x7fff_ffff))
  {
    assert Skip("i", 0) == 0 && Skip("i", 1) == 1;
  }

  lemma KeysStay(us: seq<U.Arg>, memory: seq<U.Value>, memory': seq<U.Value>)
    requires OwnTargets(us, |memory|) && |memory| == |memory'|
    ensures SameKeys(Refill(us, memory), Refill(us, memory'), us)
  {
  }

  lemma {:induction false} SharedIsSmall(f: PG.Fmt)
    requires Shared(f)
    ensures PG.Small(f)
  {
    match f
    case FArr(items) => SharedItemsAreSmall(items);
    case FObj(members) => SharedMembersAreSmall(members);
    case _ =>
  }

  lemma {:induction false} SharedItemsAreSmall(items: PG.Items)
    requires SharedItems(items)
    ensures PG.SmallItems(items)
  {
    if items.ICons? {
      SharedIsSmall(items.head);
      SharedItemsAreSmall(items.tail);
    }
  }

  lemma {:induction false} SharedMembersAreSmall(members: PG.Members)
    requires SharedMembers(members)
    ensures PG.SmallMembers(members)
  {
    if members.MCons? {
      SharedIsSmall(members.head);
      SharedMembersAreSmall(members.tail);
    }
  }
}
