/** The grammar of unpacking formats as a syntax tree, what it means for a JSON tree to fit it, and
    the theorem that vunpack succeeds exactly on the trees that fit, storing what the fit says. */
module WrapJsonUnpackGrammar {
  import opened Options
  import opened WrapJsonBase
  import opened WrapJsonUnpack

  /** How a container ends: with its closer alone, or with `*` or `!` before it. */
  datatype Close = Plain | Star | Bang

  /** A leaf is one of the scalar specifiers, a string possibly with `%`. */
  datatype Fmt =
    | FLeaf(c: char, sized: bool)
    | FArr(items: Items, close: Close)
    | FObj(members: Members, close: Close)

  datatype Items = INil | ICons(head: Fmt, tail: Items)

  datatype Members = MNil | MCons(optional: bool, head: Fmt, tail: Members)

  // ---------------------------------------------------------------- spelling

  /** The cursor after the spelling of `f` that starts at cursor `o`, if it is spelled there. */
  function Spells(f: Fmt, desc: string, o: Option<nat>): Option<nat> {
    match f
    case FLeaf(c, sized) => if Scalar(c) && (sized ==> c == 's') then EatIf(desc, Eat(desc, o, c), sized, '%') else None
    case FArr(items, close) => SpellsClose(close, ']', desc, SpellsItems(items, desc, Eat(desc, o, '[')))
    case FObj(members, close) => SpellsClose(close, '}', desc, SpellsMembers(members, desc, Eat(desc, o, '{')))
  }

  function SpellsClose(close: Close, closer: char, desc: string, o: Option<nat>): Option<nat> {
    Eat(desc, if close.Plain? then o else Eat(desc, o, if close.Star? then '*' else '!'), closer)
  }

  function SpellsItems(items: Items, desc: string, o: Option<nat>): Option<nat> {
    match items
    case INil => o
    case ICons(head, tail) => SpellsItems(tail, desc, Spells(head, desc, o))
  }

  function SpellsMembers(members: Members, desc: string, o: Option<nat>): Option<nat> {
    match members
    case MNil => o
    case MCons(optional, head, tail) =>
      SpellsMembers(tail, desc, Spells(head, desc, EatIf(desc, Eat(desc, o, 's'), optional, '?')))
  }

  /** The whole format string spells `f`. */
  predicate IsFormat(f: Fmt, desc: string) {
    var e := Spells(f, desc, Some(Skip(desc, 0)));
    e.Some? && At(desc, e.value) == '\0'
  }

  // ---------------------------------------------------------------- sizes

  /** How many containers are nested. */
  function Depth(f: Fmt): nat {
    match f
    case FLeaf(_, _) => 0
    case FArr(items, _) => 1 + DepthItems(items)
    case FObj(members, _) => 1 + DepthMembers(members)
  }

  function DepthItems(items: Items): nat {
    match items
    case INil => 0
    case ICons(head, tail) => Max(Depth(head), DepthItems(tail))
  }

  function DepthMembers(members: Members): nat {
    match members
    case MNil => 0
    case MCons(_, head, tail) => Max(Depth(head), DepthMembers(tail))
  }

  /** How many arguments `f` takes: keys always, targets only when storing. */
  function Arity(f: Fmt, store: bool): nat {
    match f
    case FLeaf(c, sized) => if !store || c == 'n' then 0 else if sized then 2 else 1
    case FArr(items, _) => ArityItems(items, store)
    case FObj(members, _) => ArityMembers(members, store)
  }

  function ArityItems(items: Items, store: bool): nat {
    match items
    case INil => 0
    case ICons(head, tail) => Arity(head, store) + ArityItems(tail, store)
  }

  function ArityMembers(members: Members, store: bool): nat {
    match members
    case MNil => 0
    case MCons(_, head, tail) => 1 + Arity(head, store) + ArityMembers(tail, store)
  }

  function Count(items: Items): nat {
    match items
    case INil => 0
    case ICons(_, tail) => 1 + Count(tail)
  }

  // ---------------------------------------------------------------- fitting

  predicate IsKey(args: seq<Arg>, a: nat) {
    a < |args| && args[a].KeyArg? && args[a].key.Some?
  }

  /** The keys an object format looks up, in order; its first argument is at `a`. */
  function LookedUp(members: Members, args: seq<Arg>, store: bool, a: nat): seq<string> {
    match members
    case MNil => []
    case MCons(_, head, tail) =>
      (if IsKey(args, a) then [CString(args[a].key.value)] else [])
        + LookedUp(tail, args, store, a + 1 + Arity(head, store))
  }

  /** How many lookups succeed. */
  function Found(keys: seq<string>, members: map<string, Json>): nat {
    if keys == [] then 0 else (if keys[0] in members then 1 else 0) + Found(keys[1..], members)
  }

  /** Whether the tree `obj` fits `f`, whose first argument is at `a`; if so, the targets to be written, in
      order. When `skip` holds the value is absent: anything fits, provided the arguments are there. */
  function Fits(f: Fmt, args: seq<Arg>, store: bool, obj: Json, skip: bool, a: nat): Option<seq<Write>> {
    match f
    case FLeaf(c, sized) => FitsLeaf(c, sized, args, store, obj, skip, a)
    case FArr(items, close) =>
      if skip then FitsItems(items, args, store, [], true, a)
      else if !obj.Arr? || Count(items) > |obj.elems| || (close.Bang? && Count(items) != |obj.elems|) then None
      else FitsItems(items, args, store, obj.elems, false, a)
    case FObj(members, close) =>
      if skip then FitsMembers(members, args, store, map[], true, a)
      else if !obj.Obj? then None
      else if close.Bang? && Found(LookedUp(members, args, store, a), obj.members) != |obj.members| then None
      else FitsMembers(members, args, store, obj.members, false, a)
  }

  function FitsLeaf(c: char, sized: bool, args: seq<Arg>, store: bool, obj: Json, skip: bool,
                    a: nat): Option<seq<Write>> {
    if !skip && !HasType(c, obj) then None
    else if !store || c == 'n' then Some([])
    else if !(a < |args| && PointerFor(c, args[a])) then None
    else
      var value := if skip then [] else WriteIf(false, args[a], Stored(c, obj));
      if !sized then Some(value)
      else if !(a + 1 < |args| && args[a + 1].SizePtr?) || (!skip && !obj.Str?) then None
      else Some(value + WriteIf(skip, args[a + 1], SizeVal(if skip then 0 else |obj.s|)))
  }

  /** The items of a format fit the first elements of an array, one by one. */
  function FitsItems(items: Items, args: seq<Arg>, store: bool, elems: seq<Json>, skip: bool,
                     a: nat): Option<seq<Write>> {
    match items
    case INil => Some([])
    case ICons(head, tail) =>
      if !skip && elems == [] then None
      else
        var first := Fits(head, args, store, if skip then Null else elems[0], skip, a);
        var rest := FitsItems(tail, args, store, if skip then [] else elems[1..], skip, a + Arity(head, store));
        if first.Some? && rest.Some? then Some(first.value + rest.value) else None
  }

  /** Every key is there or optional; the value of a key that is there fits. */
  function FitsMembers(members: Members, args: seq<Arg>, store: bool, m: map<string, Json>, skip: bool,
                       a: nat): Option<seq<Write>> {
    match members
    case MNil => Some([])
    case MCons(optional, head, tail) =>
      if !IsKey(args, a) then None
      else
        var key := CString(args[a].key.value);
        var there := !skip && key in m;
        if !skip && !there && !optional then None
        else
          var first := Fits(head, args, store, if there then m[key] else Null, !there, a + 1);
          var rest := FitsMembers(tail, args, store, m, skip, a + 1 + Arity(head, store));
          if first.Some? && rest.Some? then Some(first.value + rest.value) else None
  }

  // ---------------------------------------------------------------- everything accepted is spelled and fits

  lemma LeafSound(k: Call, p: Place, obj: Json, skip: bool) returns (f: Fmt)
    requires p.d < |k.desc| && Scalar(At(k.desc, p.d)) && ReadScalar(k, p, obj, skip).Done?
    ensures var q := ReadScalar(k, p, obj, skip).p;
      var w := Fits(f, k.args, k.store, obj, skip, p.a);
      && f.FLeaf? && Spells(f, k.desc, Some(p.d)) == Some(q.d) && q.a == p.a + Arity(f, k.store)
      && w.Some? && q.writes == p.writes + w.value
  {
    hide Skip, Next;
    var c := At(k.desc, p.d);
    f := FLeaf(c, c == 's' && At(k.desc, Next(k.desc, p.d)) == '%');
    assert p.writes + [] + [] == p.writes;
    if !skip && k.store && c != 'n' {
      var value := WriteIf(false, k.args[p.a], Stored(c, obj));
      assert p.writes + value + [] == p.writes + value;
      if f.sized {
        var size := WriteIf(false, k.args[p.a + 1], SizeVal(|obj.s|));
        assert p.writes + value + size == p.writes + (value + size);
      }
    }
  }

  lemma {:induction false} ValueSound(k: Call, p: Place, obj: Json, skip: bool, depth: nat) returns (f: Fmt)
    requires p.d <= |k.desc| && depth <= STACKCOUNT && ReadValue(k, p, obj, skip, depth).Done?
    ensures var q := ReadValue(k, p, obj, skip, depth).p;
      var w := Fits(f, k.args, k.store, obj, skip, p.a);
      && Spells(f, k.desc, Some(p.d)) == Some(q.d) && q.a == p.a + Arity(f, k.store)
      && w.Some? && q.writes == p.writes + w.value && depth + Depth(f) <= STACKCOUNT
    decreases |k.desc| - p.d, 0
  {
    hide Skip, Next, ReadScalar, ReadItems, ReadMembers, FitsLeaf, FitsItems, FitsMembers, SpellsItems;
    hide SpellsMembers, SpellsClose, Found, LookedUp;
    var q := p.(d := Next(k.desc, p.d));
    match At(k.desc, p.d)
    case '[' =>
      var items, close := ItemsSound(k, q, if skip then [] else obj.elems, 0, skip, depth + 1);
      f := FArr(items, close);
      assert !skip ==> obj.elems[0..] == obj.elems;
    case '{' =>
      var members, close := MembersSound(k, q, if skip then map[] else obj.members, 0, skip, depth + 1);
      f := FObj(members, close);
    case _ =>
      f := LeafSound(k, p, obj, skip);
  }

  /** What a completed end of a container tells. */
  lemma EndSound(k: Call, p: Place, closer: char, complete: bool) returns (close: Close)
    requires p.d < |k.desc| && (closer == ']' || closer == '}') && Ends(At(k.desc, p.d), closer)
    requires ReadEnd(k, p, closer, complete).Done?
    ensures var q := ReadEnd(k, p, closer, complete).p;
      && SpellsClose(close, closer, k.desc, Some(p.d)) == Some(q.d) && q.a == p.a && q.writes == p.writes
      && (close.Bang? ==> complete)
  {
    hide Skip, Next;
    close := if At(k.desc, p.d) == '!' then Bang else if At(k.desc, p.d) == '*' then Star else Plain;
  }

  /** One turn of an array: its end, or one more item. */
  lemma ItemsTurn(k: Call, p: Place, elems: seq<Json>, index: nat, skip: bool, depth: nat)
    requires p.d <= |k.desc| && index <= |elems|
    ensures var r := ReadItems(k, p, elems, index, skip, depth);
      var c := At(k.desc, p.d);
      && (r.Done? ==> c != '\0' && (Ends(c, ']') || (Starts(c) && (skip || index < |elems|))))
      && (c != '\0' && Ends(c, ']') ==> r == ReadEnd(k, p, ']', skip || index == |elems|))
      && (Starts(c) && (skip || index < |elems|) ==>
           var v := ReadValue(k, p, if skip then Null else elems[index], skip, depth);
           r == if v.Done? then ReadItems(k, v.p, elems, if skip then index else index + 1, skip, depth) else v)
  {
    hide Skip, Next, ReadValue, ReadEnd;
  }

  lemma {:induction false} ItemsSound(k: Call, p: Place, elems: seq<Json>, index: nat, skip: bool, depth: nat)
    returns (items: Items, close: Close)
    requires p.d <= |k.desc| && depth <= STACKCOUNT && index <= |elems|
    requires ReadItems(k, p, elems, index, skip, depth).Done?
    ensures var q := ReadItems(k, p, elems, index, skip, depth).p;
      var w := FitsItems(items, k.args, k.store, if skip then [] else elems[index..], skip, p.a);
      && SpellsClose(close, ']', k.desc, SpellsItems(items, k.desc, Some(p.d))) == Some(q.d)
      && q.a == p.a + ArityItems(items, k.store)
      && w.Some? && q.writes == p.writes + w.value && depth + DepthItems(items) <= STACKCOUNT
      && (!skip ==> index + Count(items) <= |elems| && (close.Bang? ==> index + Count(items) == |elems|))
    decreases |k.desc| - p.d, 1
  {
    hide Skip, Next, ReadItems, ReadValue, ReadEnd, Fits, Spells, SpellsClose, Arity, Depth;
    ItemsTurn(k, p, elems, index, skip, depth);
    if Ends(At(k.desc, p.d), ']') {
      close := EndSound(k, p, ']', skip || index == |elems|);
      items := INil;
      assert p.writes + [] == p.writes;
    } else {
      var obj := if skip then Null else elems[index];
      var v := ReadValue(k, p, obj, skip, depth).p;
      var head := ValueSound(k, p, obj, skip, depth);
      var tail;
      tail, close := ItemsSound(k, v, elems, if skip then index else index + 1, skip, depth);
      items := ICons(head, tail);
      var first := Fits(head, k.args, k.store, obj, skip, p.a).value;
      var rest := FitsItems(tail, k.args, k.store, if skip then [] else elems[index + 1..], skip, v.a).value;
      assert p.writes + first + rest == p.writes + (first + rest);
      assert !skip ==> elems[index..][0] == elems[index] && elems[index..][1..] == elems[index + 1..];
    }
  }

  /** One turn of an object at a key. */
  lemma MembersTurn(k: Call, p: Place, m: map<string, Json>, found: nat, skip: bool, depth: nat)
    requires p.d <= |k.desc| && At(k.desc, p.d) == 's' && ReadKey(k, p).Done?
    ensures var q := ReadKey(k, p).p;
      var r := ReadMembers(k, p, m, found, skip, depth);
      var key := CString(k.args[p.a].key.value);
      var there := !skip && key in m;
      if !skip && !there && At(k.desc, Next(k.desc, p.d)) != '?' then !r.Done?
      else
        var v := ReadValue(k, q, if there then m[key] else Null, !there, depth);
        r == if v.Done? then ReadMembers(k, v.p, m, if there then found + 1 else found, skip, depth) else v
  {
    hide Skip, Next, ReadValue, CString, ReadKey;
  }

  /** One turn of an object: its end, or a key that can be read. */
  lemma MembersCases(k: Call, p: Place, m: map<string, Json>, found: nat, skip: bool, depth: nat)
    requires p.d <= |k.desc|
    ensures var r := ReadMembers(k, p, m, found, skip, depth);
      && (At(k.desc, p.d) != '\0' && Ends(At(k.desc, p.d), '}') ==> r == ReadEnd(k, p, '}', skip || found == |m|))
      && (r.Done? ==>
        At(k.desc, p.d) != '\0' && (Ends(At(k.desc, p.d), '}') || (At(k.desc, p.d) == 's' && ReadKey(k, p).Done?)))
  {
    hide Skip, Next, ReadValue, CString, ReadKey, ReadEnd;
  }

  /** The first member fits, and the others do. */
  lemma FitsFirst(members: Members, args: seq<Arg>, store: bool, m: map<string, Json>, skip: bool, a: nat)
    requires members.MCons? && IsKey(args, a)
    ensures var key := CString(args[a].key.value);
      var there := !skip && key in m;
      var first := Fits(members.head, args, store, if there then m[key] else Null, !there, a + 1);
      var rest := FitsMembers(members.tail, args, store, m, skip, a + 1 + Arity(members.head, store));
      FitsMembers(members, args, store, m, skip, a)
      == if (skip || there || members.optional) && first.Some? && rest.Some?
         then Some(first.value + rest.value) else None
  {
    hide CString, Arity, Fits;
  }

  /** What a key and the keys after it contribute. */
  lemma LookedUpFirst(members: Members, args: seq<Arg>, store: bool, a: nat, m: map<string, Json>)
    requires members.MCons? && IsKey(args, a)
    ensures Found(LookedUp(members, args, store, a), m)
         == (if CString(args[a].key.value) in m then 1 else 0)
           + Found(LookedUp(members.tail, args, store, a + 1 + Arity(members.head, store)), m)
  {
    hide CString, Arity;
    var keys := LookedUp(members.tail, args, store, a + 1 + Arity(members.head, store));
    var key := CString(args[a].key.value);
    assert ([key] + keys)[0] == key && ([key] + keys)[1..] == keys;
  }

  lemma {:induction false} MembersSound(k: Call, p: Place, m: map<string, Json>, found: nat, skip: bool, depth: nat)
    returns (members: Members, close: Close)
    requires p.d <= |k.desc| && depth <= STACKCOUNT && ReadMembers(k, p, m, found, skip, depth).Done?
    ensures var q := ReadMembers(k, p, m, found, skip, depth).p;
      var w := FitsMembers(members, k.args, k.store, m, skip, p.a);
      && SpellsClose(close, '}', k.desc, SpellsMembers(members, k.desc, Some(p.d))) == Some(q.d)
      && q.a == p.a + ArityMembers(members, k.store)
      && w.Some? && q.writes == p.writes + w.value && depth + DepthMembers(members) <= STACKCOUNT
      && (!skip && close.Bang? ==> found + Found(LookedUp(members, k.args, k.store, p.a), m) == |m|)
    decreases |k.desc| - p.d, 1
  {
    hide Skip, Next, ReadValue, ReadEnd, ReadMember, ReadMembers, Fits, FitsMembers, Spells, SpellsClose;
    hide Arity, Depth, CString, Found, LookedUp;
    MembersCases(k, p, m, found, skip, depth);
    if Ends(At(k.desc, p.d), '}') {
      close := EndSound(k, p, '}', skip || found == |m|);
      members := MNil;
      NoMembers(k, p, m, skip);
    } else {
      var q := ReadKey(k, p).p;
      MembersTurn(k, p, m, found, skip, depth);
      var key := CString(k.args[p.a].key.value);
      var there := !skip && key in m;
      var obj := if there then m[key] else Null;
      var v := ReadValue(k, q, obj, !there, depth).p;
      var head := ValueSound(k, q, obj, !there, depth);
      var tail;
      tail, close := MembersSound(k, v, m, if there then found + 1 else found, skip, depth);
      members := MCons(At(k.desc, Next(k.desc, p.d)) == '?', head, tail);
      var first := Fits(head, k.args, k.store, obj, !there, q.a).value;
      var rest := FitsMembers(tail, k.args, k.store, m, skip, v.a).value;
      assert p.writes + first + rest == p.writes + (first + rest);
      LookedUpFirst(members, k.args, k.store, p.a, m);
      FitsFirst(members, k.args, k.store, m, skip, p.a);
    }
  }

  lemma NoMembers(k: Call, p: Place, m: map<string, Json>, skip: bool)
    ensures FitsMembers(MNil, k.args, k.store, m, skip, p.a) == Some([])
    ensures Found(LookedUp(MNil, k.args, k.store, p.a), m) == 0
    ensures p.writes + [] == p.writes
  {
  }

  // ---------------------------------------------------------------- everything that fits is accepted

  lemma {:induction false} FromNothing(f: Fmt, desc: string)
    ensures Spells(f, desc, None).None?
  {
    match f
    case FArr(items, _) => ItemsFromNothing(items, desc);
    case FObj(members, _) => MembersFromNothing(members, desc);
    case _ =>
  }

  lemma {:induction false} ItemsFromNothing(items: Items, desc: string)
    ensures SpellsItems(items, desc, None).None?
  {
    if items.ICons? {
      FromNothing(items.head, desc);
      ItemsFromNothing(items.tail, desc);
    }
  }

  lemma {:induction false} MembersFromNothing(members: Members, desc: string)
    ensures SpellsMembers(members, desc, None).None?
  {
    if members.MCons? {
      FromNothing(members.head, desc);
      MembersFromNothing(members.tail, desc);
    }
  }

  lemma FirstCharacter(f: Fmt, desc: string, d: nat)
    requires Spells(f, desc, Some(d)).Some?
    ensures match f
      case FLeaf(c, _) => Scalar(c) && At(desc, d) == c
      case FArr(_, _) => At(desc, d) == '['
      case FObj(_, _) => At(desc, d) == '{'
  {
    hide Skip, Next;
    match f
    case FArr(items, close) => if At(desc, d) != '[' { ItemsFromNothing(items, desc); }
    case FObj(members, close) => if At(desc, d) != '{' { MembersFromNothing(members, desc); }
    case _ =>
  }

  lemma FirstOfClose(close: Close, closer: char, desc: string, d: nat)
    requires SpellsClose(close, closer, desc, Some(d)).Some? && closer != '\0'
    ensures Ends(At(desc, d), closer)
  {
    hide Skip, Next;
  }

  /** Where the first item of an array is spelled, and what stands after it. */
  lemma SpelledItem(items: Items, close: Close, desc: string, d: nat)
    requires items.ICons? && SpellsClose(close, ']', desc, SpellsItems(items, desc, Some(d))).Some?
    ensures Starts(At(desc, d))
    ensures var e := Spells(items.head, desc, Some(d));
      e.Some? && At(desc, e.value) != '%' && SpellsItems(items, desc, Some(d)) == SpellsItems(items.tail, desc, e)
  {
    hide Skip, Next, Spells, SpellsClose;
    var e := Spells(items.head, desc, Some(d));
    CloseFromNothing(close, ']', desc);
    if e.None? {
      ItemsFromNothing(items.tail, desc);
    }
    FirstCharacter(items.head, desc, d);
    match items.tail
    case INil => FirstOfClose(close, ']', desc, e.value);
    case ICons(next, more) =>
      if Spells(next, desc, e).None? {
        ItemsFromNothing(more, desc);
      }
      FirstCharacter(next, desc, e.value);
  }

  lemma CloseFromNothing(close: Close, closer: char, desc: string)
    ensures SpellsClose(close, closer, desc, None).None?
  {
  }

  /** Where the first member of an object is spelled, and what stands after its key and its value. */
  lemma SpelledMember(members: Members, close: Close, desc: string, d: nat)
    requires members.MCons? && SpellsClose(close, '}', desc, SpellsMembers(members, desc, Some(d))).Some?
    ensures At(desc, d) == 's'
    ensures var ek := EatIf(desc, Some(Next(desc, d)), members.optional, '?');
      && ek.Some? && (members.optional <==> At(desc, Next(desc, d)) == '?')
      && var e := Spells(members.head, desc, ek);
      && e.Some? && At(desc, e.value) != '%'
      && SpellsMembers(members, desc, Some(d)) == SpellsMembers(members.tail, desc, e)
  {
    hide Skip, Next, Spells, SpellsClose;
    var ek := EatIf(desc, Eat(desc, Some(d), 's'), members.optional, '?');
    var e := Spells(members.head, desc, ek);
    CloseFromNothing(close, '}', desc);
    if ek.None? {
      FromNothing(members.head, desc);
    }
    if e.None? {
      MembersFromNothing(members.tail, desc);
    }
    FirstCharacter(members.head, desc, ek.value);
    match members.tail
    case MNil => FirstOfClose(close, '}', desc, e.value);
    case MCons(optional, next, more) =>
      if At(desc, e.value) != 's' {
        FromNothing(next, desc);
        MembersFromNothing(more, desc);
      }
  }

  lemma LeafComplete(k: Call, f: Fmt, p: Place, obj: Json, skip: bool)
    requires p.d <= |k.desc| && f.FLeaf? && Fits(f, k.args, k.store, obj, skip, p.a).Some?
    requires var e := Spells(f, k.desc, Some(p.d)); e.Some? && At(k.desc, e.value) != '%'
    ensures p.d < |k.desc| && At(k.desc, p.d) == f.c && Scalar(f.c)
    ensures ReadScalar(k, p, obj, skip)
         == Done(Place(Spells(f, k.desc, Some(p.d)).value, p.a + Arity(f, k.store),
                       p.writes + Fits(f, k.args, k.store, obj, skip, p.a).value))
  {
    hide Skip, Next;
    var c := f.c;
    assert p.writes + [] + [] == p.writes;
    if !skip && k.store && c != 'n' {
      var value := WriteIf(false, k.args[p.a], Stored(c, obj));
      assert p.writes + value + [] == p.writes + value;
      if f.sized {
        var size := WriteIf(false, k.args[p.a + 1], SizeVal(|obj.s|));
        assert p.writes + value + size == p.writes + (value + size);
      }
    }
  }

  lemma {:induction false} ValueComplete(k: Call, f: Fmt, p: Place, obj: Json, skip: bool, depth: nat)
    requires p.d <= |k.desc| && depth + Depth(f) <= STACKCOUNT && Fits(f, k.args, k.store, obj, skip, p.a).Some?
    requires var e := Spells(f, k.desc, Some(p.d)); e.Some? && At(k.desc, e.value) != '%'
    ensures ReadValue(k, p, obj, skip, depth)
         == Done(Place(Spells(f, k.desc, Some(p.d)).value, p.a + Arity(f, k.store),
                       p.writes + Fits(f, k.args, k.store, obj, skip, p.a).value))
    decreases f
  {
    hide Skip, Next, ReadScalar, ReadItems, ReadMembers, FitsLeaf, FitsItems, FitsMembers, SpellsItems;
    hide SpellsMembers, SpellsClose, Found, LookedUp;
    FirstCharacter(f, k.desc, p.d);
    var q := p.(d := Next(k.desc, p.d));
    match f
    case FArr(items, close) =>
      assert !skip ==> obj.elems[0..] == obj.elems;
      ItemsComplete(k, items, close, q, if skip then [] else obj.elems, 0, skip, depth + 1);
    case FObj(members, close) =>
      MembersComplete(k, members, close, q, if skip then map[] else obj.members, 0, skip, depth + 1);
    case _ =>
      LeafComplete(k, f, p, obj, skip);
  }

  lemma EndComplete(k: Call, p: Place, close: Close, closer: char, complete: bool)
    requires p.d <= |k.desc| && (closer == ']' || closer == '}') && SpellsClose(close, closer, k.desc, Some(p.d)).Some?
    requires close.Bang? ==> complete
    ensures p.d < |k.desc| && Ends(At(k.desc, p.d), closer) && At(k.desc, p.d) != '\0'
    ensures ReadEnd(k, p, closer, complete) == Done(p.(d := SpellsClose(close, closer, k.desc, Some(p.d)).value))
  {
    hide Skip, Next;
  }

  lemma {:induction false} ItemsComplete(k: Call, items: Items, close: Close, p: Place, elems: seq<Json>, index: nat,
                                         skip: bool, depth: nat)
    requires p.d <= |k.desc| && depth + DepthItems(items) <= STACKCOUNT && index <= |elems|
    requires SpellsClose(close, ']', k.desc, SpellsItems(items, k.desc, Some(p.d))).Some?
    requires FitsItems(items, k.args, k.store, if skip then [] else elems[index..], skip, p.a).Some?
    requires !skip ==> index + Count(items) <= |elems| && (close.Bang? ==> index + Count(items) == |elems|)
    ensures ReadItems(k, p, elems, index, skip, depth)
         == Done(Place(SpellsClose(close, ']', k.desc, SpellsItems(items, k.desc, Some(p.d))).value,
                       p.a + ArityItems(items, k.store),
                       p.writes
                       + FitsItems(items, k.args, k.store, if skip then [] else elems[index..], skip, p.a).value))
    decreases items
  {
    hide Skip, Next, ReadItems, ReadValue, ReadEnd, Fits, Spells, SpellsClose, Arity, Depth;
    ItemsTurn(k, p, elems, index, skip, depth);
    match items
    case INil =>
      EndComplete(k, p, close, ']', skip || index == |elems|);
      assert p.writes + [] == p.writes;
    case ICons(head, tail) =>
      SpelledItem(items, close, k.desc, p.d);
      assert !skip ==> elems[index..][0] == elems[index] && elems[index..][1..] == elems[index + 1..];
      var obj := if skip then Null else elems[index];
      ValueComplete(k, head, p, obj, skip, depth);
      var v := ReadValue(k, p, obj, skip, depth).p;
      ItemsComplete(k, tail, close, v, elems, if skip then index else index + 1, skip, depth);
      var first := Fits(head, k.args, k.store, obj, skip, p.a).value;
      var rest := FitsItems(tail, k.args, k.store, if skip then [] else elems[index + 1..], skip, v.a).value;
      assert p.writes + first + rest == p.writes + (first + rest);
  }

  lemma KeyComplete(k: Call, members: Members, p: Place, m: map<string, Json>, skip: bool)
    requires p.d < |k.desc| && members.MCons? && FitsMembers(members, k.args, k.store, m, skip, p.a).Some?
    requires members.optional <==> At(k.desc, Next(k.desc, p.d)) == '?'
    ensures IsKey(k.args, p.a) && EatIf(k.desc, Some(Next(k.desc, p.d)), members.optional, '?').Some?
    ensures ReadKey(k, p)
      == Done(Place(EatIf(k.desc, Some(Next(k.desc, p.d)), members.optional, '?').value, p.a + 1, p.writes))
  {
    hide Skip, Next, Fits, CString, Arity;
  }

  lemma {:induction false} MembersComplete(k: Call, members: Members, close: Close, p: Place, m: map<string, Json>,
                                           found: nat, skip: bool, depth: nat)
    requires p.d <= |k.desc| && depth + DepthMembers(members) <= STACKCOUNT
    requires SpellsClose(close, '}', k.desc, SpellsMembers(members, k.desc, Some(p.d))).Some?
    requires FitsMembers(members, k.args, k.store, m, skip, p.a).Some?
    requires !skip && close.Bang? ==> found + Found(LookedUp(members, k.args, k.store, p.a), m) == |m|
    ensures ReadMembers(k, p, m, found, skip, depth)
         == Done(Place(SpellsClose(close, '}', k.desc, SpellsMembers(members, k.desc, Some(p.d))).value,
                       p.a + ArityMembers(members, k.store),
                       p.writes + FitsMembers(members, k.args, k.store, m, skip, p.a).value))
    decreases members
  {
    hide Skip, Next, ReadKey, ReadValue, ReadEnd, ReadMember, ReadMembers, Fits, FitsMembers, Spells;
    hide SpellsClose, Arity, Depth, CString, Found, LookedUp, EatIf;
    MembersCases(k, p, m, found, skip, depth);
    match members
    case MNil =>
      NoMembers(k, p, m, skip);
      EndComplete(k, p, close, '}', skip || found == |m|);
    case MCons(optional, head, tail) =>
      SpelledMember(members, close, k.desc, p.d);
      KeyComplete(k, members, p, m, skip);
      FitsFirst(members, k.args, k.store, m, skip, p.a);
      LookedUpFirst(members, k.args, k.store, p.a, m);
      MembersTurn(k, p, m, found, skip, depth);
      var q := ReadKey(k, p).p;
      var key := CString(k.args[p.a].key.value);
      var there := !skip && key in m;
      var obj := if there then m[key] else Null;
      ValueComplete(k, head, q, obj, !there, depth);
      var v := ReadValue(k, q, obj, !there, depth).p;
      MembersComplete(k, tail, close, v, m, if there then found + 1 else found, skip, depth);
      var first := Fits(head, k.args, k.store, obj, !there, q.a).value;
      var rest := FitsMembers(tail, k.args, k.store, m, skip, v.a).value;
      assert p.writes + first + rest == p.writes + (first + rest);
  }

  /** vunpack succeeds exactly when the format is a word of the grammar that nests at most 32 containers
      and the tree fits it; it then writes what the fit says, in order, and nothing else. */
  lemma UnpackAccepts(obj: Json, desc: string, args: seq<Arg>, store: bool, writes: seq<Write>)
    ensures Meaning(obj, Some(desc), args, store) == Unpacked(writes)
        <==> exists f :: IsFormat(f, desc) && Depth(f) <= STACKCOUNT
                 && Fits(f, args, store, obj, false, 0) == Some(writes)
  {
    hide Skip, ReadValue, Spells, Fits, Depth;
    var k := Call(desc, args, store);
    var p := Place(Skip(desc, 0), 0, []);
    var r := ReadValue(k, p, obj, false, 0);
    assert forall w: seq<Write> :: [] + w == w;
    if Meaning(obj, Some(desc), args, store) == Unpacked(writes) {
      var f := ValueSound(k, p, obj, false, 0);
      assert IsFormat(f, desc) && Depth(f) <= STACKCOUNT && Fits(f, args, store, obj, false, 0) == Some(writes);
    }
    forall f | IsFormat(f, desc) && Depth(f) <= STACKCOUNT && Fits(f, args, store, obj, false, 0) == Some(writes)
      ensures Meaning(obj, Some(desc), args, store) == Unpacked(writes)
    {
      ValueComplete(k, f, p, obj, false, 0);
    }
  }
}
