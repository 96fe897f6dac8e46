/** The documented grammar of packing formats as a syntax tree, the tree's spelling and its
    denotation, and the theorem that wrap_json_vpack accepts exactly the spelled trees. */
module WrapJsonPackGrammar {
  import opened Options
  import opened WrapJsonBase
  import opened WrapJsonPack

  datatype Size = Whole | Percent | Hash

  /** One string argument: an optional length, with `?` before or after it. */
  datatype Frag = Frag(pre: bool, size: Size, post: bool)

  datatype Text = Piece(frag: Frag) | Plus(frag: Frag, rest: Text)

  datatype Fmt =
    | FText(text: Text)
    | FNull
    | FBool
    | FInt
    | FInt64
    | FDouble
    | FAny(own: bool, question: bool)
    | FArr(items: Items)
    | FObj(members: Members)

  datatype Items = INil | ICons(head: Fmt, star: bool, tail: Items)

  datatype Members = MNil | MCons(key: Text, head: Fmt, star: bool, tail: Members)

  // ---------------------------------------------------------------- spelling

  function SpellsFrag(f: Frag, desc: string, o: Option<nat>): Option<nat> {
    var pre := EatIf(desc, o, f.pre, '?');
    var sized := if f.size.Whole? then pre else Eat(desc, pre, if f.size.Percent? then '%' else '#');
    EatIf(desc, sized, f.post, '?')
  }

  function SpellsText(t: Text, desc: string, o: Option<nat>): Option<nat> {
    match t
    case Piece(f) => SpellsFrag(f, desc, o)
    case Plus(f, rest) => SpellsText(rest, desc, Eat(desc, SpellsFrag(f, desc, o), '+'))
  }

  /** The cursor after the spelling of `f` that starts at cursor `o`, if it is spelled there. */
  function Spells(f: Fmt, desc: string, o: Option<nat>): Option<nat> {
    match f
    case FText(t) => SpellsText(t, desc, Eat(desc, o, 's'))
    case FNull => Eat(desc, o, 'n')
    case FBool => Eat(desc, o, 'b')
    case FInt => Eat(desc, o, 'i')
    case FInt64 => Eat(desc, o, 'I')
    case FDouble => Eat(desc, o, 'f')
    case FAny(own, question) => EatIf(desc, Eat(desc, o, if own then 'O' else 'o'), question, '?')
    case FArr(items) => SpellsItems(items, desc, Eat(desc, o, '['))
    case FObj(members) => SpellsMembers(members, desc, Eat(desc, o, '{'))
  }

  function SpellsItems(items: Items, desc: string, o: Option<nat>): Option<nat> {
    match items
    case INil => Eat(desc, o, ']')
    case ICons(head, star, tail) => SpellsItems(tail, desc, EatIf(desc, Spells(head, desc, o), star, '*'))
  }

  function SpellsMembers(members: Members, desc: string, o: Option<nat>): Option<nat> {
    match members
    case MNil => Eat(desc, o, '}')
    case MCons(key, head, star, tail) =>
      SpellsMembers(tail, desc, EatIf(desc, Spells(head, desc, SpellsText(key, desc, Eat(desc, o, 's'))), star, '*'))
  }

  /** The whole format string spells `f`. */
  predicate IsFormat(f: Fmt, desc: string) {
    var e := Spells(f, desc, Some(Skip(desc, 0)));
    e.Some? && At(desc, e.value) == '\0'
  }

  // ---------------------------------------------------------------- limits

  /** How many containers are nested. */
  function Depth(f: Fmt): nat {
    match f
    case FArr(items) => 1 + DepthItems(items)
    case FObj(members) => 1 + DepthMembers(members)
    case _ => 0
  }

  function DepthItems(items: Items): nat {
    match items
    case INil => 0
    case ICons(head, _, tail) => Max(Depth(head), DepthItems(tail))
  }

  function DepthMembers(members: Members): nat {
    match members
    case MNil => 0
    case MCons(_, head, _, tail) => Max(Depth(head), DepthMembers(tail))
  }

  function Pieces(t: Text): nat {
    match t
    case Piece(_) => 1
    case Plus(_, rest) => 1 + Pieces(rest)
  }

  /** No string has more than STRCOUNT fragments. */
  predicate Small(f: Fmt) {
    match f
    case FText(t) => Pieces(t) <= STRCOUNT
    case FArr(items) => SmallItems(items)
    case FObj(members) => SmallMembers(members)
    case _ => true
  }

  predicate SmallItems(items: Items) {
    items.ICons? ==> Small(items.head) && SmallItems(items.tail)
  }

  predicate SmallMembers(members: Members) {
    members.MCons? ==> Pieces(members.key) <= STRCOUNT && Small(members.head) && SmallMembers(members.tail)
  }

  // ---------------------------------------------------------------- denotation

  /** The fragment that the arguments from `a` on give, and the next unused argument. */
  function DenoteFrag(f: Frag, args: seq<Arg>, a: nat): Option<(Fragment, nat)> {
    if !(a < |args| && args[a].StrArg?) then None
    else
      var text := args[a].text;
      match f.size
      case Whole => Some((Fragment(text, if text.Some? then |CString(text.value)| else 0), a + 1))
      case Percent =>
        if a + 1 < |args| && args[a + 1].SizeArg? then Some((Fragment(text, args[a + 1].size), a + 2)) else None
      case Hash => if a + 1 < |args| && args[a + 1].IntArg? then Some((Fragment(text, args[a + 1].i), a + 2)) else None
  }

  function DenoteText(t: Text, args: seq<Arg>, a: nat): Option<(seq<Fragment>, nat)> {
    var one := DenoteFrag(t.frag, args, a);
    match t
    case Piece(_) => if one.Some? then Some(([one.value.0], one.value.1)) else None
    case Plus(_, rest) =>
      if one.None? then None
      else
        var more := DenoteText(rest, args, one.value.1);
        if more.Some? then Some(([one.value.0] + more.value.0, more.value.1)) else None
  }

  predicate Questioned(t: Text) {
    t.frag.pre || t.frag.post || (t.Plus? && Questioned(t.rest))
  }

  /** The concatenation of the fragments; null if all are NULL and `?` or `*` allows it. */
  function TextValue(t: Text, star: bool, args: seq<Arg>, a: nat): Option<(Json, nat)> {
    var r := DenoteText(t, args, a);
    if r.None? then None
    else if NotNull(r.value.0) then
      if AllReadable(r.value.0) then Some((Str(Concat(r.value.0)), r.value.1)) else None
    else if Questioned(t) || star then Some((Null, r.value.1))
    else None
  }

  /** The value `f` denotes for the arguments from `a` on; `star` tells whether `*` follows it. */
  function Denote(f: Fmt, star: bool, args: seq<Arg>, a: nat): Option<(Json, nat)> {
    match f
    case FText(t) => TextValue(t, star, args, a)
    case FNull => Some((Null, a))
    case FBool => if a < |args| && args[a].IntArg? then Some((Bool(args[a].i != 0), a + 1)) else None
    case FInt => if a < |args| && args[a].IntArg? then Some((Int(args[a].i), a + 1)) else None
    case FInt64 => if a < |args| && args[a].Int64Arg? then Some((Int(args[a].l), a + 1)) else None
    case FDouble => if a < |args| && args[a].DoubleArg? then Some((Double(args[a].r), a + 1)) else None
    case FAny(_, question) =>
      if a < |args| && args[a].JsonArg? && (args[a].json != Null || question || star)
      then Some((args[a].json, a + 1))
      else None
    case FArr(items) =>
      var r := DenoteItems(items, args, a);
      if r.None? then None
      else Some((if star && r.value.0 == [] then Null else Arr(r.value.0), r.value.1))
    case FObj(members) =>
      var r := DenoteMembers(members, args, a);
      if r.None? then None
      else Some((if star && r.value.0 == map[] then Null else Obj(r.value.0), r.value.1))
  }

  /** The items in order, without those that are null and followed by `*`. */
  function DenoteItems(items: Items, args: seq<Arg>, a: nat): Option<(seq<Json>, nat)> {
    match items
    case INil => Some(([], a))
    case ICons(head, star, tail) =>
      var v := Denote(head, star, args, a);
      if v.None? then None
      else
        var r := DenoteItems(tail, args, v.value.1);
        if r.None? then None
        else Some(((if star && v.value.0 == Null then [] else [v.value.0]) + r.value.0, r.value.1))
  }

  /** The members, later ones replacing earlier ones, without those that are null and followed by `*`. */
  function DenoteMembers(members: Members, args: seq<Arg>, a: nat): Option<(map<string, Json>, nat)> {
    match members
    case MNil => Some((map[], a))
    case MCons(key, head, star, tail) =>
      var name := TextValue(key, false, args, a);
      if name.None? || !name.value.0.Str? then None
      else
        var v := Denote(head, star, args, name.value.1);
        if v.None? then None
        else
          var r := DenoteMembers(tail, args, v.value.1);
          if r.None? then None
          else
            var first := if star && v.value.0 == Null then map[] else map[CString(name.value.0.s) := v.value.0];
            Some((first + r.value.0, r.value.1))
  }

  // ---------------------------------------------------------------- everything accepted is spelled and denoted

  lemma {:induction false} TextSound(k: Call, d: nat, a: nat, strs: seq<Fragment>, nullable: bool) returns (t: Text)
    requires d <= |k.desc| && |strs| < STRCOUNT
    requires ReadFragments(k, d, a, strs, nullable).Done?
    ensures var r := ReadFragments(k, d, a, strs, nullable);
      && SpellsText(t, k.desc, Some(d)) == Some(r.d)
      && DenoteText(t, k.args, a).Some? && DenoteText(t, k.args, a).value.1 == r.a
      && r.value.0 == strs + DenoteText(t, k.args, a).value.0
      && r.value.1 == (nullable || Questioned(t))
      && |strs| + Pieces(t) <= STRCOUNT
    decreases |k.desc| - d
  {
    hide Skip, Next, CString;
    var one := ReadFragment(k, d, a);
    var f := FragSound(k, d, a);
    if At(k.desc, one.d) != '+' {
      t := Piece(f);
    } else {
      var rest := TextSound(k, Next(k.desc, one.d), one.a, strs + [one.value.0], nullable || one.value.1);
      t := Plus(f, rest);
    }
  }

  lemma FragSound(k: Call, d: nat, a: nat) returns (f: Frag)
    requires d <= |k.desc| && ReadFragment(k, d, a).Done?
    ensures var r := ReadFragment(k, d, a);
      && SpellsFrag(f, k.desc, Some(d)) == Some(r.d)
      && DenoteFrag(f, k.args, a) == Some((r.value.0, r.a))
      && r.value.1 == (f.pre || f.post)
  {
    hide Skip, CString;
    var d1 := SkipQuestion(k, d);
    var c := At(k.desc, d1);
    var sized := ReadSize(k, k.args[a].text, d1, a + 1);
    var size := if c == '%' then Percent else if c == '#' then Hash else Whole;
    f := Frag(At(k.desc, d) == '?', size, At(k.desc, sized.d) == '?');
  }

  lemma StringSound(k: Call, d: nat, a: nat) returns (t: Text)
    requires d <= |k.desc| && ReadText(k, d, a).Done?
    ensures var r := ReadText(k, d, a);
      && SpellsText(t, k.desc, Some(d)) == Some(r.d) && Pieces(t) <= STRCOUNT
      && TextValue(t, At(k.desc, r.d) == '*', k.args, a) == Some((r.value, r.a))
      && (r.value.Str? ==> TextValue(t, false, k.args, a) == Some((r.value, r.a)))
  {
    hide Skip, Next, ReadFragments, SpellsText, DenoteText, Concat, Pieces;
    t := TextSound(k, d, a, [], false);
    var fs := DenoteText(t, k.args, a).value.0;
    assert [] + fs == fs;
  }

  /** One turn of an array: its `]`, or one more item. */
  lemma ItemsTurn(k: Call, d: nat, a: nat, depth: nat, items: seq<Json>)
    requires d <= |k.desc|
    ensures var r := ReadItems(k, d, a, depth, items);
      if At(k.desc, d) == ']' then r == Done(Closed(k, Arr(items), Next(k.desc, d)), Next(k.desc, d), a)
      else
        var v := ReadValue(k, d, a, depth);
        && (r.Done? ==> v.Done?)
        && (At(k.desc, d) in "[{snbiIfoO" && v.Done? ==>
          r == ReadItems(k, SkipStar(k, v.d), v.a, depth, AddItem(k, items, v.value, v.d)))
        && (r.Done? ==> At(k.desc, d) in "[{snbiIfoO")
  {
    hide Skip, Next, ReadValue;
  }

  /** One turn of an object: its `}`, or one more member. */
  lemma MembersTurn(k: Call, d: nat, a: nat, depth: nat, members: map<string, Json>)
    requires d <= |k.desc|
    ensures var r := ReadMembers(k, d, a, depth, members);
      if At(k.desc, d) == '}' then r == Done(Closed(k, Obj(members), Next(k.desc, d)), Next(k.desc, d), a)
      else if At(k.desc, d) == 's' then
        var key := ReadText(k, Next(k.desc, d), a);
        && (r.Done? ==> key.Done? && key.value.Str?)
        && (key.Done? && key.value.Str? ==>
             var v := ReadValue(k, key.d, key.a, depth);
             && (r.Done? ==> v.Done?)
             && (v.Done? ==>
               r == ReadMembers(k, SkipStar(k, v.d), v.a, depth, AddMember(k, members, key.value.s, v.value, v.d))))
      else !r.Done?
  {
    hide Skip, Next, ReadValue, ReadText;
  }

  lemma ScalarSound(k: Call, d: nat, a: nat) returns (f: Fmt)
    requires d < |k.desc| && At(k.desc, d) in "snbiIfoO" && ReadScalar(k, At(k.desc, d), Next(k.desc, d), a).Done?
    ensures var r := ReadScalar(k, At(k.desc, d), Next(k.desc, d), a);
      && Spells(f, k.desc, Some(d)) == Some(r.d)
      && Denote(f, At(k.desc, r.d) == '*', k.args, a) == Some((r.value, r.a))
      && Depth(f) == 0 && Small(f)
  {
    hide Skip, Next, ReadText, SpellsText, TextValue, Pieces;
    var d1 := Next(k.desc, d);
    match At(k.desc, d)
    case 's' =>
      var t := StringSound(k, d1, a);
      f := FText(t);
    case 'n' => f := FNull;
    case 'b' => f := FBool;
    case 'i' => f := FInt;
    case 'I' => f := FInt64;
    case 'f' => f := FDouble;
    case c => f := FAny(c == 'O', At(k.desc, d1) == '?');
  }

  lemma {:induction false} ValueSound(k: Call, d: nat, a: nat, depth: nat) returns (f: Fmt)
    requires d <= |k.desc| && depth < STACKCOUNT && ReadValue(k, d, a, depth).Done?
    ensures var r := ReadValue(k, d, a, depth);
      && Spells(f, k.desc, Some(d)) == Some(r.d)
      && Denote(f, At(k.desc, r.d) == '*', k.args, a) == Some((r.value, r.a))
      && depth + Depth(f) < STACKCOUNT && Small(f)
    decreases |k.desc| - d, 0
  {
    hide Skip, Next, ReadScalar, ReadItems, ReadMembers, SpellsItems, SpellsMembers, DenoteItems, DenoteMembers;
    var d1 := Next(k.desc, d);
    match At(k.desc, d)
    case '[' =>
      var items := ItemsSound(k, d1, a, depth + 1, []);
      f := FArr(items);
      var es := DenoteItems(items, k.args, a).value.0;
      assert [] + es == es;
    case '{' =>
      var members := MembersSound(k, d1, a, depth + 1, map[]);
      f := FObj(members);
      var ms := DenoteMembers(members, k.args, a).value.0;
      assert map[] + ms == ms;
    case _ =>
      f := ScalarSound(k, d, a);
  }

  lemma {:induction false} ItemsSound(k: Call, d: nat, a: nat, depth: nat, items: seq<Json>) returns (f: Items)
    requires d <= |k.desc| && depth < STACKCOUNT && ReadItems(k, d, a, depth, items).Done?
    ensures var r := ReadItems(k, d, a, depth, items);
      var m := DenoteItems(f, k.args, a);
      && SpellsItems(f, k.desc, Some(d)) == Some(r.d)
      && m.Some? && m.value.1 == r.a && r.value == Closed(k, Arr(items + m.value.0), r.d)
      && depth + DepthItems(f) < STACKCOUNT && SmallItems(f)
    decreases |k.desc| - d, 1
  {
    hide Skip, Next, ReadItems, ReadValue, Spells, Denote, Depth, Small;
    ItemsTurn(k, d, a, depth, items);
    if At(k.desc, d) == ']' {
      f := INil;
      assert items + [] == items;
    } else {
      var v := ReadValue(k, d, a, depth);
      var head := ValueSound(k, d, a, depth);
      var tail := ItemsSound(k, SkipStar(k, v.d), v.a, depth, AddItem(k, items, v.value, v.d));
      f := ICons(head, At(k.desc, v.d) == '*', tail);
      var rest := DenoteItems(tail, k.args, v.a).value.0;
      assert items + [v.value] + rest == items + ([v.value] + rest);
      assert [] + rest == rest;
    }
  }

  lemma {:induction false} MembersSound(k: Call, d: nat, a: nat, depth: nat, members: map<string, Json>)
    returns (f: Members)
    requires d <= |k.desc| && depth < STACKCOUNT && ReadMembers(k, d, a, depth, members).Done?
    ensures var r := ReadMembers(k, d, a, depth, members);
      var m := DenoteMembers(f, k.args, a);
      && SpellsMembers(f, k.desc, Some(d)) == Some(r.d)
      && m.Some? && m.value.1 == r.a && r.value == Closed(k, Obj(members + m.value.0), r.d)
      && depth + DepthMembers(f) < STACKCOUNT && SmallMembers(f)
    decreases |k.desc| - d, 1
  {
    hide Skip, Next, ReadMembers, ReadText, ReadValue, Spells, SpellsText, Denote, TextValue, Depth, Small;
    hide Pieces, CString;
    MembersTurn(k, d, a, depth, members);
    if At(k.desc, d) == '}' {
      f := MNil;
      assert members + map[] == members;
    } else {
      var key := ReadText(k, Next(k.desc, d), a);
      var t := StringSound(k, Next(k.desc, d), a);
      var v := ReadValue(k, key.d, key.a, depth);
      var head := ValueSound(k, key.d, key.a, depth);
      var tail := MembersSound(k, SkipStar(k, v.d), v.a, depth, AddMember(k, members, key.value.s, v.value, v.d));
      f := MCons(t, head, At(k.desc, v.d) == '*', tail);
      var rest := DenoteMembers(tail, k.args, v.a).value.0;
      var name := CString(key.value.s);
      assert members[name := v.value] + rest == members + (map[name := v.value] + rest);
      assert map[] + rest == rest;
    }
  }

  // ---------------------------------------------------------------- everything spelled and denoted is accepted

  lemma FragComplete(k: Call, f: Frag, d: nat, a: nat)
    requires d <= |k.desc| && DenoteFrag(f, k.args, a).Some?
    requires var e := SpellsFrag(f, k.desc, Some(d)); e.Some? && At(k.desc, e.value) !in "?%#"
    ensures var m := DenoteFrag(f, k.args, a).value;
      ReadFragment(k, d, a) == Done((m.0, f.pre || f.post), SpellsFrag(f, k.desc, Some(d)).value, m.1)
  {
    hide Skip, CString;
  }

  lemma {:induction false} TextComplete(k: Call, t: Text, d: nat, a: nat, strs: seq<Fragment>, nullable: bool)
    requires d <= |k.desc| && |strs| + Pieces(t) <= STRCOUNT && |strs| < STRCOUNT && DenoteText(t, k.args, a).Some?
    requires var e := SpellsText(t, k.desc, Some(d)); e.Some? && At(k.desc, e.value) !in "?%#+"
    ensures var m := DenoteText(t, k.args, a).value;
      ReadFragments(k, d, a, strs, nullable)
      == Done((strs + m.0, nullable || Questioned(t)), SpellsText(t, k.desc, Some(d)).value, m.1)
    decreases t
  {
    hide Skip, Next, CString, SpellsFrag, DenoteFrag, ReadFragment;
    var one := DenoteFrag(t.frag, k.args, a);
    var e := SpellsFrag(t.frag, k.desc, Some(d));
    if t.Plus? {
      SpellsNothing(t.rest, k.desc);
    }
    FragComplete(k, t.frag, d, a);
    if t.Plus? {
      PiecesPositive(t.rest);
      TextComplete(k, t.rest, Next(k.desc, e.value), one.value.1, strs + [one.value.0],
                   nullable || t.frag.pre || t.frag.post);
      var rest := DenoteText(t.rest, k.args, one.value.1).value.0;
      assert strs + ([one.value.0] + rest) == strs + [one.value.0] + rest;
    }
  }

  /** Nothing is spelled from nowhere. */
  lemma {:induction false} SpellsNothing(t: Text, desc: string)
    ensures SpellsText(t, desc, None).None?
  {
    if t.Plus? {
      SpellsNothing(t.rest, desc);
    }
  }

  lemma PiecesPositive(t: Text)
    ensures Pieces(t) >= 1
  {
  }

  lemma StringComplete(k: Call, t: Text, star: bool, d: nat, a: nat)
    requires d <= |k.desc| && Pieces(t) <= STRCOUNT && TextValue(t, star, k.args, a).Some?
    requires var e := SpellsText(t, k.desc, Some(d));
      e.Some? && At(k.desc, e.value) !in "?%#+" && (star ==> At(k.desc, e.value) == '*')
    ensures var m := TextValue(t, star, k.args, a).value;
      ReadText(k, d, a) == Done(m.0, SpellsText(t, k.desc, Some(d)).value, m.1)
  {
    hide Skip, Next, ReadFragments, SpellsText, DenoteText, Concat, Pieces;
    TextComplete(k, t, d, a, [], false);
    var fs := DenoteText(t, k.args, a).value.0;
    assert [] + fs == fs;
  }

  /** The characters a value may begin with, and those that cannot follow one. */
  lemma FirstCharacter(f: Fmt, desc: string, d: nat)
    requires Spells(f, desc, Some(d)).Some?
    ensures At(desc, d) in "[{snbiIfoO"
  {
    hide Skip, Next;
    match f
    case FText(t) => if At(desc, d) != 's' { SpellsNothing(t, desc); }
    case FArr(items) => if At(desc, d) != '[' { ItemsFromNothing(items, desc); }
    case FObj(members) => if At(desc, d) != '{' { MembersFromNothing(members, desc); }
    case _ =>
  }

  lemma {:induction false} FromNothing(f: Fmt, desc: string)
    ensures Spells(f, desc, None).None?
  {
    match f
    case FText(t) => SpellsNothing(t, desc);
    case FArr(items) => ItemsFromNothing(items, desc);
    case FObj(members) => MembersFromNothing(members, desc);
    case _ =>
  }

  lemma {:induction false} ItemsFromNothing(items: Items, desc: string)
    ensures SpellsItems(items, desc, None).None?
  {
    if items.ICons? {
      FromNothing(items.head, desc);
      ItemsFromNothing(items.tail, desc);
    }
  }

  lemma {:induction false} MembersFromNothing(members: Members, desc: string)
    ensures SpellsMembers(members, desc, None).None?
  {
    if members.MCons? {
      SpellsNothing(members.key, desc);
      FromNothing(members.head, desc);
      MembersFromNothing(members.tail, desc);
    }
  }

  /** Between the items of an array stands an item or its `]`. */
  lemma FirstOfItems(items: Items, desc: string, d: nat)
    requires SpellsItems(items, desc, Some(d)).Some?
    ensures At(desc, d) in "][{snbiIfoO"
  {
    hide Skip, Next, Spells;
    if items.ICons? {
      if Spells(items.head, desc, Some(d)).None? {
        ItemsFromNothing(items.tail, desc);
      }
      FirstCharacter(items.head, desc, d);
    }
  }

  lemma FirstOfMembers(members: Members, desc: string, d: nat)
    requires SpellsMembers(members, desc, Some(d)).Some?
    ensures At(desc, d) in "s}"
  {
    hide Skip, Next, Spells, SpellsText;
    if members.MCons? && At(desc, d) != 's' {
      SpellsNothing(members.key, desc);
      FromNothing(members.head, desc);
      MembersFromNothing(members.tail, desc);
    }
  }

  /** Where the first item of an array is spelled, and what stands after it. */
  lemma SpelledItem(items: Items, desc: string, d: nat)
    requires items.ICons? && SpellsItems(items, desc, Some(d)).Some?
    ensures At(desc, d) in "[{snbiIfoO"
    ensures var e := Spells(items.head, desc, Some(d));
      && e.Some? && At(desc, e.value) !in "?%#+"
      && items.star == (At(desc, e.value) == '*')
      && SpellsItems(items, desc, Some(d))
        == SpellsItems(items.tail, desc, Some(if items.star then Next(desc, e.value) else e.value))
  {
    hide Skip, Next, Spells;
    var e := Spells(items.head, desc, Some(d));
    if e.None? || (items.star && At(desc, e.value) != '*') {
      ItemsFromNothing(items.tail, desc);
    }
    FirstCharacter(items.head, desc, d);
    if !items.star {
      FirstOfItems(items.tail, desc, e.value);
    }
  }

  /** Where the first member of an object is spelled, and what stands after its key and its value. */
  lemma SpelledMember(members: Members, desc: string, d: nat)
    requires members.MCons? && SpellsMembers(members, desc, Some(d)).Some?
    ensures At(desc, d) == 's'
    ensures var ek := SpellsText(members.key, desc, Some(Next(desc, d)));
      && ek.Some? && At(desc, ek.value) in "[{snbiIfoO"
      && var e := Spells(members.head, desc, ek);
      && e.Some? && At(desc, e.value) !in "?%#+"
      && members.star == (At(desc, e.value) == '*')
      && SpellsMembers(members, desc, Some(d))
        == SpellsMembers(members.tail, desc, Some(if members.star then Next(desc, e.value) else e.value))
  {
    hide Skip, Next, Spells, SpellsText;
    FirstOfMembers(members, desc, d);
    var ek := SpellsText(members.key, desc, Eat(desc, Some(d), 's'));
    var e := Spells(members.head, desc, ek);
    if At(desc, d) != 's' {
      SpellsNothing(members.key, desc);
    }
    if ek.None? {
      FromNothing(members.head, desc);
    }
    if e.None? || (members.star && At(desc, e.value) != '*') {
      MembersFromNothing(members.tail, desc);
    }
    FirstCharacter(members.head, desc, ek.value);
    if !members.star {
      FirstOfMembers(members.tail, desc, e.value);
    }
  }

  lemma ScalarComplete(k: Call, f: Fmt, star: bool, d: nat, a: nat)
    requires d <= |k.desc| && !f.FArr? && !f.FObj? && Small(f) && Denote(f, star, k.args, a).Some?
    requires var e := Spells(f, k.desc, Some(d));
      e.Some? && At(k.desc, e.value) !in "?%#+" && star == (At(k.desc, e.value) == '*')
    ensures At(k.desc, d) in "snbiIfoO"
    ensures var m := Denote(f, star, k.args, a).value;
      ReadScalar(k, At(k.desc, d), Next(k.desc, d), a) == Done(m.0, Spells(f, k.desc, Some(d)).value, m.1)
  {
    hide Skip, Next, ReadText, SpellsText, TextValue, Pieces;
    if f.FText? {
      if At(k.desc, d) != 's' {
        SpellsNothing(f.text, k.desc);
      }
      StringComplete(k, f.text, star, Next(k.desc, d), a);
    }
  }

  /** What is assumed of a value that is spelled where it can be followed. */
  ghost predicate Spelled(k: Call, f: Fmt, star: bool, d: nat, a: nat, depth: nat) {
    && d <= |k.desc| && depth + Depth(f) < STACKCOUNT && Small(f) && Denote(f, star, k.args, a).Some?
    && var e := Spells(f, k.desc, Some(d));
    && e.Some? && At(k.desc, e.value) !in "?%#+" && star == (At(k.desc, e.value) == '*')
  }

  lemma {:induction false} ValueComplete(k: Call, f: Fmt, star: bool, d: nat, a: nat, depth: nat)
    requires Spelled(k, f, star, d, a, depth)
    ensures var m := Denote(f, star, k.args, a).value;
      ReadValue(k, d, a, depth) == Done(m.0, Spells(f, k.desc, Some(d)).value, m.1)
    decreases f, 1
  {
    hide Skip, Next, ReadScalar, ReadItems, ReadMembers, Spells, Denote, Depth;
    if f.FArr? {
      ArrayComplete(k, f, star, d, a, depth);
    } else if f.FObj? {
      ObjectComplete(k, f, star, d, a, depth);
    } else {
      ScalarComplete(k, f, star, d, a);
    }
  }

  lemma {:induction false} ArrayComplete(k: Call, f: Fmt, star: bool, d: nat, a: nat, depth: nat)
    requires f.FArr? && Spelled(k, f, star, d, a, depth)
    ensures var m := Denote(f, star, k.args, a).value;
      ReadValue(k, d, a, depth) == Done(m.0, Spells(f, k.desc, Some(d)).value, m.1)
    decreases f, 0
  {
    hide Skip, Next, ReadItems, ReadMembers, ReadScalar, SpellsItems, DenoteItems;
    if At(k.desc, d) != '[' { ItemsFromNothing(f.items, k.desc); }
    ItemsComplete(k, f.items, Next(k.desc, d), a, depth + 1, []);
    var es := DenoteItems(f.items, k.args, a).value.0;
    assert [] + es == es;
  }

  lemma {:induction false} ObjectComplete(k: Call, f: Fmt, star: bool, d: nat, a: nat, depth: nat)
    requires f.FObj? && Spelled(k, f, star, d, a, depth)
    ensures var m := Denote(f, star, k.args, a).value;
      ReadValue(k, d, a, depth) == Done(m.0, Spells(f, k.desc, Some(d)).value, m.1)
    decreases f, 0
  {
    hide Skip, Next, ReadItems, ReadMembers, ReadScalar, SpellsMembers, DenoteMembers;
    if At(k.desc, d) != '{' { MembersFromNothing(f.members, k.desc); }
    MembersComplete(k, f.members, Next(k.desc, d), a, depth + 1, map[]);
    var ms := DenoteMembers(f.members, k.args, a).value.0;
    assert map[] + ms == ms;
  }

  /** The member that comes first is put, the others are put over it. */
  lemma DenoteFirst(f: Members, args: seq<Arg>, a: nat, before: map<string, Json>)
    requires f.MCons? && DenoteMembers(f, args, a).Some?
    ensures var name := TextValue(f.key, false, args, a);
      && name.Some? && name.value.0.Str?
      && var v := Denote(f.head, f.star, args, name.value.1);
      && v.Some?
      && var rest := DenoteMembers(f.tail, args, v.value.1);
      && rest.Some?
      && DenoteMembers(f, args, a).value.1 == rest.value.1
      && before + DenoteMembers(f, args, a).value.0
         == (if f.star && v.value.0 == Null then before else before[CString(name.value.0.s) := v.value.0])
           + rest.value.0
  {
    hide Denote, TextValue, CString;
  }

  lemma {:induction false} ItemsComplete(k: Call, f: Items, d: nat, a: nat, depth: nat, items: seq<Json>)
    requires d <= |k.desc| && depth + DepthItems(f) < STACKCOUNT && SmallItems(f) && DenoteItems(f, k.args, a).Some?
    requires SpellsItems(f, k.desc, Some(d)).Some?
    ensures var m := DenoteItems(f, k.args, a).value;
      var e := SpellsItems(f, k.desc, Some(d)).value;
      ReadItems(k, d, a, depth, items) == Done(Closed(k, Arr(items + m.0), e), e, m.1)
    decreases f
  {
    hide Skip, Next, ReadItems, ReadValue, Spells, Denote, Depth, Small;
    ItemsTurn(k, d, a, depth, items);
    match f
    case INil =>
      assert items + [] == items;
    case ICons(head, star, tail) =>
      SpelledItem(f, k.desc, d);
      ValueComplete(k, head, star, d, a, depth);
      var v := ReadValue(k, d, a, depth);
      ItemsComplete(k, tail, SkipStar(k, v.d), v.a, depth, AddItem(k, items, v.value, v.d));
      var rest := DenoteItems(tail, k.args, v.a).value.0;
      assert items + [v.value] + rest == items + ([v.value] + rest);
      assert [] + rest == rest;
  }

  lemma {:induction false} MembersComplete(k: Call, f: Members, d: nat, a: nat, depth: nat, members: map<string, Json>)
    requires d <= |k.desc| && depth + DepthMembers(f) < STACKCOUNT && SmallMembers(f)
    requires DenoteMembers(f, k.args, a).Some?
    requires SpellsMembers(f, k.desc, Some(d)).Some?
    ensures var m := DenoteMembers(f, k.args, a).value;
      var e := SpellsMembers(f, k.desc, Some(d)).value;
      ReadMembers(k, d, a, depth, members) == Done(Closed(k, Obj(members + m.0), e), e, m.1)
    decreases f
  {
    hide Skip, Next, ReadMembers, ReadText, ReadValue, SpellsMembers, Spells, SpellsText, DenoteMembers;
    hide Denote, TextValue, Depth, Small, Pieces, CString;
    MembersTurn(k, d, a, depth, members);
    match f
    case MNil =>
      EmptyMembers(k, d, a);
      assert members + map[] == members;
    case MCons(t, head, star, tail) =>
      DenoteFirst(f, k.args, a, members);
      SpelledMember(f, k.desc, d);
      StringComplete(k, t, false, Next(k.desc, d), a);
      var key := ReadText(k, Next(k.desc, d), a);
      ValueComplete(k, head, star, key.d, key.a, depth);
      var v := ReadValue(k, key.d, key.a, depth);
      MembersComplete(k, tail, SkipStar(k, v.d), v.a, depth, AddMember(k, members, key.value.s, v.value, v.d));
  }

  lemma EmptyMembers(k: Call, d: nat, a: nat)
    ensures DenoteMembers(MNil, k.args, a) == Some((map[], a))
    ensures SpellsMembers(MNil, k.desc, Some(d)) == Eat(k.desc, Some(d), '}')
  {
  }

  // ---------------------------------------------------------------- the accepted language

  /** `f` with these arguments is the tree `j`, within the limits of the interpreter. */
  predicate Builds(f: Fmt, args: seq<Arg>, j: Json) {
    && Depth(f) < STACKCOUNT
    && Small(f)
    && var m := Denote(f, false, args, 0);
    && m.Some?
    && m.value.0 == j
  }

  /** wrap_json_vpack succeeds exactly on the words of the grammar that nest at most 31 containers,
      use at most 8 fragments a string and obey the null rules, and it builds what they denote. */
  lemma PackAccepts(desc: string, args: seq<Arg>, j: Json)
    ensures Meaning(Some(desc), args) == Packed(j) <==> exists f :: IsFormat(f, desc) && Builds(f, args, j)
  {
    hide Skip, ReadValue, Spells, Denote, Depth, Small;
    var k := Call(desc, args);
    var d := Skip(desc, 0);
    var r := ReadValue(k, d, 0, 0);
    if Meaning(Some(desc), args) == Packed(j) {
      var f := ValueSound(k, d, 0, 0);
      assert IsFormat(f, desc) && Builds(f, args, j);
    }
    forall f | IsFormat(f, desc) && Builds(f, args, j)
      ensures Meaning(Some(desc), args) == Packed(j)
    {
      ValueComplete(k, f, false, d, 0, 0);
    }
  }
}
