/** Which error packing answers: for a well-formed format it is the first thing that goes wrong in the order of the
    format. */
module WrapJsonPackFailures {
  import opened Options
  import opened WrapJsonBase
  import opened WrapJsonPack
  import opened WrapJsonPackGrammar

  /** Everything is in order, or the first thing that is not; `Ugly` is an argument of the wrong type or a read past
      a buffer. */
  datatype Verdict = Good | Bad(code: ErrorCode) | Ugly

  function Then(v: Verdict, w: Verdict): Verdict {
    if v == Good then w else v
  }

  function Unless(ok: bool, code: ErrorCode): Verdict {
    if ok then Good else Bad(code)
  }

  function Fine(ok: bool): Verdict {
    if ok then Good else Ugly
  }

  // ---------------------------------------------------------------- the verdict

  function FragArgs(f: Frag): nat {
    if f.size.Whole? then 1 else 2
  }

  function TextArgs(t: Text): nat {
    match t
    case Piece(f) => FragArgs(f)
    case Plus(f, rest) => FragArgs(f) + TextArgs(rest)
  }

  /** How many arguments a format takes. */
  function Args(f: Fmt): nat {
    match f
    case FText(t) => TextArgs(t)
    case FNull => 0
    case FArr(items) => ArgsOfItems(items)
    case FObj(members) => ArgsOfMembers(members)
    case _ => 1
  }

  function ArgsOfItems(items: Items): nat {
    match items
    case INil => 0
    case ICons(head, _, tail) => Args(head) + ArgsOfItems(tail)
  }

  function ArgsOfMembers(members: Members): nat {
    match members
    case MNil => 0
    case MCons(key, head, _, tail) => TextArgs(key) + Args(head) + ArgsOfMembers(tail)
  }

  function JudgeFrag(f: Frag, args: seq<Arg>, a: nat): Verdict {
    Then(Fine(a < |args| && args[a].StrArg?),
      match f.size
      case Whole => Good
      case Percent => Fine(a + 1 < |args| && args[a + 1].SizeArg?)
      case Hash => Fine(a + 1 < |args| && args[a + 1].IntArg?))
  }

  /** The fragments of a string, of which `n` have been read: at most eight. */
  function JudgeFrags(t: Text, args: seq<Arg>, a: nat, n: nat): Verdict {
    match t
    case Piece(f) => JudgeFrag(f, args, a)
    case Plus(f, rest) =>
      Then(JudgeFrag(f, args, a), Then(Unless(n + 1 < 8, TooLong), JudgeFrags(rest, args, a + FragArgs(f), n + 1)))
  }

  /** All strings of a text are NULL. */
  predicate AllNull(t: Text, args: seq<Arg>, a: nat) {
    && a < |args| && args[a].StrArg? && args[a].text.None?
    && (t.Plus? ==> AllNull(t.rest, args, a + FragArgs(t.frag)))
  }

  /** The characters asked for are there. */
  predicate Enough(f: Frag, args: seq<Arg>, a: nat) {
    a < |args| && args[a].StrArg? &&
    var size := if args[a].text.Some? then |args[a].text.value| else 0;
    match f.size
    case Whole => true
    case Percent => a + 1 < |args| && args[a + 1].SizeArg? && args[a + 1].size <= size
    case Hash => a + 1 < |args| && args[a + 1].IntArg? && 0 <= args[a + 1].i <= size
  }

  predicate AllEnough(t: Text, args: seq<Arg>, a: nat) {
    Enough(t.frag, args, a) && (t.Plus? ==> AllEnough(t.rest, args, a + FragArgs(t.frag)))
  }

  function JudgeText(t: Text, star: bool, args: seq<Arg>, a: nat): Verdict {
    Then(JudgeFrags(t, args, a, 0),
         if AllNull(t, args, a) then Unless(star || Questioned(t), NullString) else Fine(AllEnough(t, args, a)))
  }

  /** The verdict on `f` inside `depth` containers; `star` tells whether `*` follows it. */
  function Judge(f: Fmt, star: bool, args: seq<Arg>, a: nat, depth: nat): Verdict {
    match f
    case FText(t) => JudgeText(t, star, args, a)
    case FNull => Good
    case FBool => Fine(a < |args| && args[a].IntArg?)
    case FInt => Fine(a < |args| && args[a].IntArg?)
    case FInt64 => Fine(a < |args| && args[a].Int64Arg?)
    case FDouble => Fine(a < |args| && args[a].DoubleArg?)
    case FAny(_, question) =>
      if a < |args| && args[a].JsonArg? then Unless(args[a].json != Null || question || star, NullObject) else Ugly
    case FArr(items) => Then(Unless(depth < 31, TooDeep), JudgeItems(items, args, a, depth + 1))
    case FObj(members) => Then(Unless(depth < 31, TooDeep), JudgeMembers(members, args, a, depth + 1))
  }

  function JudgeItems(items: Items, args: seq<Arg>, a: nat, depth: nat): Verdict {
    match items
    case INil => Good
    case ICons(head, star, tail) =>
      Then(Judge(head, star, args, a, depth), JudgeItems(tail, args, a + Args(head), depth))
  }

  function JudgeMembers(members: Members, args: seq<Arg>, a: nat, depth: nat): Verdict {
    match members
    case MNil => Good
    case MCons(key, head, star, tail) =>
      var b := a + TextArgs(key);
      Then(JudgeText(key, false, args, a),
      Then(Unless(!AllNull(key, args, a), NullKey),
      Then(Judge(head, star, args, b, depth),
           JudgeMembers(tail, args, b + Args(head), depth))))
  }

  // ---------------------------------------------------------------- the interpreter agrees

  /** The outcome is what the verdict says; a success ends at cursor `d` and argument `a`. */
  predicate Says<T>(r: Read<T>, v: Verdict, d: nat, a: nat) {
    match v
    case Good => r.Done? && r.d == d && r.a == a
    case Bad(code) => r.Fail? && r.code == code
    case Ugly => r.BadCall?
  }

  lemma FragJudged(k: Call, f: Frag, d: nat, a: nat)
    requires d <= |k.desc|
    requires var e := SpellsFrag(f, k.desc, Some(d)); e.Some? && At(k.desc, e.value) !in "?%#"
    ensures var r := ReadFragment(k, d, a);
      && Says(r, JudgeFrag(f, k.args, a), SpellsFrag(f, k.desc, Some(d)).value, a + FragArgs(f))
      && (r.Done? ==>
           && a < |k.args| && k.args[a].StrArg? && r.value.1 == (f.pre || f.post)
           && (r.value.0.text.None? <==> k.args[a].text.None?)
           && (Readable(r.value.0) <==> Enough(f, k.args, a)))
  {
    hide Skip;
    if a < |k.args| && k.args[a].StrArg? && k.args[a].text.Some? {
      CStringEnds(k.args[a].text.value);
    }
  }

  lemma OneMore(strs: seq<Fragment>, f: Fragment)
    ensures NotNull(strs + [f]) <==> NotNull(strs) || f.text.Some?
    ensures AllReadable(strs + [f]) <==> AllReadable(strs) && Readable(f)
  {
    hide Readable;
    assert (strs + [f])[|strs|] == f;
    assert forall i :: 0 <= i < |strs| ==> (strs + [f])[i] == strs[i];
  }

  /** What the fragments read are: null or not, and readable or not. */
  predicate FragsSay(r: Read<(seq<Fragment>, bool)>, t: Text, args: seq<Arg>, a: nat, strs: seq<Fragment>,
                     nullable: bool) {
    r.Done? ==>
      && r.value.1 == (nullable || Questioned(t))
      && (NotNull(r.value.0) <==> NotNull(strs) || !AllNull(t, args, a))
      && (AllReadable(r.value.0) <==> AllReadable(strs) && AllEnough(t, args, a))
  }

  lemma {:induction false} FragsJudged(k: Call, t: Text, d: nat, a: nat, strs: seq<Fragment>, nullable: bool)
    requires d <= |k.desc| && |strs| < 8
    requires var e := SpellsText(t, k.desc, Some(d)); e.Some? && At(k.desc, e.value) !in "?%#+"
    ensures var r := ReadFragments(k, d, a, strs, nullable);
      && Says(r, JudgeFrags(t, k.args, a, |strs|), SpellsText(t, k.desc, Some(d)).value, a + TextArgs(t))
      && FragsSay(r, t, k.args, a, strs, nullable)
    decreases t
  {
    hide Skip, Next, SpellsFrag, JudgeFrag, ReadFragment, NotNull, AllReadable, Readable, Enough, FragArgs;
    var e := SpellsFrag(t.frag, k.desc, Some(d));
    if t.Plus? {
      SpellsNothing(t.rest, k.desc);
    }
    FragJudged(k, t.frag, d, a);
    var one := ReadFragment(k, d, a);
    if one.Done? {
      OneMore(strs, one.value.0);
      if t.Plus? && |strs| + 1 < 8 {
        FragsJudged(k, t.rest, Next(k.desc, e.value), one.a, strs + [one.value.0], nullable || one.value.1);
      }
    }
  }

  lemma TextJudged(k: Call, t: Text, star: bool, d: nat, a: nat)
    requires d <= |k.desc|
    requires var e := SpellsText(t, k.desc, Some(d));
      e.Some? && At(k.desc, e.value) !in "?%#+" && star == (At(k.desc, e.value) == '*')
    ensures var r := ReadText(k, d, a);
      && Says(r, JudgeText(t, star, k.args, a), SpellsText(t, k.desc, Some(d)).value, a + TextArgs(t))
      && (r.Done? ==> (r.value.Null? <==> AllNull(t, k.args, a)))
  {
    hide Skip, Next, ReadFragments, SpellsText, JudgeFrags, AllNull, AllEnough, TextArgs, Questioned, Concat;
    FragsJudged(k, t, d, a, [], false);
    assert !NotNull([]) && AllReadable([]);
    hide NotNull, AllReadable;
  }

  lemma StringJudged(k: Call, f: Fmt, star: bool, d: nat, a: nat, depth: nat)
    requires d <= |k.desc| && f.FText?
    requires var e := Spells(f, k.desc, Some(d));
      e.Some? && At(k.desc, e.value) !in "?%#+" && star == (At(k.desc, e.value) == '*')
    ensures Says(ReadValue(k, d, a, depth), Judge(f, star, k.args, a, depth),
                 Spells(f, k.desc, Some(d)).value, a + Args(f))
  {
    hide Skip, Next, ReadText, SpellsText, JudgeText, TextArgs;
    if At(k.desc, d) != 's' {
      SpellsNothing(f.text, k.desc);
    }
    TextJudged(k, f.text, star, Next(k.desc, d), a);
  }

  lemma ScalarJudged(k: Call, f: Fmt, star: bool, d: nat, a: nat, depth: nat)
    requires d <= |k.desc| && !f.FArr? && !f.FObj? && !f.FText?
    requires var e := Spells(f, k.desc, Some(d));
      e.Some? && At(k.desc, e.value) !in "?%#+" && star == (At(k.desc, e.value) == '*')
    ensures Says(ReadValue(k, d, a, depth), Judge(f, star, k.args, a, depth),
                 Spells(f, k.desc, Some(d)).value, a + Args(f))
  {
    hide Skip, Next, ReadText, ReadItems, ReadMembers;
    FirstCharacter(f, k.desc, d);
  }

  lemma {:induction false} ValueJudged(k: Call, f: Fmt, star: bool, d: nat, a: nat, depth: nat)
    requires d <= |k.desc|
    requires var e := Spells(f, k.desc, Some(d));
      e.Some? && At(k.desc, e.value) !in "?%#+" && star == (At(k.desc, e.value) == '*')
    ensures Says(ReadValue(k, d, a, depth), Judge(f, star, k.args, a, depth),
                 Spells(f, k.desc, Some(d)).value, a + Args(f))
    decreases f
  {
    hide Skip, Next, ReadScalar, ReadItems, ReadMembers, SpellsItems, SpellsMembers, SpellsText, JudgeText, JudgeItems;
    hide JudgeMembers, ArgsOfItems, ArgsOfMembers, TextArgs;
    match f
    case FArr(items) =>
      if At(k.desc, d) != '[' { ItemsFromNothing(items, k.desc); }
      ItemsJudged(k, items, Next(k.desc, d), a, depth + 1, []);
    case FObj(members) =>
      if At(k.desc, d) != '{' { MembersFromNothing(members, k.desc); }
      MembersJudged(k, members, Next(k.desc, d), a, depth + 1, map[]);
    case FText(_) =>
      StringJudged(k, f, star, d, a, depth);
    case _ =>
      ScalarJudged(k, f, star, d, a, depth);
  }

  /** One turn of an array at an item. */
  lemma ItemTurn(k: Call, d: nat, a: nat, depth: nat, items: seq<Json>)
    requires d <= |k.desc| && At(k.desc, d) in "[{snbiIfoO"
    ensures var v := ReadValue(k, d, a, depth);
      ReadItems(k, d, a, depth, items)
      == if v.Done? then ReadItems(k, SkipStar(k, v.d), v.a, depth, AddItem(k, items, v.value, v.d)) else v
  {
    hide Skip, Next, ReadValue;
  }

  lemma {:induction false} ItemsJudged(k: Call, items: Items, d: nat, a: nat, depth: nat, before: seq<Json>)
    requires d <= |k.desc| && SpellsItems(items, k.desc, Some(d)).Some?
    ensures Says(ReadItems(k, d, a, depth, before), JudgeItems(items, k.args, a, depth),
                 SpellsItems(items, k.desc, Some(d)).value, a + ArgsOfItems(items))
    decreases items
  {
    hide Skip, Next, ReadItems, ReadValue, Spells, Judge, Args;
    match items
    case INil =>
      ItemsTurn(k, d, a, depth, before);
    case ICons(head, star, tail) =>
      SpelledItem(items, k.desc, d);
      ValueJudged(k, head, star, d, a, depth);
      ItemTurn(k, d, a, depth, before);
      var v := ReadValue(k, d, a, depth);
      if v.Done? {
        ItemsJudged(k, tail, SkipStar(k, v.d), v.a, depth, AddItem(k, before, v.value, v.d));
      }
  }

  /** One turn of an object at a key. */
  lemma MemberTurn(k: Call, d: nat, a: nat, depth: nat, members: map<string, Json>)
    requires d <= |k.desc| && At(k.desc, d) == 's'
    ensures var key := ReadText(k, Next(k.desc, d), a);
      var r := ReadMembers(k, d, a, depth, members);
      if !key.Done? then r == key
      else if key.value.Null? then r == Fail(NullKey, key.d)
      else
        var v := ReadValue(k, key.d, key.a, depth);
        r == if v.Done?
             then ReadMembers(k, SkipStar(k, v.d), v.a, depth, AddMember(k, members, key.value.s, v.value, v.d)) else v
  {
    hide Skip, Next, ReadValue, ReadText;
  }

  lemma {:induction false} MembersJudged(k: Call, members: Members, d: nat, a: nat, depth: nat,
                                         before: map<string, Json>)
    requires d <= |k.desc| && SpellsMembers(members, k.desc, Some(d)).Some?
    ensures Says(ReadMembers(k, d, a, depth, before), JudgeMembers(members, k.args, a, depth),
                 SpellsMembers(members, k.desc, Some(d)).value, a + ArgsOfMembers(members))
    decreases members
  {
    hide Skip, Next, ReadMembers, ReadText, ReadValue, Spells, SpellsText, Judge, JudgeText, AllNull, Args, TextArgs;
    hide CString;
    match members
    case MNil =>
      MembersTurn(k, d, a, depth, before);
    case MCons(key, head, star, tail) =>
      hide Says, Then, JudgeMembers;
      SpelledMember(members, k.desc, d);
      TextJudged(k, key, false, Next(k.desc, d), a);
      MemberTurn(k, d, a, depth, before);
      JudgeMember(members, k.args, a, depth);
      var name := ReadText(k, Next(k.desc, d), a);
      var end, last := SpellsMembers(members, k.desc, Some(d)).value, a + ArgsOfMembers(members);
      SaysGood(name, JudgeText(key, false, k.args, a), SpellsText(key, k.desc, Some(Next(k.desc, d))).value,
               a + TextArgs(key), end, last);
      if name.Done? && name.value.Null? {
        SaysBad(ReadMembers(k, d, a, depth, before), NullKey, end, last);
      } else if name.Done? {
        var e := Spells(head, k.desc, Some(name.d)).value;
        ValueJudged(k, head, star, name.d, name.a, depth);
        var v := ReadValue(k, name.d, name.a, depth);
        SaysGood(v, Judge(head, star, k.args, name.a, depth), e, name.a + Args(head), end, last);
        if v.Done? {
          MembersJudged(k, tail, SkipStar(k, v.d), v.a, depth, AddMember(k, before, name.value.s, v.value, v.d));
        }
      }
  }

  lemma JudgeMember(members: Members, args: seq<Arg>, a: nat, depth: nat)
    requires members.MCons?
    ensures var b := a + TextArgs(members.key);
      var key := JudgeText(members.key, false, args, a);
      && (key != Good ==> JudgeMembers(members, args, a, depth) == key)
      && (key == Good && AllNull(members.key, args, a) ==> JudgeMembers(members, args, a, depth) == Bad(NullKey))
      && (key == Good && !AllNull(members.key, args, a) ==>
           JudgeMembers(members, args, a, depth)
           == Then(Judge(members.head, members.star, args, b, depth),
                   JudgeMembers(members.tail, args, b + Args(members.head), depth)))
  {
    hide JudgeText, AllNull, Judge;
  }

  /** A success says Good, and a failure says the same wherever a success would have ended. */
  lemma SaysGood<T>(r: Read<T>, v: Verdict, d: nat, a: nat, d': nat, a': nat)
    requires Says(r, v, d, a)
    ensures r.Done? <==> v == Good
    ensures r.Done? ==> r.d == d && r.a == a
    ensures !r.Done? ==> Says(r, v, d', a') && forall w :: Then(v, w) == v
    ensures r.Done? ==> forall w :: Then(v, w) == w
  {
  }

  lemma SaysBad<T>(r: Read<T>, code: ErrorCode, d: nat, a: nat)
    requires r.Fail? && r.code == code
    ensures Says(r, Bad(code), d, a)
  {
  }

  /** With a well-formed format, packing succeeds exactly if nothing is wrong, and fails with the first thing that
      is. */
  lemma PackJudges(f: Fmt, desc: string, args: seq<Arg>)
    requires IsFormat(f, desc)
    ensures var r := Meaning(Some(desc), args);
      match Judge(f, false, args, 0, 0)
      case Good => r.Packed?
      case Bad(code) => r.Refused? && r.code == code
      case Ugly => r == Undefined
  {
    hide Skip, ReadValue, Spells, Judge;
    ValueJudged(Call(desc, args), f, false, Skip(desc, 0), 0, 0);
  }
}
