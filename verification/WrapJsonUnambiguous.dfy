/** A format string has one reading: the unpacking grammar is unambiguous, and the packing grammar is up to the
    place of `?`, which means the same before and after a length. Every unpacking format can be written down. */
module WrapJsonUnambiguous {
  import opened Options
  import opened WrapJsonBase
  import P = WrapJsonPack
  import PG = WrapJsonPackGrammar
  import U = WrapJsonUnpack
  import UG = WrapJsonUnpackGrammar

  // ---------------------------------------------------------------- unpacking formats

  /** Two syntax trees spelled at one cursor are equal, if a length cannot follow. */
  lemma {:induction false} OneReading(f: UG.Fmt, g: UG.Fmt, desc: string, d: nat)
    requires var e := UG.Spells(f, desc, Some(d)); e.Some? && At(desc, e.value) != '%'
    requires var e := UG.Spells(g, desc, Some(d)); e.Some? && At(desc, e.value) != '%'
    ensures f == g
    decreases f
  {
    hide Skip, Next, UG.SpellsItems, UG.SpellsMembers, UG.SpellsClose;
    UG.FirstCharacter(f, desc, d);
    UG.FirstCharacter(g, desc, d);
    match f
    case FArr(items, close) =>
      OneReadingOfItems(items, close, g.items, g.close, desc, Next(desc, d));
    case FObj(members, close) =>
      OneReadingOfMembers(members, close, g.members, g.close, desc, Next(desc, d));
    case _ =>
  }

  lemma OneClose(c1: UG.Close, c2: UG.Close, closer: char, desc: string, d: nat)
    requires closer == ']' || closer == '}'
    requires UG.SpellsClose(c1, closer, desc, Some(d)).Some? && UG.SpellsClose(c2, closer, desc, Some(d)).Some?
    ensures c1 == c2
  {
    hide Skip, Next;
  }

  lemma {:induction false} OneReadingOfItems(items: UG.Items, close: UG.Close, items': UG.Items, close': UG.Close,
                                             desc: string, d: nat)
    requires UG.SpellsClose(close, ']', desc, UG.SpellsItems(items, desc, Some(d))).Some?
    requires UG.SpellsClose(close', ']', desc, UG.SpellsItems(items', desc, Some(d))).Some?
    ensures items == items' && close == close'
    decreases items
  {
    hide Skip, Next, UG.Spells, UG.SpellsClose;
    if items.ICons? {
      UG.SpelledItem(items, close, desc, d);
    } else {
      UG.FirstOfClose(close, ']', desc, d);
    }
    if items'.ICons? {
      UG.SpelledItem(items', close', desc, d);
    } else {
      UG.FirstOfClose(close', ']', desc, d);
    }
    if items.ICons? {
      OneReading(items.head, items'.head, desc, d);
      OneReadingOfItems(items.tail, close, items'.tail, close', desc, UG.Spells(items.head, desc, Some(d)).value);
    } else {
      OneClose(close, close', ']', desc, d);
    }
  }

  lemma {:induction false} OneReadingOfMembers(members: UG.Members, close: UG.Close, members': UG.Members,
                                               close': UG.Close, desc: string, d: nat)
    requires UG.SpellsClose(close, '}', desc, UG.SpellsMembers(members, desc, Some(d))).Some?
    requires UG.SpellsClose(close', '}', desc, UG.SpellsMembers(members', desc, Some(d))).Some?
    ensures members == members' && close == close'
    decreases members
  {
    hide Skip, Next, UG.Spells, UG.SpellsClose;
    if members.MCons? {
      UG.SpelledMember(members, close, desc, d);
    } else {
      UG.FirstOfClose(close, '}', desc, d);
    }
    if members'.MCons? {
      UG.SpelledMember(members', close', desc, d);
    } else {
      UG.FirstOfClose(close', '}', desc, d);
    }
    if members.MCons? {
      var ek := EatIf(desc, Some(Next(desc, d)), members.optional, '?');
      OneReading(members.head, members'.head, desc, ek.value);
      var e := UG.Spells(members.head, desc, ek);
      OneReadingOfMembers(members.tail, close, members'.tail, close', desc, e.value);
    } else {
      OneClose(close, close', '}', desc, d);
    }
  }

  /** For any reading `f` of the format, unpacking succeeds exactly when the tree fits `f`. */
  lemma UnpackByReading(f: UG.Fmt, desc: string, obj: Json, args: seq<U.Arg>, store: bool, writes: seq<U.Write>)
    requires UG.IsFormat(f, desc)
    ensures U.Meaning(obj, Some(desc), args, store) == U.Unpacked(writes)
        <==> UG.Depth(f) <= STACKCOUNT && UG.Fits(f, args, store, obj, false, 0) == Some(writes)
  {
    hide Skip, U.Meaning, UG.Fits, UG.Spells, UG.Depth;
    UG.UnpackAccepts(obj, desc, args, store, writes);
    forall g | UG.IsFormat(g, desc)
      ensures g == f
    {
      OneReading(f, g, desc, Skip(desc, 0));
    }
  }

  // ---------------------------------------------------------------- a spelling for every unpacking format

  /** Leaves are specifiers, and only strings have a length. */
  predicate WellFormed(f: UG.Fmt) {
    match f
    case FLeaf(c, sized) => U.Scalar(c) && (sized ==> c == 's')
    case FArr(items, _) => WellFormedItems(items)
    case FObj(members, _) => WellFormedMembers(members)
  }

  predicate WellFormedItems(items: UG.Items) {
    items.ICons? ==> WellFormed(items.head) && WellFormedItems(items.tail)
  }

  predicate WellFormedMembers(members: UG.Members) {
    members.MCons? ==> WellFormed(members.head) && WellFormedMembers(members.tail)
  }

  function Print(f: UG.Fmt): string {
    match f
    case FLeaf(c, sized) => [c] + if sized then "%" else ""
    case FArr(items, close) => ['['] + PrintItems(items, close)
    case FObj(members, close) => ['{'] + PrintMembers(members, close)
  }

  function PrintClose(close: UG.Close, closer: char): string {
    match close
    case Plain => [closer]
    case Star => ['*', closer]
    case Bang => ['!', closer]
  }

  function PrintItems(items: UG.Items, close: UG.Close): string {
    match items
    case INil => PrintClose(close, ']')
    case ICons(head, tail) => Print(head) + PrintItems(tail, close)
  }

  function PrintMembers(members: UG.Members, close: UG.Close): string {
    match members
    case MNil => PrintClose(close, '}')
    case MCons(optional, head, tail) =>
      PrintKey(optional) + (Print(head) + PrintMembers(tail, close))
  }

  /** `text` stands in `desc` at `d`, and does not begin with an ignored character. */
  predicate StandsAt(desc: string, d: nat, text: string) {
    d + |text| <= |desc| && desc[d..d + |text|] == text && text != "" && !Ignored(text[0])
  }

  lemma StandsSplit(desc: string, d: nat, a: string, b: string)
    requires StandsAt(desc, d, a + b) && a != "" && b != "" && !Ignored(b[0])
    ensures StandsAt(desc, d, a) && StandsAt(desc, d + |a|, b)
  {
    assert (a + b)[..|a|] == a && (a + b)[|a|..] == b && (a + b)[0] == a[0];
    assert desc[d..d + |a| + |b|][..|a|] == desc[d..d + |a|];
    assert desc[d..d + |a| + |b|][|a|..] == desc[d + |a|..d + |a| + |b|];
  }

  lemma EatsFirst(desc: string, d: nat, text: string)
    requires StandsAt(desc, d, text)
    ensures At(desc, d) == text[0] && Skip(desc, d) == d && Eat(desc, Some(d), text[0]) == Some(Skip(desc, d + 1))
  {
    assert desc[d..d + |text|][0] == desc[d];
  }

  /** Eating the first character of a text leaves the rest, where nothing is to be skipped. */
  lemma EatsOne(desc: string, d: nat, c: char, rest: string)
    requires StandsAt(desc, d, [c] + rest) && rest != "" && !Ignored(rest[0])
    ensures At(desc, d) == c && Eat(desc, Some(d), c) == Some(d + 1) && StandsAt(desc, d + 1, rest)
  {
    hide Skip, StandsAt;
    StandsSplit(desc, d, [c], rest);
    EatsFirst(desc, d, [c]);
    EatsFirst(desc, d + 1, rest);
  }

  lemma PrintBegins(f: UG.Fmt)
    requires WellFormed(f)
    ensures Print(f) != "" && !Ignored(Print(f)[0])
  {
  }

  lemma PrintItemsBegin(items: UG.Items, close: UG.Close)
    requires WellFormedItems(items)
    ensures PrintItems(items, close) != "" && !Ignored(PrintItems(items, close)[0])
  {
    if items.ICons? {
      PrintBegins(items.head);
    }
  }

  lemma PrintMembersBegin(members: UG.Members, close: UG.Close)
    requires WellFormedMembers(members)
    ensures PrintMembers(members, close) != "" && !Ignored(PrintMembers(members, close)[0])
  {
  }

  /** Where the printed text stands, the tree is spelled. */
  lemma {:induction false} PrintSpells(f: UG.Fmt, desc: string, d: nat)
    requires WellFormed(f) && StandsAt(desc, d, Print(f))
    ensures UG.Spells(f, desc, Some(d)) == Some(Skip(desc, d + |Print(f)|))
    decreases f
  {
    hide Skip, StandsAt, Eat, EatIf, Ignored, PrintItems, PrintMembers, UG.SpellsItems, UG.SpellsMembers;
    hide UG.SpellsClose;
    match f
    case FLeaf(c, sized) => PrintSpellsLeaf(c, sized, desc, d);
    case FArr(items, close) =>
      PrintItemsBegin(items, close);
      EatsOne(desc, d, '[', PrintItems(items, close));
      PrintSpellsItems(items, close, desc, d + 1);
    case FObj(members, close) =>
      PrintMembersBegin(members, close);
      EatsOne(desc, d, '{', PrintMembers(members, close));
      PrintSpellsMembers(members, close, desc, d + 1);
  }

  lemma PrintSpellsLeaf(c: char, sized: bool, desc: string, d: nat)
    requires U.Scalar(c) && (sized ==> c == 's') && StandsAt(desc, d, Print(UG.FLeaf(c, sized)))
    ensures UG.Spells(UG.FLeaf(c, sized), desc, Some(d)) == Some(Skip(desc, d + if sized then 2 else 1))
  {
    hide Skip, StandsAt;
    if sized {
      EatsOne(desc, d, c, "%");
      EatsFirst(desc, d + 1, "%");
    } else {
      EatsFirst(desc, d, [c] + "");
    }
  }

  lemma PrintSpellsClose(close: UG.Close, closer: char, desc: string, d: nat)
    requires (closer == ']' || closer == '}') && StandsAt(desc, d, PrintClose(close, closer))
    ensures UG.SpellsClose(close, closer, desc, Some(d)) == Some(Skip(desc, d + |PrintClose(close, closer)|))
  {
    hide Skip, StandsAt;
    if close.Plain? {
      EatsFirst(desc, d, [closer]);
    } else {
      var mark := if close.Star? then '*' else '!';
      assert PrintClose(close, closer) == [mark] + [closer];
      EatsOne(desc, d, mark, [closer]);
      EatsFirst(desc, d + 1, [closer]);
    }
  }

  /** After the first of two texts, nothing is to be skipped. */
  lemma StandsNext(desc: string, d: nat, a: string, b: string)
    requires StandsAt(desc, d, a + b) && a != "" && b != "" && !Ignored(b[0])
    ensures StandsAt(desc, d, a) && StandsAt(desc, d + |a|, b) && Skip(desc, d + |a|) == d + |a|
  {
    hide Skip, StandsAt;
    StandsSplit(desc, d, a, b);
    EatsFirst(desc, d + |a|, b);
  }

  lemma {:induction false} PrintSpellsItems(items: UG.Items, close: UG.Close, desc: string, d: nat)
    requires WellFormedItems(items) && StandsAt(desc, d, PrintItems(items, close))
    ensures UG.SpellsClose(close, ']', desc, UG.SpellsItems(items, desc, Some(d)))
         == Some(Skip(desc, d + |PrintItems(items, close)|))
    decreases items
  {
    hide Skip, StandsAt, Print, Ignored, UG.Spells, UG.SpellsClose, PrintClose;
    match items
    case INil => PrintSpellsClose(close, ']', desc, d);
    case ICons(head, tail) =>
      PrintBegins(head);
      PrintItemsBegin(tail, close);
      StandsNext(desc, d, Print(head), PrintItems(tail, close));
      PrintSpells(head, desc, d);
      PrintSpellsItems(tail, close, desc, d + |Print(head)|);
  }

  lemma {:induction false} PrintSpellsMembers(members: UG.Members, close: UG.Close, desc: string, d: nat)
    requires WellFormedMembers(members) && StandsAt(desc, d, PrintMembers(members, close))
    ensures UG.SpellsClose(close, '}', desc, UG.SpellsMembers(members, desc, Some(d)))
         == Some(Skip(desc, d + |PrintMembers(members, close)|))
    decreases members
  {
    hide Skip, StandsAt, Print, Ignored, Eat, EatIf, UG.Spells, UG.SpellsClose, PrintClose;
    match members
    case MNil => PrintSpellsClose(close, '}', desc, d);
    case MCons(optional, head, tail) =>
      PrintBegins(head);
      PrintMembersBegin(tail, close);
      var rest := Print(head) + PrintMembers(tail, close);
      KeyStands(optional, rest, desc, d);
      var e := d + if optional then 2 else 1;
      StandsNext(desc, e, Print(head), PrintMembers(tail, close));
      PrintSpells(head, desc, e);
      PrintSpellsMembers(tail, close, desc, e + |Print(head)|);
  }

  function PrintKey(optional: bool): string {
    if optional then ['s', '?'] else ['s']
  }

  lemma KeyStands(optional: bool, rest: string, desc: string, d: nat)
    requires rest != "" && !Ignored(rest[0]) && StandsAt(desc, d, PrintKey(optional) + rest)
    ensures var e := d + |PrintKey(optional)|;
      StandsAt(desc, e, rest) && EatIf(desc, Eat(desc, Some(d), 's'), optional, '?') == Some(e)
  {
    hide Skip, StandsAt;
    if optional {
      assert PrintKey(optional) + rest == ['s'] + (['?'] + rest);
      EatsOne(desc, d, 's', ['?'] + rest);
      EatsOne(desc, d + 1, '?', rest);
    } else {
      EatsOne(desc, d, 's', rest);
    }
  }

  /** The printed tree is a format that is read as this tree. */
  lemma PrintIsFormat(f: UG.Fmt)
    requires WellFormed(f)
    ensures UG.IsFormat(f, Print(f))
  {
    hide StandsAt, Print, UG.Spells;
    PrintBegins(f);
    assert StandsAt(Print(f), 0, Print(f)) by {
      StandsWhole(Print(f));
    }
    EatsFirst(Print(f), 0, Print(f));
    PrintSpells(f, Print(f), 0);
  }

  lemma StandsWhole(text: string)
    requires text != "" && !Ignored(text[0])
    ensures StandsAt(text, 0, text)
  {
  }

  // ---------------------------------------------------------------- packing formats

  /** The same fragments, `?` before or after the length. */
  predicate AlikeText(t: PG.Text, t': PG.Text) {
    && t.frag.size == t'.frag.size
    && (t.frag.pre || t.frag.post) == (t'.frag.pre || t'.frag.post)
    && t.Plus? == t'.Plus?
    && (t.Plus? ==> AlikeText(t.rest, t'.rest))
  }

  predicate Alike(f: PG.Fmt, g: PG.Fmt) {
    match f
    case FText(t) => g.FText? && AlikeText(t, g.text)
    case FArr(items) => g.FArr? && AlikeItems(items, g.items)
    case FObj(members) => g.FObj? && AlikeMembers(members, g.members)
    case _ => f == g
  }

  predicate AlikeItems(items: PG.Items, items': PG.Items) {
    match items
    case INil => items'.INil?
    case ICons(head, star, tail) =>
      items'.ICons? && star == items'.star && Alike(head, items'.head) && AlikeItems(tail, items'.tail)
  }

  predicate AlikeMembers(members: PG.Members, members': PG.Members) {
    match members
    case MNil => members'.MNil?
    case MCons(key, head, star, tail) =>
      && members'.MCons? && star == members'.star && AlikeText(key, members'.key)
      && Alike(head, members'.head) && AlikeMembers(tail, members'.tail)
  }

  lemma FragReadings(f: PG.Frag, g: PG.Frag, desc: string, d: nat)
    requires var e := PG.SpellsFrag(f, desc, Some(d)); e.Some? && At(desc, e.value) !in "?%#"
    requires var e := PG.SpellsFrag(g, desc, Some(d)); e.Some? && At(desc, e.value) !in "?%#"
    ensures f.size == g.size && (f.pre || f.post) == (g.pre || g.post)
    ensures PG.SpellsFrag(f, desc, Some(d)) == PG.SpellsFrag(g, desc, Some(d))
  {
    hide Skip, Next;
  }

  lemma {:induction false} TextReadings(t: PG.Text, t': PG.Text, desc: string, d: nat)
    requires var e := PG.SpellsText(t, desc, Some(d)); e.Some? && At(desc, e.value) !in "?%#+"
    requires var e := PG.SpellsText(t', desc, Some(d)); e.Some? && At(desc, e.value) !in "?%#+"
    ensures AlikeText(t, t') && PG.SpellsText(t, desc, Some(d)) == PG.SpellsText(t', desc, Some(d))
    decreases t
  {
    hide Skip, Next, PG.SpellsFrag;
    FragEnds(t, desc, d);
    FragEnds(t', desc, d);
    FragReadings(t.frag, t'.frag, desc, d);
    if t.Plus? {
      TextReadings(t.rest, t'.rest, desc, Next(desc, PG.SpellsFrag(t.frag, desc, Some(d)).value));
    }
  }

  lemma FragEnds(t: PG.Text, desc: string, d: nat)
    requires var e := PG.SpellsText(t, desc, Some(d)); e.Some? && At(desc, e.value) !in "?%#+"
    ensures var e := PG.SpellsFrag(t.frag, desc, Some(d));
      e.Some? && At(desc, e.value) !in "?%#" && (t.Plus? <==> At(desc, e.value) == '+')
  {
    hide Skip, Next, PG.SpellsFrag;
    if t.Plus? {
      PG.SpellsNothing(t.rest, desc);
    }
  }

  function Opener(f: PG.Fmt): char {
    match f
    case FText(_) => 's'
    case FNull => 'n'
    case FBool => 'b'
    case FInt => 'i'
    case FInt64 => 'I'
    case FDouble => 'f'
    case FAny(own, _) => if own then 'O' else 'o'
    case FArr(_) => '['
    case FObj(_) => '{'
  }

  lemma OpensWith(f: PG.Fmt, desc: string, d: nat)
    requires PG.Spells(f, desc, Some(d)).Some?
    ensures At(desc, d) == Opener(f)
  {
    hide Skip, Next;
    match f
    case FText(t) => if At(desc, d) != 's' { PG.SpellsNothing(t, desc); }
    case FArr(items) => if At(desc, d) != '[' { PG.ItemsFromNothing(items, desc); }
    case FObj(members) => if At(desc, d) != '{' { PG.MembersFromNothing(members, desc); }
    case _ =>
  }

  /** Two syntax trees spelled at one cursor are alike, if nothing that belongs to a value follows. */
  lemma {:induction false} Readings(f: PG.Fmt, g: PG.Fmt, desc: string, d: nat)
    requires var e := PG.Spells(f, desc, Some(d)); e.Some? && At(desc, e.value) !in "?%#+"
    requires var e := PG.Spells(g, desc, Some(d)); e.Some? && At(desc, e.value) !in "?%#+"
    ensures Alike(f, g) && PG.Spells(f, desc, Some(d)) == PG.Spells(g, desc, Some(d))
    decreases f
  {
    hide Skip, Next, PG.SpellsItems, PG.SpellsMembers, PG.SpellsText, AlikeText, AlikeItems, AlikeMembers;
    OpensWith(f, desc, d);
    OpensWith(g, desc, d);
    match f
    case FText(t) => TextReadings(t, g.text, desc, Next(desc, d));
    case FArr(items) => ItemsReadings(items, g.items, desc, Next(desc, d));
    case FObj(members) => MembersReadings(members, g.members, desc, Next(desc, d));
    case _ =>
  }

  lemma {:induction false} ItemsReadings(items: PG.Items, items': PG.Items, desc: string, d: nat)
    requires PG.SpellsItems(items, desc, Some(d)).Some? && PG.SpellsItems(items', desc, Some(d)).Some?
    ensures AlikeItems(items, items')
    ensures PG.SpellsItems(items, desc, Some(d)) == PG.SpellsItems(items', desc, Some(d))
    decreases items
  {
    hide Skip, Next, PG.Spells, Alike;
    if items.ICons? {
      PG.SpelledItem(items, desc, d);
    }
    if items'.ICons? {
      PG.SpelledItem(items', desc, d);
    }
    if items.ICons? {
      Readings(items.head, items'.head, desc, d);
      var e := PG.Spells(items.head, desc, Some(d)).value;
      ItemsReadings(items.tail, items'.tail, desc, if items.star then Next(desc, e) else e);
    }
  }

  lemma {:induction false} MembersReadings(members: PG.Members, members': PG.Members, desc: string, d: nat)
    requires PG.SpellsMembers(members, desc, Some(d)).Some? && PG.SpellsMembers(members', desc, Some(d)).Some?
    ensures AlikeMembers(members, members')
    ensures PG.SpellsMembers(members, desc, Some(d)) == PG.SpellsMembers(members', desc, Some(d))
    decreases members
  {
    hide Skip, Next, PG.Spells, PG.SpellsText, Alike, AlikeText;
    if members.MCons? {
      PG.SpelledMember(members, desc, d);
    }
    if members'.MCons? {
      PG.SpelledMember(members', desc, d);
    }
    if members.MCons? {
      TextReadings(members.key, members'.key, desc, Next(desc, d));
      var ek := PG.SpellsText(members.key, desc, Some(Next(desc, d)));
      Readings(members.head, members'.head, desc, ek.value);
      var e := PG.Spells(members.head, desc, ek).value;
      MembersReadings(members.tail, members'.tail, desc, if members.star then Next(desc, e) else e);
    }
  }

  lemma {:induction false} AlikeTextSame(t: PG.Text, t': PG.Text, args: seq<P.Arg>, a: nat)
    requires AlikeText(t, t')
    ensures PG.DenoteText(t, args, a) == PG.DenoteText(t', args, a)
    ensures PG.Questioned(t) == PG.Questioned(t') && PG.Pieces(t) == PG.Pieces(t')
    decreases t
  {
    hide CString;
    var one := PG.DenoteFrag(t.frag, args, a);
    if t.Plus? {
      AlikeTextSame(t.rest, t'.rest, args, if one.Some? then one.value.1 else 0);
    }
  }

  /** Trees that are alike have the same limits and the same denotation. */
  lemma {:induction false} AlikeSame(f: PG.Fmt, g: PG.Fmt, star: bool, args: seq<P.Arg>, a: nat)
    requires Alike(f, g)
    ensures PG.Denote(f, star, args, a) == PG.Denote(g, star, args, a)
    ensures PG.Depth(f) == PG.Depth(g) && PG.Small(f) == PG.Small(g)
    decreases f
  {
    hide CString, PG.DenoteItems, PG.DenoteMembers, PG.DenoteText, AlikeText, AlikeItems, AlikeMembers;
    match f
    case FText(t) => AlikeTextSame(t, g.text, args, a);
    case FArr(items) => AlikeItemsSame(items, g.items, args, a);
    case FObj(members) => AlikeMembersSame(members, g.members, args, a);
    case _ =>
  }

  lemma {:induction false} AlikeItemsSame(items: PG.Items, items': PG.Items, args: seq<P.Arg>, a: nat)
    requires AlikeItems(items, items')
    ensures PG.DenoteItems(items, args, a) == PG.DenoteItems(items', args, a)
    ensures PG.DepthItems(items) == PG.DepthItems(items') && PG.SmallItems(items) == PG.SmallItems(items')
    decreases items
  {
    hide PG.Denote, PG.Depth, PG.Small, Alike;
    if items.ICons? {
      AlikeSame(items.head, items'.head, items.star, args, a);
      var v := PG.Denote(items.head, items.star, args, a);
      AlikeItemsSame(items.tail, items'.tail, args, if v.Some? then v.value.1 else 0);
    }
  }

  lemma {:induction false} AlikeMembersSame(members: PG.Members, members': PG.Members, args: seq<P.Arg>, a: nat)
    requires AlikeMembers(members, members')
    ensures PG.DenoteMembers(members, args, a) == PG.DenoteMembers(members', args, a)
    ensures PG.DepthMembers(members) == PG.DepthMembers(members')
    ensures PG.SmallMembers(members) == PG.SmallMembers(members')
    decreases members
  {
    hide PG.Denote, PG.Depth, PG.Small, PG.Pieces, PG.DenoteText, Alike, AlikeText, CString;
    if members.MCons? {
      AlikeTextSame(members.key, members'.key, args, a);
      var name := PG.TextValue(members.key, false, args, a);
      assert name == PG.TextValue(members'.key, false, args, a);
      var b := if name.Some? then name.value.1 else 0;
      AlikeSame(members.head, members'.head, members.star, args, b);
      var v := PG.Denote(members.head, members.star, args, b);
      AlikeMembersSame(members.tail, members'.tail, args, if v.Some? then v.value.1 else 0);
    }
  }

  /** For any reading `f` of the format, packing succeeds exactly when `f` builds the result. */
  lemma PackByReading(f: PG.Fmt, desc: string, args: seq<P.Arg>, j: Json)
    requires PG.IsFormat(f, desc)
    ensures P.Meaning(Some(desc), args) == P.Packed(j) <==> PG.Builds(f, args, j)
  {
    hide Skip, P.Meaning, PG.Denote, PG.Spells, PG.Depth, PG.Small, Alike;
    PG.PackAccepts(desc, args, j);
    forall g | PG.IsFormat(g, desc)
      ensures PG.Builds(g, args, j) == PG.Builds(f, args, j)
    {
      Readings(f, g, desc, Skip(desc, 0));
      AlikeSame(f, g, false, args, 0);
    }
  }
}
