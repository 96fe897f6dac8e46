/** Strings packed from several fragments: what every list of fragments amounts to, as a value and as a key. */
module WrapJsonTexts {
  import opened Options
  import opened WrapJsonBase
  import opened WrapJsonPack

  /** How many characters of a text are taken: those before its first NUL, or a number given as size_t or as int. */
  datatype Length = Whole | BySize(n: nat) | ByInt(i: int32)

  datatype Piece = Piece(text: Option<string>, length: Length, question: bool)

  function PrintPiece(p: Piece): string {
    (match p.length case Whole => "" case BySize(_) => "%" case ByInt(_) => "#") + if p.question then "?" else ""
  }

  /** What follows the `s`: the pieces, separated by `+`. */
  function PrintPieces(ps: seq<Piece>): string {
    if ps == [] then ""
    else if |ps| == 1 then PrintPiece(ps[0])
    else PrintPiece(ps[0]) + (['+'] + PrintPieces(ps[1..]))
  }

  function ArgsOfPiece(p: Piece): seq<Arg> {
    [StrArg(p.text)] + match p.length case Whole => [] case BySize(n) => [SizeArg(n)] case ByInt(i) => [IntArg(i)]
  }

  function ArgsOf(ps: seq<Piece>): seq<Arg> {
    if ps == [] then [] else ArgsOfPiece(ps[0]) + ArgsOf(ps[1..])
  }

  /** The characters asked for are there. */
  predicate Bounded(p: Piece) {
    match p.length
    case Whole => true
    case BySize(n) => if p.text.Some? then n <= |p.text.value| else n == 0
    case ByInt(i) => if p.text.Some? then 0 <= i <= |p.text.value| else i == 0
  }

  /** What a piece contributes; NULL contributes nothing. */
  function Taken(p: Piece): string
    requires Bounded(p)
  {
    if p.text.None? then ""
    else
      match p.length
      case Whole => CString(p.text.value)
      case BySize(n) => p.text.value[..n]
      case ByInt(i) => p.text.value[..i]
  }

  predicate AllBounded(ps: seq<Piece>) {
    forall i :: 0 <= i < |ps| ==> Bounded(ps[i])
  }

  /** The first pieces, then the last one. */
  function Joined(ps: seq<Piece>): string
    requires AllBounded(ps)
  {
    if ps == [] then "" else Joined(ps[..|ps| - 1]) + Taken(ps[|ps| - 1])
  }

  predicate AnyText(ps: seq<Piece>) {
    exists i :: 0 <= i < |ps| && ps[i].text.Some?
  }

  predicate AnyQuestion(ps: seq<Piece>) {
    exists i :: 0 <= i < |ps| && ps[i].question
  }

  // ---------------------------------------------------------------- as fragments

  function FragOf(p: Piece): Fragment {
    Fragment(p.text,
             match p.length
             case Whole => if p.text.Some? then |CString(p.text.value)| else 0
             case BySize(n) => n
             case ByInt(i) => i)
  }

  function Frags(ps: seq<Piece>): (r: seq<Fragment>)
    ensures |r| == |ps| && forall i :: 0 <= i < |ps| ==> r[i] == FragOf(ps[i])
  {
    if ps == [] then [] else [FragOf(ps[0])] + Frags(ps[1..])
  }

  lemma FragTakes(p: Piece)
    ensures Readable(FragOf(p)) <==> Bounded(p)
    ensures Bounded(p) ==> Bytes(FragOf(p)) == Taken(p)
  {
    if p.text.Some? {
      CStringEnds(p.text.value);
    }
  }

  lemma FragsAre(ps: seq<Piece>)
    ensures AllReadable(Frags(ps)) <==> AllBounded(ps)
    ensures NotNull(Frags(ps)) <==> AnyText(ps)
  {
    hide CString, Readable, Bounded, Frags, FragOf;
    forall i | 0 <= i < |ps|
      ensures Readable(Frags(ps)[i]) <==> Bounded(ps[i])
      ensures Frags(ps)[i].text == ps[i].text
    {
      FragTakes(ps[i]);
      FragHasText(ps[i]);
    }
  }

  lemma FragHasText(p: Piece)
    ensures FragOf(p).text == p.text
  {
  }

  /** The fragments together are the pieces together. */
  lemma {:induction false} FragsJoin(ps: seq<Piece>)
    requires AllBounded(ps)
    ensures AllReadable(Frags(ps)) && Concat(Frags(ps)) == Joined(ps)
  {
    hide CString, FragOf, Readable, Taken, Bytes, Concat;
    FragsAre(ps);
    if ps == [] {
      ConcatNothing();
    } else {
      var n := |ps| - 1;
      FragsJoin(ps[..n]);
      FragTakes(ps[n]);
      assert Frags(ps) == Frags(ps[..n]) + [FragOf(ps[n])];
      assert AllReadable([FragOf(ps[n])]);
      ConcatJoins([FragOf(ps[n])], []);
      ConcatJoins(Frags(ps[..n]), [FragOf(ps[n])]);
    }
  }

  lemma ConcatNothing()
    ensures Concat([]) == ""
  {
  }

  // ---------------------------------------------------------------- reading the pieces

  /** `text` stands in `desc` at `d`, has only modifiers, and nothing after it is ignored. */
  predicate Tight(desc: string, d: nat, text: string) {
    && d + |text| <= |desc| && desc[d..d + |text|] == text && !Ignored(At(desc, d + |text|))
    && forall i :: 0 <= i < |text| ==> text[i] in "%#?+"
  }

  lemma TightFirst(desc: string, d: nat, c: char, rest: string)
    requires Tight(desc, d, [c] + rest)
    ensures d < |desc| && desc[d] == c && Next(desc, d) == d + 1 && Tight(desc, d + 1, rest)
  {
    var text := [c] + rest;
    assert text[0] == c && text[1..] == rest;
    assert desc[d..d + |text|][0] == desc[d];
    assert desc[d..d + |text|][1..] == desc[d + 1..d + |text|];
    assert forall i :: 0 <= i < |rest| ==> rest[i] == text[i + 1];
    if rest != [] {
      assert desc[d + 1..d + |text|][0] == desc[d + 1] == rest[0];
    }
  }

  /** The arguments of the piece come next. */
  predicate ArgsAt(args: seq<Arg>, a: nat, own: seq<Arg>) {
    a + |own| <= |args| && args[a..a + |own|] == own
  }

  lemma ArgsSplit(args: seq<Arg>, a: nat, x: seq<Arg>, y: seq<Arg>)
    requires ArgsAt(args, a, x + y)
    ensures ArgsAt(args, a, x) && ArgsAt(args, a + |x|, y)
  {
    assert args[a..a + |x + y|][..|x|] == args[a..a + |x|] && (x + y)[..|x|] == x;
    assert args[a..a + |x + y|][|x|..] == args[a + |x|..a + |x| + |y|] && (x + y)[|x|..] == y;
  }

  lemma ArgsOne(args: seq<Arg>, a: nat, x: seq<Arg>, i: nat)
    requires ArgsAt(args, a, x) && i < |x|
    ensures args[a + i] == x[i]
  {
    assert args[a..a + |x|][i] == args[a + i];
  }

  /** What may follow a piece: a `+`, or anything that does not belong to it. */
  predicate Follows(desc: string, d: nat, p: Piece, rest: string) {
    && Tight(desc, d, PrintPiece(p) + rest)
    && (rest != "" ==> rest[0] == '+')
    && At(desc, d + |PrintPiece(p) + rest|) !in "?%#+"
  }

  /** The marks of a piece, and where they end. */
  lemma MarksAt(desc: string, d: nat, p: Piece, rest: string)
    requires Follows(desc, d, p, rest)
    ensures var m := if p.length.Whole? then 0 else 1;
      var q := if p.question then 1 else 0;
      && |PrintPiece(p)| == m + q && d + m + q <= |desc| && Tight(desc, d + m + q, rest)
      && (m == 1 ==> At(desc, d) == (if p.length.BySize? then '%' else '#') && Next(desc, d) == d + 1)
      && (q == 1 ==> At(desc, d + m) == '?' && Next(desc, d + m) == d + m + 1)
      && At(desc, d + m + q) !in "?%#" && (At(desc, d + m + q) == '+' <==> rest != "")
  {
    hide Skip, Next, Tight;
    var tail := (if p.question then "?" else "") + rest;
    var c := if p.length.BySize? then '%' else '#';
    var e := if p.length.Whole? then d else d + 1;
    assert PrintPiece(p) + rest == (if p.length.Whole? then "" else [c]) + tail;
    MarkAt(desc, d, !p.length.Whole?, c, tail);
    MarkAt(desc, e, p.question, '?', rest);
    var f := if p.question then e + 1 else e;
    if rest != "" {
      assert rest == ['+'] + rest[1..];
      TightFirst(desc, f, '+', rest[1..]);
    } else {
      assert PrintPiece(p) + rest == PrintPiece(p);
    }
    TightInside(desc, f, rest);
  }

  /** A mark that may be there, and the rest of the text after it. */
  lemma MarkAt(desc: string, d: nat, there: bool, c: char, rest: string)
    requires Tight(desc, d, (if there then [c] else "") + rest)
    ensures there ==> At(desc, d) == c && Next(desc, d) == d + 1 && Tight(desc, d + 1, rest)
    ensures !there ==> Tight(desc, d, rest)
  {
    hide Next, Tight;
    if there {
      TightFirst(desc, d, c, rest);
    } else {
      assert "" + rest == rest;
    }
  }

  lemma TightInside(desc: string, d: nat, text: string)
    requires Tight(desc, d, text)
    ensures d + |text| <= |desc|
  {
  }

  /** One piece is read as its fragment, up to what follows it. */
  lemma ReadsPiece(k: Call, p: Piece, rest: string, d: nat, a: nat)
    requires Follows(k.desc, d, p, rest) && ArgsAt(k.args, a, ArgsOfPiece(p)) && d <= |k.desc|
    ensures ReadFragment(k, d, a) == Done((FragOf(p), p.question), d + |PrintPiece(p)|, a + |ArgsOfPiece(p)|)
  {
    ArgsOne(k.args, a, ArgsOfPiece(p), 0);
    if !p.length.Whole? {
      ArgsOne(k.args, a, ArgsOfPiece(p), 1);
    }
    MarksAt(k.desc, d, p, rest);
    hide Skip, Next, CString, Follows, Tight, ArgsAt, PrintPiece;
  }

  lemma QuestionSplit(ps: seq<Piece>)
    requires ps != []
    ensures AnyQuestion(ps) <==> ps[0].question || AnyQuestion(ps[1..])
  {
    assert forall i :: 0 < i < |ps| ==> ps[1..][i - 1] == ps[i];
    assert forall i :: 0 <= i < |ps[1..]| ==> ps[1..][i] == ps[i + 1];
  }

  lemma PrintSplit(ps: seq<Piece>)
    requires ps != []
    ensures var rest := if |ps| == 1 then "" else ['+'] + PrintPieces(ps[1..]);
      PrintPieces(ps) == PrintPiece(ps[0]) + rest
  {
    hide PrintPiece;
    var first := PrintPiece(ps[0]);
    assert first + "" == first;
  }

  /** The first piece and the others. */
  lemma PiecesSplit(ps: seq<Piece>)
    requires ps != []
    ensures var rest := if |ps| == 1 then "" else ['+'] + PrintPieces(ps[1..]);
      PrintPieces(ps) == PrintPiece(ps[0]) + rest
    ensures AnyQuestion(ps) <==> ps[0].question || AnyQuestion(ps[1..])
    ensures Frags(ps) == [FragOf(ps[0])] + Frags(ps[1..]) && ArgsOf(ps) == ArgsOfPiece(ps[0]) + ArgsOf(ps[1..])
  {
    hide PrintPiece, PrintPieces, FragOf, ArgsOfPiece, AnyQuestion;
    QuestionSplit(ps);
    PrintSplit(ps);
  }

  /** The whole list is printed at `d`, and what comes after does not belong to it. */
  predicate Listed(k: Call, ps: seq<Piece>, d: nat, a: nat) {
    && ps != [] && d <= |k.desc| && Tight(k.desc, d, PrintPieces(ps)) && ArgsAt(k.args, a, ArgsOf(ps))
    && At(k.desc, d + |PrintPieces(ps)|) !in "?%#+"
  }

  /** What remains of the list after its first piece. */
  lemma ListedNext(k: Call, ps: seq<Piece>, d: nat, a: nat)
    requires Listed(k, ps, d, a)
    ensures var e := d + |PrintPiece(ps[0])|;
      && e <= |k.desc| && ReadFragment(k, d, a) == Done((FragOf(ps[0]), ps[0].question), e, a + |ArgsOfPiece(ps[0])|)
      && (At(k.desc, e) == '+' <==> |ps| > 1)
      && (|ps| > 1 ==> Next(k.desc, e) == e + 1 && Listed(k, ps[1..], e + 1, a + |ArgsOfPiece(ps[0])|))
      && |PrintPieces(ps)| == |PrintPiece(ps[0])| + (if |ps| == 1 then 0 else 1 + |PrintPieces(ps[1..])|)
      && |ArgsOf(ps)| == |ArgsOfPiece(ps[0])| + |ArgsOf(ps[1..])|
  {
    hide Skip, Next, CString, Tight, ArgsAt, PrintPiece, PrintPieces, ArgsOf, ArgsOfPiece, FragOf;
    PiecesSplit(ps);
    var rest := if |ps| == 1 then "" else ['+'] + PrintPieces(ps[1..]);
    ArgsSplit(k.args, a, ArgsOfPiece(ps[0]), ArgsOf(ps[1..]));
    MarksAt(k.desc, d, ps[0], rest);
    ReadsPiece(k, ps[0], rest, d, a);
    if |ps| > 1 {
      TightFirst(k.desc, d + |PrintPiece(ps[0])|, '+', PrintPieces(ps[1..]));
    }
  }

  /** A list of pieces is read as its fragments, and refused after the eighth if there are more. */
  lemma {:induction false} ReadsPieces(k: Call, ps: seq<Piece>, d: nat, a: nat, strs: seq<Fragment>, nullable: bool)
    requires ps != [] && Listed(k, ps, d, a) && |strs| < 8
    ensures |strs| + |ps| <= 8 ==>
      ReadFragments(k, d, a, strs, nullable)
      == Done((strs + Frags(ps), nullable || AnyQuestion(ps)), d + |PrintPieces(ps)|, a + |ArgsOf(ps)|)
    ensures |strs| + |ps| > 8 ==>
      ReadFragments(k, d, a, strs, nullable) == Fail(TooLong, d + |PrintPieces(ps[..8 - |strs|])|)
    decreases ps
  {
    hide Skip, Next, CString, Listed, PrintPiece, PrintPieces, ArgsOf, ArgsOfPiece, FragOf, ReadFragment, AnyQuestion;
    hide Frags;
    PiecesSplit(ps);
    ListedNext(k, ps, d, a);
    var e, b := d + |PrintPiece(ps[0])|, a + |ArgsOfPiece(ps[0])|;
    if |ps| == 1 {
      NoPieces();
      assert ps[1..] == [];
      assert Frags(ps) == [FragOf(ps[0])];
      assert |ArgsOf(ps)| == |ArgsOfPiece(ps[0])|;
      assert AnyQuestion(ps) == ps[0].question;
      assert |PrintPieces(ps)| == |PrintPiece(ps[0])|;
    } else if |strs| + 1 < 8 {
      ReadsPieces(k, ps[1..], e + 1, b, strs + [FragOf(ps[0])], nullable || ps[0].question);
      assert strs + [FragOf(ps[0])] + Frags(ps[1..]) == strs + ([FragOf(ps[0])] + Frags(ps[1..]));
      if |strs| + |ps| > 8 {
        var n := 8 - |strs|;
        PiecesSplit(ps[..n]);
        assert ps[..n][1..] == ps[1..][..n - 1] && ps[..n][0] == ps[0];
      }
    } else {
      PiecesSplit(ps[..1]);
      assert ps[..1][0] == ps[0];
    }
  }

  lemma NoPieces()
    ensures Frags([]) == [] && !AnyQuestion([]) && ArgsOf([]) == []
  {
  }

  // ---------------------------------------------------------------- values and keys

  lemma ListedSome(k: Call, ps: seq<Piece>, d: nat, a: nat)
    requires Listed(k, ps, d, a)
    ensures ps != [] && d <= |k.desc|
  {
  }

  /** The string of the pieces; null if all are NULL and one has a `?`. */
  lemma ReadsString(k: Call, ps: seq<Piece>, d: nat, a: nat)
    requires Listed(k, ps, d, a) && At(k.desc, d + |PrintPieces(ps)|) != '*'
    ensures var e := d + |PrintPieces(ps)|;
      ReadText(k, d, a) ==
        if |ps| > 8 then Fail(TooLong, d + |PrintPieces(ps[..8])|)
        else if AnyText(ps) then
          if AllBounded(ps) then Done(Str(Joined(ps)), e, a + |ArgsOf(ps)|) else BadCall
        else if AnyQuestion(ps) then Done(Null, e, a + |ArgsOf(ps)|)
        else Fail(NullString, e)
  {
    hide Skip, Listed, PrintPieces, ArgsOf, Frags, ReadFragments, AnyQuestion, AnyText, AllBounded, Joined, Concat;
    hide AllReadable, NotNull;
    ListedSome(k, ps, d, a);
    ReadsPieces(k, ps, d, a, [], false);
    FragsAre(ps);
    assert [] + Frags(ps) == Frags(ps);
    if AllBounded(ps) {
      FragsJoin(ps);
    }
  }

  lemma {:induction false} OnlyMarks(ps: seq<Piece>)
    ensures forall i :: 0 <= i < |PrintPieces(ps)| ==> PrintPieces(ps)[i] in "%#?+"
  {
    if ps != [] {
      PiecesSplit(ps);
      OnlyMarks(ps[1..]);
    }
  }

  lemma StandsListed(k: Call, ps: seq<Piece>, before: string, after: string)
    requires ps != [] && k.desc == before + PrintPieces(ps) + after && k.args == ArgsOf(ps)
    requires after != "" ==> !Ignored(after[0]) && after[0] !in "?%#+"
    ensures Listed(k, ps, |before|, 0)
  {
    hide PrintPieces, ArgsOf;
    OnlyMarks(ps);
  }

  /** Packing `s` with any pieces: up to eight are joined in order; NULL ones contribute nothing, and if all are NULL
      a `?` after any of them makes the value null. */
  lemma PackPieces(ps: seq<Piece>)
    requires ps != []
    ensures Meaning(Some("s" + PrintPieces(ps)), ArgsOf(ps)) ==
      if |ps| > 8 then Refused(TooLong, 1 + |PrintPieces(ps[..8])|)
      else if AnyText(ps) then if AllBounded(ps) then Packed(Str(Joined(ps))) else Undefined
      else if AnyQuestion(ps) then Packed(Null)
      else Refused(NullString, 1 + |PrintPieces(ps)|)
  {
    hide PrintPieces, ArgsOf, AnyQuestion, AnyText, AllBounded, Joined, Listed, ReadText;
    var k := Call("s" + PrintPieces(ps), ArgsOf(ps));
    var e := 1 + |PrintPieces(ps)|;
    assert k.desc == "s" + PrintPieces(ps) + "";
    StandsListed(k, ps, "s", "");
    ReadsString(k, ps, 1, 0);
    OpensAt(k.desc, 0, ps);
    assert ReadValue(k, 0, 0, 0) == ReadText(k, 1, 0);
  }

  /** An `s` before pieces is consumed alone. */
  lemma OpensAt(desc: string, d: nat, ps: seq<Piece>)
    requires d < |desc| && desc[d] == 's' && d + 1 + |PrintPieces(ps)| <= |desc|
    requires desc[d + 1..d + 1 + |PrintPieces(ps)|] == PrintPieces(ps)
    requires !Ignored(At(desc, d + 1 + |PrintPieces(ps)|))
    ensures Skip(desc, d) == d && Next(desc, d) == d + 1
  {
    hide PrintPieces;
    OnlyMarks(ps);
    var text := PrintPieces(ps);
    if text != "" {
      assert desc[d + 1..d + 1 + |text|][0] == desc[d + 1];
    }
  }

  /** The same of a key, here of a null member. */
  lemma PackKey(ps: seq<Piece>)
    requires ps != []
    ensures Meaning(Some("{s" + PrintPieces(ps) + "n}"), ArgsOf(ps)) ==
      if |ps| > 8 then Refused(TooLong, 2 + |PrintPieces(ps[..8])|)
      else if AnyText(ps) then
        if AllBounded(ps) then Packed(Obj(map[CString(Joined(ps)) := Null])) else Undefined
      else if AnyQuestion(ps) then Refused(NullKey, 2 + |PrintPieces(ps)|)
      else Refused(NullString, 2 + |PrintPieces(ps)|)
  {
    hide PrintPieces, ArgsOf, AnyQuestion, AnyText, AllBounded, Joined, Listed, ReadText, CString;
    var k := Call("{s" + PrintPieces(ps) + "n}", ArgsOf(ps));
    var e := 2 + |PrintPieces(ps)|;
    assert k.desc[e] == 'n' && k.desc[e + 1] == '}' && |k.desc| == e + 2;
    StandsListed(k, ps, "{s", "n}");
    ReadsString(k, ps, 2, 0);
    OpensAt(k.desc, 1, ps);
    assert Skip(k.desc, 0) == 0 && Next(k.desc, 0) == 1;
    assert ReadValue(k, 0, 0, 0) == ReadMembers(k, 1, 0, 1, map[]);
    hide Skip, Next, ReadValue;
    var key := ReadText(k, 2, 0);
    if key.Done? && key.value.Str? {
      NullMember(k, e, key.a, key.value.s);
    }
  }

  lemma NullMember(k: Call, e: nat, a: nat, name: string)
    requires e + 2 == |k.desc| && k.desc[e] == 'n' && k.desc[e + 1] == '}'
    ensures ReadMember(k, e, a, 1, map[], name) == Done(Obj(map[CString(name) := Null]), e + 2, a)
  {
    hide CString;
    assert Next(k.desc, e) == e + 1 && Next(k.desc, e + 1) == e + 2;
    assert ReadValue(k, e, a, 1) == Done(Null, e + 1, a);
    var members := AddMember(k, map[], name, Null, e + 1);
    assert members == map[CString(name) := Null];
    assert ReadMembers(k, e + 1, a, 1, members) == Done(Obj(members), e + 2, a);
  }

  // ---------------------------------------------------------------- plain strings

  /** The strings one after the other, from the first to the last. */
  function Sum(ts: seq<string>): string {
    if ts == [] then "" else Sum(ts[..|ts| - 1]) + ts[|ts| - 1]
  }

  function Plain(ts: seq<string>): seq<Piece> {
    seq(|ts|, i requires 0 <= i < |ts| => Piece(Some(ts[i]), Whole, false))
  }

  function Pluses(n: nat): string {
    seq(n, _ => '+')
  }

  function StringArgs(ts: seq<string>): seq<Arg> {
    seq(|ts|, i requires 0 <= i < |ts| => StrArg(Some(ts[i])))
  }

  lemma {:induction false} PlainPrints(ts: seq<string>)
    ensures PrintPieces(Plain(ts)) == Pluses(if ts == [] then 0 else |ts| - 1) && ArgsOf(Plain(ts)) == StringArgs(ts)
  {
    if ts != [] {
      PlainPrints(ts[1..]);
      PiecesSplit(Plain(ts));
      assert Plain(ts)[1..] == Plain(ts[1..]);
      assert StringArgs(ts) == [StrArg(Some(ts[0]))] + StringArgs(ts[1..]);
      if |ts| > 1 {
        assert Pluses(|ts| - 1) == ['+'] + Pluses(|ts| - 2);
      }
    }
  }

  lemma {:induction false} PlainJoins(ts: seq<string>)
    requires forall i :: 0 <= i < |ts| ==> '\0' !in ts[i]
    ensures AllBounded(Plain(ts)) && Joined(Plain(ts)) == Sum(ts)
  {
    if ts != [] {
      var n := |ts| - 1;
      PlainJoins(ts[..n]);
      assert Plain(ts)[..n] == Plain(ts[..n]);
      CStringEnds(ts[n]);
      assert CString(ts[n]) == ts[n];
    }
  }

  /** `s` with a `+` for each further string packs the strings in order. */
  lemma PackStrings(ts: seq<string>)
    requires 1 <= |ts| <= 8 && forall i :: 0 <= i < |ts| ==> '\0' !in ts[i]
    ensures Meaning(Some("s" + Pluses(|ts| - 1)), StringArgs(ts)) == Packed(Str(Sum(ts)))
  {
    hide Meaning, PrintPieces, ArgsOf, Pluses, StringArgs, Joined, Sum;
    PlainPrints(ts);
    PlainJoins(ts);
    PackPieces(Plain(ts));
    assert Plain(ts)[0].text.Some?;
  }
}
