/** Blanks, tabs, line ends, commas and colons in a format make no difference: both interpreters answer two formats
    alike that are the same without them. */
module WrapJsonSpacing {
  import opened Options
  import opened WrapJsonBase
  import P = WrapJsonPack
  import U = WrapJsonUnpack

  /** The format without the six characters. */
  function Stripped(desc: string): string {
    if desc == [] then [] else (if desc[0] in " \t\n\r,:" then [] else [desc[0]]) + Stripped(desc[1..])
  }

  /** Inserting one of the six characters anywhere. */
  lemma {:induction false} StrippedInsert(desc: string, i: nat, c: char)
    requires i <= |desc| && c in " \t\n\r,:"
    ensures Stripped(desc[..i] + [c] + desc[i..]) == Stripped(desc)
  {
    var to := desc[..i] + [c] + desc[i..];
    if i == 0 {
      assert to[1..] == desc;
    } else {
      assert to[0] == desc[0] && to[1..] == desc[1..][..i - 1] + [c] + desc[1..][i - 1..];
      StrippedInsert(desc[1..], i - 1, c);
    }
  }

  // ---------------------------------------------------------------- cursors in step

  /** The same is left of both formats. */
  predicate SameRest(desc: string, d: nat, to: string, u: nat) {
    d <= |desc| && u <= |to| && Stripped(desc[d..]) == Stripped(to[u..])
  }

  /** Besides, both cursors stand at the same character, or both at the end. */
  predicate InStep(desc: string, d: nat, to: string, u: nat) {
    SameRest(desc, d, to, u) && At(desc, d) == At(to, u) && (d < |desc| <==> u < |to|)
  }

  lemma StrippedOne(desc: string, d: nat)
    requires d < |desc|
    ensures Stripped(desc[d..]) == (if desc[d] in " \t\n\r,:" then [] else [desc[d]]) + Stripped(desc[d + 1..])
  {
    assert desc[d..][0] == desc[d] && desc[d..][1..] == desc[d + 1..];
  }

  lemma {:induction false} StrippedSkip(desc: string, d: nat)
    requires d <= |desc|
    ensures Stripped(desc[d..]) == Stripped(desc[Skip(desc, d)..])
    decreases |desc| - d
  {
    SkipsBlanks(desc, d);
    if Skip(desc, d) > d {
      StrippedOne(desc, d);
      StrippedSkip(desc, d + 1);
    }
  }

  lemma StrippedAt(desc: string, d: nat)
    requires d <= |desc| && (d < |desc| ==> desc[d] !in " \t\n\r,:")
    ensures var rest := Stripped(desc[d..]);
      if d < |desc| then |rest| > 0 && rest[0] == desc[d] == At(desc, d) else rest == [] && At(desc, d) == '\0'
  {
    if d < |desc| {
      StrippedOne(desc, d);
    }
  }

  lemma SkipInStep(desc: string, d: nat, to: string, u: nat)
    requires SameRest(desc, d, to, u)
    ensures InStep(desc, Skip(desc, d), to, Skip(to, u))
  {
    StrippedSkip(desc, d);
    StrippedSkip(to, u);
    SkipsBlanks(desc, d);
    SkipsBlanks(to, u);
    var e, f := Skip(desc, d), Skip(to, u);
    StrippedAt(desc, e);
    StrippedAt(to, f);
  }

  /** Consuming a character keeps two cursors in step. */
  lemma NextInStep(desc: string, d: nat, to: string, u: nat)
    requires InStep(desc, d, to, u) && d < |desc| && desc[d] !in " \t\n\r,:"
    ensures InStep(desc, Next(desc, d), to, Next(to, u))
  {
    StrippedOne(desc, d);
    StrippedOne(to, u);
    assert ([desc[d]] + Stripped(desc[d + 1..]))[1..] == Stripped(desc[d + 1..]);
    assert ([to[u]] + Stripped(to[u + 1..]))[1..] == Stripped(to[u + 1..]);
    SkipInStep(desc, d + 1, to, u + 1);
  }

  // ---------------------------------------------------------------- packing

  /** The two outcomes are the same, at cursors in step. */
  predicate SameRead<T(==)>(desc: string, r: P.Read<T>, to: string, r': P.Read<T>) {
    match r
    case BadCall => r'.BadCall?
    case Fail(code, pos) => r'.Fail? && r'.code == code && InStep(desc, pos, to, r'.pos)
    case Done(v, d, a) => r'.Done? && r'.value == v && r'.a == a && InStep(desc, d, to, r'.d)
  }

  /** Either both formats have the character `c` here, and the cursors after it are in step, or none has. */
  lemma StepOver(desc: string, d: nat, to: string, u: nat, c: char)
    requires InStep(desc, d, to, u) && c != '\0' && c !in " \t\n\r,:"
    ensures At(desc, d) == c <==> At(to, u) == c
    ensures At(desc, d) == c ==> d < |desc| && u < |to| && InStep(desc, Next(desc, d), to, Next(to, u))
  {
    hide Skip, SameRest;
    if At(desc, d) == c {
      NextInStep(desc, d, to, u);
    }
  }

  lemma FragmentSame(desc: string, to: string, args: seq<P.Arg>, d: nat, u: nat, a: nat)
    requires InStep(desc, d, to, u)
    ensures SameRead(desc, P.ReadFragment(P.Call(desc, args), d, a), to, P.ReadFragment(P.Call(to, args), u, a))
  {
    hide Next, InStep, CString;
    StepOver(desc, d, to, u, '?');
    Bounds(desc, d, to, u);
    var k, k' := P.Call(desc, args), P.Call(to, args);
    var e, f := P.SkipQuestion(k, d), P.SkipQuestion(k', u);
    Bounds(desc, e, to, f);
    StepOver(desc, e, to, f, '%');
    StepOver(desc, e, to, f, '#');
    if a < |args| && args[a].StrArg? {
      var sized, sized' := P.ReadSize(k, args[a].text, e, a + 1), P.ReadSize(k', args[a].text, f, a + 1);
      assert SameRead(desc, sized, to, sized');
      if sized.Done? {
        StepOver(desc, sized.d, to, sized'.d, '?');
      }
    }
  }

  lemma Bounds(desc: string, d: nat, to: string, u: nat)
    requires InStep(desc, d, to, u)
    ensures d <= |desc| && u <= |to| && At(desc, d) == At(to, u)
  {
  }

  lemma {:induction false} FragmentsSame(desc: string, to: string, args: seq<P.Arg>, d: nat, u: nat, a: nat,
                                         strs: seq<P.Fragment>, nullable: bool)
    requires InStep(desc, d, to, u) && d <= |desc| && u <= |to| && |strs| < STRCOUNT
    ensures SameRead(desc, P.ReadFragments(P.Call(desc, args), d, a, strs, nullable),
                     to, P.ReadFragments(P.Call(to, args), u, a, strs, nullable))
    decreases |desc| - d
  {
    hide Next, InStep, CString, P.ReadFragment;
    var one, one' := P.ReadFragment(P.Call(desc, args), d, a), P.ReadFragment(P.Call(to, args), u, a);
    FragmentSame(desc, to, args, d, u, a);
    if one.Done? {
      Bounds(desc, one.d, to, one'.d);
      StepOver(desc, one.d, to, one'.d, '+');
      if At(desc, one.d) == '+' && |strs| + 1 < STRCOUNT {
        NextGrows(desc, one.d);
        Bounds(desc, Next(desc, one.d), to, Next(to, one'.d));
        FragmentsSame(desc, to, args, Next(desc, one.d), Next(to, one'.d), one.a, strs + [one.value.0],
                      nullable || one.value.1);
      }
    }
  }

  lemma NextGrows(desc: string, d: nat)
    ensures d < Next(desc, d)
  {
  }

  lemma TextSame(desc: string, to: string, args: seq<P.Arg>, d: nat, u: nat, a: nat)
    requires InStep(desc, d, to, u) && d <= |desc| && u <= |to|
    ensures SameRead(desc, P.ReadText(P.Call(desc, args), d, a), to, P.ReadText(P.Call(to, args), u, a))
  {
    hide InStep, P.ReadFragments, P.Concat;
    FragmentsSame(desc, to, args, d, u, a, [], false);
    var r := P.ReadFragments(P.Call(desc, args), d, a, [], false);
    if r.Done? {
      Bounds(desc, r.d, to, P.ReadFragments(P.Call(to, args), u, a, [], false).d);
    }
  }

  lemma ScalarSame(desc: string, to: string, args: seq<P.Arg>, c: char, d: nat, u: nat, a: nat)
    requires InStep(desc, d, to, u) && d <= |desc| && u <= |to| && c in "snbiIfoO"
    ensures SameRead(desc, P.ReadScalar(P.Call(desc, args), c, d, a), to, P.ReadScalar(P.Call(to, args), c, u, a))
  {
    hide InStep, P.ReadText, Next;
    TextSame(desc, to, args, d, u, a);
    Bounds(desc, d, to, u);
    StepOver(desc, d, to, u, '?');
  }

  lemma {:induction false} ValueSame(desc: string, to: string, args: seq<P.Arg>, d: nat, u: nat, a: nat, depth: nat)
    requires InStep(desc, d, to, u) && d <= |desc| && u <= |to|
    ensures SameRead(desc, P.ReadValue(P.Call(desc, args), d, a, depth), to, P.ReadValue(P.Call(to, args), u, a, depth))
    decreases |desc| - d, 0
  {
    hide InStep, P.ReadScalar, P.ReadItems, P.ReadMembers, Next;
    Bounds(desc, d, to, u);
    var c := At(desc, d);
    if c in "[{snbiIfoO" {
      StepOver(desc, d, to, u, c);
      var e, f := Next(desc, d), Next(to, u);
      NextGrows(desc, d);
      Bounds(desc, e, to, f);
      if c == '[' {
        ItemsSame(desc, to, args, e, f, a, depth + 1, []);
      } else if c == '{' {
        MembersSame(desc, to, args, e, f, a, depth + 1, map[]);
      } else {
        ScalarSame(desc, to, args, c, e, f, a);
      }
    }
  }

  lemma {:induction false} ItemsSame(desc: string, to: string, args: seq<P.Arg>, d: nat, u: nat, a: nat, depth: nat,
                                     items: seq<Json>)
    requires InStep(desc, d, to, u) && d <= |desc| && u <= |to|
    ensures SameRead(desc, P.ReadItems(P.Call(desc, args), d, a, depth, items),
                     to, P.ReadItems(P.Call(to, args), u, a, depth, items))
    decreases |desc| - d, 1
  {
    hide InStep, P.ReadValue, Next;
    Bounds(desc, d, to, u);
    StepOver(desc, d, to, u, ']');
    if At(desc, d) == ']' {
      Bounds(desc, Next(desc, d), to, Next(to, u));
    } else if At(desc, d) in "[{snbiIfoO" {
      ValueSame(desc, to, args, d, u, a, depth);
      var v, v' := P.ReadValue(P.Call(desc, args), d, a, depth), P.ReadValue(P.Call(to, args), u, a, depth);
      if v.Done? {
        var e, f := P.SkipStar(P.Call(desc, args), v.d), P.SkipStar(P.Call(to, args), v'.d);
        StarSame(desc, to, args, v.d, v'.d);
        ItemsSame(desc, to, args, e, f, v.a, depth, P.AddItem(P.Call(desc, args), items, v.value, v.d));
      }
    }
  }

  lemma StarSame(desc: string, to: string, args: seq<P.Arg>, d: nat, u: nat)
    requires InStep(desc, d, to, u) && d <= |desc| && u <= |to|
    ensures At(desc, d) == At(to, u)
    ensures InStep(desc, P.SkipStar(P.Call(desc, args), d), to, P.SkipStar(P.Call(to, args), u))
  {
    hide InStep, Next;
    Bounds(desc, d, to, u);
    StepOver(desc, d, to, u, '*');
  }

  lemma {:induction false} MembersSame(desc: string, to: string, args: seq<P.Arg>, d: nat, u: nat, a: nat, depth: nat,
                                       members: map<string, Json>)
    requires InStep(desc, d, to, u) && d <= |desc| && u <= |to|
    ensures SameRead(desc, P.ReadMembers(P.Call(desc, args), d, a, depth, members),
                     to, P.ReadMembers(P.Call(to, args), u, a, depth, members))
    decreases |desc| - d, 1
  {
    hide InStep, P.ReadText, P.ReadValue, Next, CString;
    Bounds(desc, d, to, u);
    StepOver(desc, d, to, u, '}');
    StepOver(desc, d, to, u, 's');
    if At(desc, d) == '}' {
      Bounds(desc, Next(desc, d), to, Next(to, u));
    } else if At(desc, d) == 's' {
      var k, k' := P.Call(desc, args), P.Call(to, args);
      Bounds(desc, Next(desc, d), to, Next(to, u));
      TextSame(desc, to, args, Next(desc, d), Next(to, u), a);
      NextGrows(desc, d);
      var key, key' := P.ReadText(k, Next(desc, d), a), P.ReadText(k', Next(to, u), a);
      if key.Done? && key.value.Str? {
        ValueSame(desc, to, args, key.d, key'.d, key.a, depth);
        var v, v' := P.ReadValue(k, key.d, key.a, depth), P.ReadValue(k', key'.d, key.a, depth);
        if v.Done? {
          StarSame(desc, to, args, v.d, v'.d);
          MembersSame(desc, to, args, P.SkipStar(k, v.d), P.SkipStar(k', v'.d), v.a, depth,
                      P.AddMember(k, members, key.value.s, v.value, v.d));
        }
      }
    }
  }

  /** Two formats that are the same without the six characters pack alike: the same tree, or the same error where the
      same is left of both formats. */
  lemma PackIgnoresBlanks(desc: string, to: string, args: seq<P.Arg>)
    requires Stripped(desc) == Stripped(to)
    ensures match P.Meaning(Some(desc), args)
      case Packed(j) => P.Meaning(Some(to), args) == P.Packed(j)
      case Undefined => P.Meaning(Some(to), args) == P.Undefined
      case Refused(code, pos) =>
        var r := P.Meaning(Some(to), args);
        r.Refused? && r.code == code && SameRest(desc, pos, to, r.pos)
  {
    hide Stripped, P.ReadValue, Skip;
    assert desc[0..] == desc && to[0..] == to;
    SkipInStep(desc, 0, to, 0);
    ValueSame(desc, to, args, Skip(desc, 0), Skip(to, 0), 0, 0);
  }

  // ---------------------------------------------------------------- unpacking

  /** The two places are the same, with the cursors in step. */
  predicate SamePlace(desc: string, p: U.Place, to: string, q: U.Place) {
    q == p.(d := q.d) && InStep(desc, p.d, to, q.d)
  }

  predicate SameMatch(desc: string, r: U.Read, to: string, r': U.Read) {
    match r
    case BadCall => r'.BadCall?
    case Fail(code, pos, writes) => r'.Fail? && r' == r.(pos := r'.pos) && InStep(desc, pos, to, r'.pos)
    case Done(p) => r'.Done? && SamePlace(desc, p, to, r'.p)
  }

  lemma LengthSame(desc: string, to: string, args: seq<U.Arg>, store: bool, p: U.Place, q: U.Place, obj: Json,
                   skip: bool)
    requires SamePlace(desc, p, to, q) && p.d <= |desc| && q.d <= |to| && (!skip ==> obj.Str?)
    ensures SameMatch(desc, U.ReadLength(U.Call(desc, args, store), p, obj, skip),
                      to, U.ReadLength(U.Call(to, args, store), q, obj, skip))
  {
    hide InStep, Next;
    StepOver(desc, p.d, to, q.d, '%');
  }

  lemma LeafSame(desc: string, to: string, args: seq<U.Arg>, store: bool, p: U.Place, q: U.Place, obj: Json, skip: bool)
    requires SamePlace(desc, p, to, q) && p.d < |desc| && q.d < |to| && U.Scalar(At(desc, p.d)) && U.Scalar(At(to, q.d))
    ensures SameMatch(desc, U.ReadScalar(U.Call(desc, args, store), p, obj, skip),
                      to, U.ReadScalar(U.Call(to, args, store), q, obj, skip))
  {
    hide InStep, Next, U.Stored;
    Bounds(desc, p.d, to, q.d);
    var c := At(desc, p.d);
    StepOver(desc, p.d, to, q.d, c);
    var pointer := store && c != 'n';
    Bounds(desc, Next(desc, p.d), to, Next(to, q.d));
    if (pointer ==> p.a < |args| && U.PointerFor(c, args[p.a])) && (skip || U.HasType(c, obj)) && c == 's' {
      var w := p.writes + if pointer && !skip then U.WriteIf(skip, args[p.a], U.Stored(c, obj)) else [];
      var a := if pointer then p.a + 1 else p.a;
      LengthSame(desc, to, args, store, U.Place(Next(desc, p.d), a, w), U.Place(Next(to, q.d), a, w), obj, skip);
    }
  }

  lemma CloserSame(desc: string, to: string, args: seq<U.Arg>, store: bool, p: U.Place, q: U.Place, c: char)
    requires SamePlace(desc, p, to, q) && p.d <= |desc| && q.d <= |to| && (c == ']' || c == '}')
    ensures SameMatch(desc, U.ReadCloser(U.Call(desc, args, store), p, c),
                      to, U.ReadCloser(U.Call(to, args, store), q, c))
  {
    hide InStep, Next;
    Bounds(desc, p.d, to, q.d);
    StepOver(desc, p.d, to, q.d, c);
  }

  lemma EndSame(desc: string, to: string, args: seq<U.Arg>, store: bool, p: U.Place, q: U.Place, c: char,
                complete: bool)
    requires SamePlace(desc, p, to, q) && p.d < |desc| && q.d < |to| && (c == ']' || c == '}')
    requires U.Ends(At(desc, p.d), c)
    ensures SameMatch(desc, U.ReadEnd(U.Call(desc, args, store), p, c, complete),
                      to, U.ReadEnd(U.Call(to, args, store), q, c, complete))
  {
    hide InStep, Next, U.ReadCloser;
    Bounds(desc, p.d, to, q.d);
    StepOver(desc, p.d, to, q.d, At(desc, p.d));
    var e, f := Next(desc, p.d), Next(to, q.d);
    Bounds(desc, e, to, f);
    CloserSame(desc, to, args, store, p.(d := e), q.(d := f), c);
  }

  lemma {:induction false} MatchSame(desc: string, to: string, args: seq<U.Arg>, store: bool, p: U.Place, q: U.Place,
                                     obj: Json, skip: bool, depth: nat)
    requires SamePlace(desc, p, to, q) && p.d <= |desc| && q.d <= |to|
    ensures SameMatch(desc, U.ReadValue(U.Call(desc, args, store), p, obj, skip, depth),
                      to, U.ReadValue(U.Call(to, args, store), q, obj, skip, depth))
    decreases |desc| - p.d, 0
  {
    hide InStep, Next, U.ReadScalar, U.ReadItems, U.ReadMembers;
    Bounds(desc, p.d, to, q.d);
    var c := At(desc, p.d);
    if c != '\0' && U.Starts(c) {
      StepOver(desc, p.d, to, q.d, c);
      var e, f := p.(d := Next(desc, p.d)), q.(d := Next(to, q.d));
      NextGrows(desc, p.d);
      Bounds(desc, e.d, to, f.d);
      if c == '[' {
        MatchItemsSame(desc, to, args, store, e, f, if obj.Arr? && !skip then obj.elems else [], 0, skip, depth + 1);
      } else if c == '{' {
        MatchMembersSame(desc, to, args, store, e, f, if obj.Obj? && !skip then obj.members else map[], 0, skip,
                         depth + 1);
      } else {
        LeafSame(desc, to, args, store, p, q, obj, skip);
      }
    }
  }

  lemma {:induction false} MatchItemsSame(desc: string, to: string, args: seq<U.Arg>, store: bool, p: U.Place,
                                          q: U.Place, elems: seq<Json>, index: nat, skip: bool, depth: nat)
    requires SamePlace(desc, p, to, q) && p.d <= |desc| && q.d <= |to|
    ensures SameMatch(desc, U.ReadItems(U.Call(desc, args, store), p, elems, index, skip, depth),
                      to, U.ReadItems(U.Call(to, args, store), q, elems, index, skip, depth))
    decreases |desc| - p.d, 2
  {
    hide InStep, Next, U.ReadValue, U.ReadEnd;
    Bounds(desc, p.d, to, q.d);
    var k, k' := U.Call(desc, args, store), U.Call(to, args, store);
    var c := At(desc, p.d);
    var fetches := U.Fetches(k, p.d, skip);
    if c != '\0' && U.Ends(c, ']') {
      StepOver(desc, p.d, to, q.d, c);
      EndSame(desc, to, args, store, p, q, ']', skip || (if fetches then index + 1 else index) == |elems|);
    } else if U.Starts(c) && !(fetches && index >= |elems|) {
      var obj := if skip then Null else elems[index];
      MatchSame(desc, to, args, store, p, q, obj, skip, depth);
      var v, v' := U.ReadValue(k, p, obj, skip, depth), U.ReadValue(k', q, obj, skip, depth);
      if v.Done? {
        Bounds(desc, v.p.d, to, v'.p.d);
        MatchItemsSame(desc, to, args, store, v.p, v'.p, elems, if fetches then index + 1 else index, skip, depth);
      }
    }
  }

  lemma KeySame(desc: string, to: string, args: seq<U.Arg>, store: bool, p: U.Place, q: U.Place)
    requires SamePlace(desc, p, to, q) && p.d < |desc| && q.d < |to| && At(desc, p.d) == 's'
    ensures SameMatch(desc, U.ReadKey(U.Call(desc, args, store), p), to, U.ReadKey(U.Call(to, args, store), q))
    ensures At(desc, Next(desc, p.d)) == At(to, Next(to, q.d))
  {
    hide InStep, Next;
    StepOver(desc, p.d, to, q.d, 's');
    Bounds(desc, Next(desc, p.d), to, Next(to, q.d));
    StepOver(desc, Next(desc, p.d), to, Next(to, q.d), '?');
  }

  lemma {:induction false} MatchMembersSame(desc: string, to: string, args: seq<U.Arg>, store: bool, p: U.Place,
                                            q: U.Place, members: map<string, Json>, found: nat, skip: bool, depth: nat)
    requires SamePlace(desc, p, to, q) && p.d <= |desc| && q.d <= |to|
    ensures SameMatch(desc, U.ReadMembers(U.Call(desc, args, store), p, members, found, skip, depth),
                      to, U.ReadMembers(U.Call(to, args, store), q, members, found, skip, depth))
    decreases |desc| - p.d, 1
  {
    hide InStep, Next, U.ReadValue, U.ReadEnd, U.ReadKey, CString;
    Bounds(desc, p.d, to, q.d);
    var k, k' := U.Call(desc, args, store), U.Call(to, args, store);
    var c := At(desc, p.d);
    if c != '\0' && U.Ends(c, '}') {
      StepOver(desc, p.d, to, q.d, c);
      EndSame(desc, to, args, store, p, q, '}', skip || found == |members|);
    } else if c == 's' {
      StepOver(desc, p.d, to, q.d, 's');
      KeySame(desc, to, args, store, p, q);
      var r, r' := U.ReadKey(k, p), U.ReadKey(k', q);
      if r.Done? {
        var key := CString(args[p.a].key.value);
        var here := !skip && key in members;
        var obj := if here then members[key] else Null;
        Bounds(desc, r.p.d, to, r'.p.d);
        MatchSame(desc, to, args, store, r.p, r'.p, obj, !here, depth);
        var v, v' := U.ReadValue(k, r.p, obj, !here, depth), U.ReadValue(k', r'.p, obj, !here, depth);
        if v.Done? {
          Bounds(desc, v.p.d, to, v'.p.d);
          MatchMembersSame(desc, to, args, store, v.p, v'.p, members, if here then found + 1 else found, skip, depth);
        }
      }
    }
  }

  /** They unpack alike: the same writes, and success, or the same error where the same is left of both formats. */
  lemma UnpackIgnoresBlanks(obj: Json, desc: string, to: string, args: seq<U.Arg>, store: bool)
    requires Stripped(desc) == Stripped(to)
    ensures var r, r' := U.Meaning(obj, Some(desc), args, store), U.Meaning(obj, Some(to), args, store);
      match r
      case Unpacked(writes) => r' == U.Unpacked(writes)
      case Undefined => r' == U.Undefined
      case Refused(code, pos, writes) =>
        r'.Refused? && r'.code == code && r'.writes == writes && SameRest(desc, pos, to, r'.pos)
  {
    hide Stripped, U.ReadValue, Skip;
    assert desc[0..] == desc && to[0..] == to;
    SkipInStep(desc, 0, to, 0);
    MatchSame(desc, to, args, store, U.Place(Skip(desc, 0), 0, []), U.Place(Skip(to, 0), 0, []), obj, false, 0);
  }

  /** One of the six characters more, anywhere in the format, changes neither success nor the tree nor the writes. */
  lemma BlankAnywhere(desc: string, i: nat, c: char)
    requires i <= |desc| && c in " \t\n\r,:"
    ensures var to := desc[..i] + [c] + desc[i..];
      && (forall args, j :: P.Meaning(Some(desc), args) == P.Packed(j) <==> P.Meaning(Some(to), args) == P.Packed(j))
      && (forall obj, args, store, w :: U.Meaning(obj, Some(desc), args, store) == U.Unpacked(w)
            <==> U.Meaning(obj, Some(to), args, store) == U.Unpacked(w))
  {
    hide P.Meaning, U.Meaning, Stripped;
    var to := desc[..i] + [c] + desc[i..];
    StrippedInsert(desc, i, c);
    forall args, j
      ensures P.Meaning(Some(desc), args) == P.Packed(j) <==> P.Meaning(Some(to), args) == P.Packed(j)
    {
      PackIgnoresBlanks(desc, to, args);
    }
    forall obj, args, store, w
      ensures U.Meaning(obj, Some(desc), args, store) == U.Unpacked(w)
         <==> U.Meaning(obj, Some(to), args, store) == U.Unpacked(w)
    {
      UnpackIgnoresBlanks(obj, desc, to, args, store);
    }
  }
}
