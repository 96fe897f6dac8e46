/** The decoder of ALSA TLV metadata: the recursive walk over containers and their leaves, an encoder,
    and the exact condition under which decoding gives the encoded tree back. */
module AlsaTlv {
  import opened AlsaWords

  /** The leaves whose payload is a plain list of words unless it has the standard size. */
  datatype Kind = DbScale | DbLinear | DbMinMax | DbMinMaxMute | ChmapFixed | ChmapVar | ChmapPaired

  /** The JSON the decoder builds, one constructor for each shape. `Nothing` is NULL, `Empty` an object without
      members, and `EmptyRange` a dB range without entries. `Undefined` is C's undefined behaviour: the loop over a
      leaf whose size is no multiple of 4 never ends and reads past the buffer, and an entry of a dB range is put
      into itself and then appended to an object as if that were an array. */
  datatype Tree =
    | Nothing
    | Empty
    | Undefined
    | EmptyRange
    | Container(children: seq<Tree>)
    | Scale(min: int, step: nat, mute: nat)
    | Pair(kind: Kind, min: int, max: int)
    | Words(kind: Kind, words: seq<word>)

  /** The type numbers of alsa-lib. */
  function TypeNumber(kind: Kind): word {
    match kind
    case DbScale => 1
    case DbLinear => 2
    case DbMinMax => 4
    case DbMinMaxMute => 5
    case ChmapFixed => 0x101
    case ChmapVar => 0x102
    case ChmapPaired => 0x103
  }

  predicate IsKind(n: word) {
    n == 1 || n == 2 || n == 4 || n == 5 || n == 0x101 || n == 0x102 || n == 0x103
  }

  function KindOf(n: word): (kind: Kind)
    requires IsKind(n)
    ensures TypeNumber(kind) == n
  {
    if n == 1 then DbScale else if n == 2 then DbLinear else if n == 4 then DbMinMax
    else if n == 5 then DbMinMaxMute else if n == 0x101 then ChmapFixed
    else if n == 0x102 then ChmapVar else ChmapPaired
  }

  predicate IsChmap(kind: Kind) {
    kind.ChmapFixed? || kind.ChmapVar? || kind.ChmapPaired?
  }

  /** How many words so many bytes take. */
  function WordsIn(bytes: nat): nat {
    (bytes + 3) / 4
  }

  /** The record at `at` may be read: its two header words and as many words as its size allows. */
  predicate Readable(tlv: seq<word>, at: nat, tlvSize: nat) {
    at < |tlv| && at + WordsIn(tlvSize) <= |tlv|
  }

  /** A leaf of `size` payload bytes that starts at `at`. */
  function DecodeLeaf(tlv: seq<word>, at: nat, kind: Kind, size: nat): Tree
    requires at + 2 + WordsIn(size) <= |tlv|
  {
    if size != 8 || IsChmap(kind) then
      if size % 4 != 0 then Undefined else Words(kind, tlv[at + 2..at + 2 + size / 4])
    else if kind.DbScale? then Scale(Signed(tlv[at + 2]), tlv[at + 3] % 0x1_0000, tlv[at + 3] / 0x1_0000 % 2)
    else Pair(kind, Signed(tlv[at + 2]), Signed(tlv[at + 3]))
  }

  /** The record at `at`, for which `tlvSize` bytes are claimed. */
  function Decode(tlv: seq<word>, at: nat, tlvSize: nat): Tree
    requires Readable(tlv, at, tlvSize)
    decreases tlvSize, 1
  {
    if tlvSize < 8 then Nothing
    else
      var (kind, size) := (tlv[at], tlv[at + 1]);
      if size > tlvSize - 8 then Nothing
      else if kind == 0 then Walk(tlv, at, 2, WordsIn(size), [])
      else if IsKind(kind) then DecodeLeaf(tlv, at, KindOf(kind), size)
      else if kind == 3 && size % 24 == 0 then if size == 0 then EmptyRange else Undefined
      else if size % 4 != 0 then Undefined
      else Empty
  }

  /** The children of the container at `at` from word `idx` of the container on. The walk ends when `idx`
      reaches the number of payload words, although the payload starts at word 2. */
  function Walk(tlv: seq<word>, at: nat, idx: nat, size: nat, children: seq<Tree>): Tree
    requires idx >= 2 && at + 2 + size <= |tlv|
    decreases size * 4 + 4, 0, size - idx
  {
    if idx >= size then Container(children)
    else
      var payload: int := tlv[at + idx + 1];
      if payload > (size - idx) * 4 then Nothing
      else
        ChildInside(tlv, at, idx, size);
        var child := Decode(tlv, at + idx, payload + 8);
        if child.Undefined? then Undefined
        else Walk(tlv, at, idx + 2 + WordsIn(payload), size, children + [child])
  }

  /** A child that passes the size test lies inside its container's own words, and claims strictly fewer bytes. */
  lemma ChildInside(tlv: seq<word>, at: nat, idx: nat, size: nat)
    requires 2 <= idx < size && at + 2 + size <= |tlv| && tlv[at + idx + 1] <= (size - idx) * 4
    ensures var payload: int := tlv[at + idx + 1];
      var claimed := payload + 8;
      && Readable(tlv, at + idx, claimed)
      && at + idx + WordsIn(claimed) <= at + 2 + size
      && claimed <= size * 4
  {
  }

  /** The decoder: the container branch is a loop over the words of the container. */
  method DecodeTlv(tlv: seq<word>, at: nat, tlvSize: nat) returns (json: Tree)
    requires Readable(tlv, at, tlvSize)
    ensures json == Decode(tlv, at, tlvSize)
    decreases tlvSize
  {
    if tlvSize < 8 {
      return Nothing;
    }
    var kind, size: nat := tlv[at], tlv[at + 1];
    if size > tlvSize - 8 {
      return Nothing;
    }
    if kind == 0 {
      var words := (size + 3) / 4;
      var idx := 2;
      var children: seq<Tree> := [];
      while idx < words
        invariant 2 <= idx
        invariant Walk(tlv, at, 2, words, []) == Walk(tlv, at, idx, words, children)
        decreases words - idx
      {
        var payload: nat := tlv[at + idx + 1];
        if payload > (words - idx) * 4 {
          return Nothing;
        }
        ChildInside(tlv, at, idx, words);
        var embed := DecodeTlv(tlv, at + idx, payload + 8);
        if embed.Undefined? {
          return Undefined;
        }
        children := children + [embed];
        idx := idx + 2 + (payload + 3) / 4;
      }
      return Container(children);
    }
    if IsKind(kind) {
      json := DecodeLeaf(tlv, at, KindOf(kind), size);
    } else if kind == 3 && size % 24 == 0 {
      json := if size == 0 then EmptyRange else Undefined;
    } else if size % 4 != 0 {
      json := Undefined;
    } else {
      json := Empty;
    }
  }

  // ---------------------------------------------------------------- the types, and records that claim too much

  /** The type numbers, on records of two words. */
  lemma TypesAre(kind: word, a: word, b: word)
    ensures Decode([1, 8, a, b], 0, 16) == Scale(Signed(a), b % 0x1_0000, b / 0x1_0000 % 2)
    ensures Decode([2, 8, a, b], 0, 16) == Pair(DbLinear, Signed(a), Signed(b))
    ensures Decode([4, 8, a, b], 0, 16) == Pair(DbMinMax, Signed(a), Signed(b))
    ensures Decode([5, 8, a, b], 0, 16) == Pair(DbMinMaxMute, Signed(a), Signed(b))
    ensures Decode([0x101, 8, a, b], 0, 16) == Words(ChmapFixed, [a, b])
    ensures Decode([0x102, 8, a, b], 0, 16) == Words(ChmapVar, [a, b])
    ensures Decode([0x103, 8, a, b], 0, 16) == Words(ChmapPaired, [a, b])
    ensures Decode([3, 0, a, b], 0, 16) == EmptyRange && Decode([3, 8, a, b], 0, 16) == Empty
    ensures kind > 5 && (kind < 0x101 || kind > 0x103) ==> Decode([kind, 8, a, b], 0, 16) == Empty
  {
    hide Signed;
    assert [0x101, 8, a, b][2..4] == [0x102, 8, a, b][2..4] == [0x103, 8, a, b][2..4] == [a, b];
  }

  /** A record is refused if it is too short for its header or claims more than there is; a container also if a child
      claims more than what remains, here its first one. No other record is refused. */
  lemma SizeErrors(tlv: seq<word>, at: nat, tlvSize: nat)
    requires Readable(tlv, at, tlvSize)
    ensures tlvSize < 8 || tlv[at + 1] > tlvSize - 8 ==> Decode(tlv, at, tlvSize) == Nothing
    ensures tlvSize >= 8 && tlv[at + 1] <= tlvSize - 8 && tlv[at] != 0 ==> Decode(tlv, at, tlvSize) != Nothing
    ensures tlvSize >= 8 && tlv[at + 1] <= tlvSize - 8 && tlv[at] == 0 && WordsIn(tlv[at + 1]) > 2 ==>
      (tlv[at + 3] > (WordsIn(tlv[at + 1]) - 2) * 4 ==> Decode(tlv, at, tlvSize) == Nothing)
  {
    hide DecodeLeaf;
    if tlvSize >= 8 && tlv[at + 1] <= tlvSize - 8 && IsKind(tlv[at]) {
      LeafIsSomething(tlv, at, KindOf(tlv[at]), tlv[at + 1]);
    }
  }

  lemma LeafIsSomething(tlv: seq<word>, at: nat, kind: Kind, size: nat)
    requires at + 2 + WordsIn(size) <= |tlv|
    ensures DecodeLeaf(tlv, at, kind, size) != Nothing
  {
  }

  // ---------------------------------------------------------------- what is undefined

  /** A leaf whose size is no multiple of 4, or a dB range with entries. */
  predicate Ruinous(tlv: seq<word>, at: nat) {
    at + 1 < |tlv| && tlv[at] != 0 && (tlv[at + 1] % 4 != 0 || (tlv[at] == 3 && tlv[at + 1] % 24 == 0 < tlv[at + 1]))
  }

  /** The records that the decoder meets, as positions in the buffer. */
  function Met(tlv: seq<word>, at: nat, tlvSize: nat): seq<nat>
    requires Readable(tlv, at, tlvSize)
    decreases tlvSize, 1
  {
    if tlvSize < 8 || tlv[at + 1] > tlvSize - 8 then []
    else if tlv[at] == 0 then [at] + MetInside(tlv, at, 2, WordsIn(tlv[at + 1]))
    else [at]
  }

  /** The same for the children of a container. */
  function MetInside(tlv: seq<word>, at: nat, idx: nat, size: nat): seq<nat>
    requires idx >= 2 && at + 2 + size <= |tlv|
    decreases size * 4 + 4, 0, size - idx
  {
    if idx >= size || tlv[at + idx + 1] > (size - idx) * 4 then []
    else
      var payload: nat := tlv[at + idx + 1];
      ChildInside(tlv, at, idx, size);
      Met(tlv, at + idx, payload + 8) + MetInside(tlv, at, idx + 2 + WordsIn(payload), size)
  }

  predicate AnyRuinous(tlv: seq<word>, met: seq<nat>) {
    exists i :: 0 <= i < |met| && Ruinous(tlv, met[i])
  }

  lemma AnyRuinousJoin(tlv: seq<word>, a: seq<nat>, b: seq<nat>)
    ensures AnyRuinous(tlv, a + b) <==> AnyRuinous(tlv, a) || AnyRuinous(tlv, b)
  {
    if i :| 0 <= i < |a| && Ruinous(tlv, a[i]) {
      assert (a + b)[i] == a[i];
    }
    if i :| 0 <= i < |b| && Ruinous(tlv, b[i]) {
      assert (a + b)[|a| + i] == b[i];
    }
  }

  /** Decoding is undefined exactly when it meets a ruinous record, however deep it is nested. */
  lemma {:induction false} UndefinedIffRuinous(tlv: seq<word>, at: nat, tlvSize: nat)
    requires Readable(tlv, at, tlvSize)
    ensures Decode(tlv, at, tlvSize).Undefined? <==> AnyRuinous(tlv, Met(tlv, at, tlvSize))
    decreases tlvSize, 1
  {
    hide Walk, MetInside, Ruinous;
    if tlvSize >= 8 && tlv[at + 1] <= tlvSize - 8 {
      OneRecord(tlv, at);
      if tlv[at] == 0 {
        WalkUndefined(tlv, at, 2, WordsIn(tlv[at + 1]), []);
        AnyRuinousJoin(tlv, [at], MetInside(tlv, at, 2, WordsIn(tlv[at + 1])));
      } else {
        LeafUndefined(tlv, at, tlvSize);
      }
    }
  }

  lemma OneRecord(tlv: seq<word>, at: nat)
    ensures AnyRuinous(tlv, [at]) <==> Ruinous(tlv, at)
    ensures at < |tlv| && tlv[at] == 0 ==> !Ruinous(tlv, at)
  {
    assert [at][0] == at;
  }

  lemma LeafUndefined(tlv: seq<word>, at: nat, tlvSize: nat)
    requires Readable(tlv, at, tlvSize) && tlvSize >= 8 && tlv[at + 1] <= tlvSize - 8 && tlv[at] != 0
    ensures Decode(tlv, at, tlvSize).Undefined? <==> Ruinous(tlv, at)
  {
  }

  lemma {:induction false} WalkUndefined(tlv: seq<word>, at: nat, idx: nat, size: nat, children: seq<Tree>)
    requires idx >= 2 && at + 2 + size <= |tlv|
    ensures Walk(tlv, at, idx, size, children).Undefined? <==> AnyRuinous(tlv, MetInside(tlv, at, idx, size))
    decreases size * 4 + 4, 0, size - idx
  {
    hide Decode, Met, AnyRuinous;
    if idx >= size || tlv[at + idx + 1] > (size - idx) * 4 {
      NoneRuinous(tlv);
    } else {
      var payload: nat := tlv[at + idx + 1];
      var next := idx + 2 + WordsIn(payload);
      ChildInside(tlv, at, idx, size);
      UndefinedIffRuinous(tlv, at + idx, payload + 8);
      WalkUndefined(tlv, at, next, size, children + [Decode(tlv, at + idx, payload + 8)]);
      AnyRuinousJoin(tlv, Met(tlv, at + idx, payload + 8), MetInside(tlv, at, next, size));
    }
  }

  lemma NoneRuinous(tlv: seq<word>)
    ensures !AnyRuinous(tlv, [])
  {
  }

  /** A dB scale of 5 bytes, in a buffer that is long enough, is undefined. */
  lemma OddLeaf()
    ensures Decode([1, 5, 0, 0], 0, 16) == Undefined
  {
  }

  // ---------------------------------------------------------------- encoding

  /** How many words a record takes: type, size and payload. */
  function Size(t: Tree): (r: nat)
    ensures r >= 2
    decreases t, 1
  {
    match t
    case Container(children) => 2 + SizeAll(children)
    case Scale(_, _, _) => 4
    case Pair(_, _, _) => 4
    case Words(_, words) => 2 + |words|
    case _ => 2
  }

  function SizeAll(ts: seq<Tree>): nat
    decreases ts, 0
  {
    if ts == [] then 0 else Size(ts[0]) + SizeAll(ts[1..])
  }

  /** The trees that a record can stand for: leaves of the standard size, leaves of any other number of
      words, and containers of such trees. */
  predicate Encodable(t: Tree)
    decreases t
  {
    match t
    case Container(children) =>
      4 * SizeAll(children) < 0x1_0000_0000 && forall i :: 0 <= i < |children| ==> Encodable(children[i])
    case Scale(min, step, mute) => -0x8000_0000 <= min < 0x8000_0000 && step < 0x1_0000 && mute < 2
    case Pair(kind, min, max) =>
      !IsChmap(kind) && !kind.DbScale? && -0x8000_0000 <= min < 0x8000_0000 && -0x8000_0000 <= max < 0x8000_0000
    case Words(kind, words) => (|words| == 2 ==> IsChmap(kind)) && 4 * |words| < 0x1_0000_0000
    case _ => false
  }

  predicate EncodableAll(ts: seq<Tree>) {
    forall i :: 0 <= i < |ts| ==> Encodable(ts[i])
  }

  /** Type, payload size in bytes, payload. */
  function Encode(t: Tree): (r: seq<word>)
    requires Encodable(t)
    ensures |r| == Size(t)
    decreases t, 1
  {
    match t
    case Container(children) => [0, 4 * SizeAll(children)] + EncodeAll(children)
    case Scale(min, step, mute) => [1, 8, Unsigned(min), mute * 0x1_0000 + step]
    case Pair(kind, min, max) => [TypeNumber(kind), 8, Unsigned(min), Unsigned(max)]
    case Words(kind, words) => [TypeNumber(kind), 4 * |words|] + words
  }

  function EncodeAll(ts: seq<Tree>): (r: seq<word>)
    requires EncodableAll(ts)
    ensures |r| == SizeAll(ts)
    decreases ts, 0
  {
    if ts == [] then [] else Encode(ts[0]) + EncodeAll(ts[1..])
  }

  // ---------------------------------------------------------------- what is lost

  /** A record without payload. */
  predicate NoPayload(t: Tree) {
    Size(t) == 2
  }

  /** The tree without what the walk misses: a last child that has no payload. */
  function Trim(t: Tree): Tree
    decreases t, 1
  {
    if t.Container? then Container(TrimAll(t.children)) else t
  }

  function TrimAll(ts: seq<Tree>): seq<Tree>
    decreases ts, 0
  {
    if ts == [] || (|ts| == 1 && NoPayload(ts[0])) then [] else [Trim(ts[0])] + TrimAll(ts[1..])
  }

  /** The last child of every container has a payload. */
  predicate LastChildrenHavePayload(t: Tree)
    decreases t
  {
    t.Container? ==>
      && (t.children != [] ==> !NoPayload(t.children[|t.children| - 1]))
      && forall i :: 0 <= i < |t.children| ==> LastChildrenHavePayload(t.children[i])
  }

  // ---------------------------------------------------------------- decoding inverts encoding

  /** The words of `code` stand in `tlv` from `at` on. */
  predicate StandsAt(tlv: seq<word>, at: nat, code: seq<word>) {
    at + |code| <= |tlv| && tlv[at..at + |code|] == code
  }

  lemma StandsSplit(tlv: seq<word>, at: nat, a: seq<word>, b: seq<word>)
    requires StandsAt(tlv, at, a + b)
    ensures StandsAt(tlv, at, a) && StandsAt(tlv, at + |a|, b)
  {
    assert (a + b)[..|a|] == a && (a + b)[|a|..] == b;
    assert tlv[at..at + |a| + |b|][..|a|] == tlv[at..at + |a|];
    assert tlv[at..at + |a| + |b|][|a|..] == tlv[at + |a|..at + |a| + |b|];
  }

  lemma StandsIndex(tlv: seq<word>, at: nat, code: seq<word>, i: nat)
    requires StandsAt(tlv, at, code) && i < |code|
    ensures tlv[at + i] == code[i]
  {
    assert tlv[at..at + |code|][i] == tlv[at + i];
  }

  /** The type number a tree is encoded with. */
  function TypeOf(t: Tree): word {
    match t
    case Scale(_, _, _) => 1
    case Pair(kind, _, _) => TypeNumber(kind)
    case Words(kind, _) => TypeNumber(kind)
    case _ => 0
  }

  /** The header words tell the type and the payload size, and the claim covers both. */
  lemma HeaderEncoded(tlv: seq<word>, at: nat, t: Tree)
    requires Encodable(t) && StandsAt(tlv, at, Encode(t))
    ensures tlv[at + 1] as int == 4 * (Size(t) - 2)
    ensures tlv[at] == TypeOf(t)
  {
    hide EncodeAll, SizeAll, StandsAt;
    StandsIndex(tlv, at, Encode(t), 0);
    StandsIndex(tlv, at, Encode(t), 1);
  }

  lemma KindComesBack(kind: Kind)
    ensures IsKind(TypeNumber(kind)) && KindOf(TypeNumber(kind)) == kind
  {
  }

  lemma LeafEncoded(tlv: seq<word>, at: nat, t: Tree)
    requires Encodable(t) && !t.Container? && StandsAt(tlv, at, Encode(t))
    ensures IsKind(tlv[at]) && at + 2 + WordsIn(tlv[at + 1]) <= |tlv|
    ensures DecodeLeaf(tlv, at, KindOf(tlv[at]), tlv[at + 1]) == t
  {
    hide StandsAt;
    StandsLength(tlv, at, Encode(t));
    HeaderEncoded(tlv, at, t);
    if t.Words? {
      WordsEncoded(tlv, at, t);
    } else {
      PairEncoded(tlv, at, t);
    }
  }

  lemma WordsEncoded(tlv: seq<word>, at: nat, t: Tree)
    requires Encodable(t) && t.Words? && StandsAt(tlv, at, Encode(t)) && at + Size(t) <= |tlv|
    ensures TypeOf(t) == TypeNumber(t.kind) && IsKind(TypeOf(t)) && KindOf(TypeOf(t)) == t.kind
    ensures DecodeLeaf(tlv, at, t.kind, 4 * |t.words|) == t
  {
    hide StandsAt, KindOf;
    KindComesBack(t.kind);
    StandsSplit(tlv, at, [TypeNumber(t.kind), 4 * |t.words|], t.words);
    StandsWhole(tlv, at + 2, t.words);
  }

  lemma MuteAndStep(mute: nat, step: nat)
    requires mute < 2 && step < 0x1_0000
    ensures var w := mute * 0x1_0000 + step; w % 0x1_0000 == step && w / 0x1_0000 % 2 == mute
  {
  }

  lemma PairEncoded(tlv: seq<word>, at: nat, t: Tree)
    requires Encodable(t) && (t.Scale? || t.Pair?) && StandsAt(tlv, at, Encode(t)) && at + 4 <= |tlv|
    ensures IsKind(TypeOf(t)) && DecodeLeaf(tlv, at, KindOf(TypeOf(t)), 8) == t
  {
    hide StandsAt, Signed, Unsigned, KindOf;
    StandsIndex(tlv, at, Encode(t), 2);
    StandsIndex(tlv, at, Encode(t), 3);
    SignedBack(t.min);
    if t.Pair? {
      KindComesBack(t.kind);
      SignedBack(t.max);
    } else {
      KindComesBack(DbScale);
      MuteAndStep(t.mute, t.step);
    }
  }

  lemma StandsLength(tlv: seq<word>, at: nat, code: seq<word>)
    requires StandsAt(tlv, at, code)
    ensures at + |code| <= |tlv|
  {
  }

  lemma StandsWhole(tlv: seq<word>, at: nat, code: seq<word>)
    requires StandsAt(tlv, at, code)
    ensures at + |code| <= |tlv| && tlv[at..at + |code|] == code
  {
  }

  lemma {:induction false} DecodeEncoded(tlv: seq<word>, at: nat, t: Tree, tlvSize: nat)
    requires Encodable(t) && StandsAt(tlv, at, Encode(t)) && Readable(tlv, at, tlvSize) && tlvSize >= 4 * Size(t)
    ensures Decode(tlv, at, tlvSize) == Trim(t)
    decreases t, 1
  {
    hide StandsAt, Walk, DecodeLeaf, EncodeAll, SizeAll, TrimAll, KindOf;
    HeaderEncoded(tlv, at, t);
    if t.Container? {
      StandsSplit(tlv, at, [0, 4 * SizeAll(t.children)], EncodeAll(t.children));
      WalkEncoded(tlv, at, 2, SizeAll(t.children), t.children, []);
      assert [] + TrimAll(t.children) == TrimAll(t.children);
    } else {
      LeafEncoded(tlv, at, t);
    }
  }

  lemma TrimIsDefined(t: Tree)
    requires Encodable(t)
    ensures !Trim(t).Undefined?
  {
  }

  lemma {:induction false} WalkEncoded(tlv: seq<word>, at: nat, idx: nat, size: nat, ts: seq<Tree>, before: seq<Tree>)
    requires idx >= 2 && EncodableAll(ts) && StandsAt(tlv, at + idx, EncodeAll(ts)) && idx + SizeAll(ts) == size + 2
    requires at + 2 + size <= |tlv|
    ensures Walk(tlv, at, idx, size, before) == Container(before + TrimAll(ts))
    decreases ts, 0
  {
    hide StandsAt, Decode, Encode, Size, Encodable, Trim;
    if ts == [] {
      assert before + [] == before;
    } else {
      StandsSplit(tlv, at + idx, Encode(ts[0]), EncodeAll(ts[1..]));
      HeaderEncoded(tlv, at + idx, ts[0]);
      if |ts| > 1 || !NoPayload(ts[0]) {
        ChildInside(tlv, at, idx, size);
        DecodeEncoded(tlv, at + idx, ts[0], 4 * Size(ts[0]));
        TrimIsDefined(ts[0]);
        WalkEncoded(tlv, at, idx + Size(ts[0]), size, ts[1..], before + [Trim(ts[0])]);
        assert before + [Trim(ts[0])] + TrimAll(ts[1..]) == before + ([Trim(ts[0])] + TrimAll(ts[1..]));
      } else {
        assert before + [] == before;
      }
    }
  }

  lemma {:induction false} TrimLosesNothing(t: Tree)
    ensures Trim(t) == t <==> LastChildrenHavePayload(t)
    decreases t, 1
  {
    if t.Container? {
      TrimAllLosesNothing(t.children);
    }
  }

  lemma {:induction false} TrimAllLosesNothing(ts: seq<Tree>)
    ensures TrimAll(ts) == ts
        <==> (ts != [] ==> !NoPayload(ts[|ts| - 1])) && forall i :: 0 <= i < |ts| ==> LastChildrenHavePayload(ts[i])
    decreases ts, 0
  {
    if ts != [] {
      TrimLosesNothing(ts[0]);
      TrimAllLosesNothing(ts[1..]);
      assert forall i :: 0 <= i < |ts[1..]| ==> ts[1..][i] == ts[i + 1];
      assert forall i :: 1 <= i < |ts| ==> ts[i] == ts[1..][i - 1];
      if TrimAll(ts) == ts {
        assert [Trim(ts[0])] + TrimAll(ts[1..]) == [ts[0]] + ts[1..];
        assert ([Trim(ts[0])] + TrimAll(ts[1..]))[1..] == TrimAll(ts[1..]);
      }
    }
  }

  /** Decoding the encoded words gives the tree back exactly when the last child of every container has a
      payload; a last child without payload is silently dropped. */
  lemma DecodingInvertsEncoding(t: Tree)
    requires Encodable(t)
    ensures Decode(Encode(t), 0, 4 * |Encode(t)|) == Trim(t)
    ensures Decode(Encode(t), 0, 4 * |Encode(t)|) == t <==> LastChildrenHavePayload(t)
  {
    assert StandsAt(Encode(t), 0, Encode(t));
    DecodeEncoded(Encode(t), 0, t, 4 * |Encode(t)|);
    TrimLosesNothing(t);
  }

  /** A container in a container, neither of which has anything else in it, comes back without the inner one. */
  lemma LastChildDropped()
    ensures var t := Container([Container([])]);
      Encodable(t) && Decode(Encode(t), 0, 4 * |Encode(t)|) == Container([])
  {
  }
}
