/** The unpacking interpreter: a recursive matcher for format strings, and the iterative
    stack machine vunpack proved to compute exactly that matcher, targets included. */
module WrapJsonUnpack {
  import opened Options
  import opened WrapJsonBase

  /** One element of the variable argument list: a key, or a pointer to a target.
      A pointer is NULL or names a cell of the caller's memory. */
  datatype Arg =
    | KeyArg(key: Option<string>)
    | StrPtr(cell: Option<nat>)
    | SizePtr(cell: Option<nat>)
    | IntPtr(cell: Option<nat>)
    | Int64Ptr(cell: Option<nat>)
    | DoublePtr(cell: Option<nat>)
    | JsonPtr(cell: Option<nat>)

  /** The contents of a target. */
  datatype Value =
    | StrVal(s: string)
    | SizeVal(n: nat)
    | IntVal(i: int32)
    | Int64Val(l: int64)
    | DoubleVal(r: real)
    | JsonVal(j: Json)

  datatype Write = Write(cell: nat, value: Value)

  /** The format, the arguments, and whether values are stored (unpack) or only checked. */
  datatype Call = Call(desc: string, args: seq<Arg>, store: bool)

  /** The place a run has reached: cursor, next argument, and the targets written so far, in order. */
  datatype Place = Place(d: nat, a: nat, writes: seq<Write>)

  /** Outcome of one piece of the format. `BadCall` is C's undefined behaviour: an argument of the wrong type. */
  datatype Read =
    | Done(p: Place)
    | Fail(code: ErrorCode, pos: nat, writes: seq<Write>)
    | BadCall

  datatype Outcome = Unpacked(writes: seq<Write>) | Refused(code: ErrorCode, pos: nat, writes: seq<Write>) | Undefined

  // ---------------------------------------------------------------- json-c accessors

  function Clamp32(n: int64): int32 {
    if n < -0x8000_0000 then -0x8000_0000 else if n > 0x7fff_ffff then 0x7fff_ffff else n
  }

  /** The tree has the type that the scalar specifier `c` asks for. */
  predicate HasType(c: char, j: Json) {
    match c
    case 's' => j.Str?
    case 'n' => j.Null?
    case 'b' => j.Bool?
    case 'i' => j.Int?
    case 'I' => j.Int?
    case 'f' => j.Double?
    case 'F' => j.Double? || j.Int?
    case _ => true
  }

  /** What the specifier `c` stores of a tree of its type. */
  function Stored(c: char, j: Json): Value
    requires HasType(c, j)
  {
    match c
    case 's' => StrVal(j.s)
    case 'b' => IntVal(if j.b then 1 else 0)
    case 'i' => IntVal(Clamp32(j.n))
    case 'I' => Int64Val(j.n)
    case 'f' => DoubleVal(j.r)
    case 'F' => DoubleVal(if j.Double? then j.r else j.n as real)
    case _ => JsonVal(j)
  }

  predicate PointerFor(c: char, p: Arg) {
    match c
    case 's' => p.StrPtr?
    case 'b' => p.IntPtr?
    case 'i' => p.IntPtr?
    case 'I' => p.Int64Ptr?
    case 'f' => p.DoublePtr?
    case 'F' => p.DoublePtr?
    case _ => p.JsonPtr?
  }

  function WriteIf(skip: bool, p: Arg, v: Value): seq<Write>
    requires !p.KeyArg?
  {
    if !skip && p.cell.Some? then [Write(p.cell.value, v)] else []
  }

  // ---------------------------------------------------------------- the recursive matcher

  /** The specifiers that are not containers. */
  predicate Scalar(c: char) {
    c == 's' || c == 'n' || c == 'b' || c == 'i' || c == 'I' || c == 'f' || c == 'F' || c == 'o' || c == 'O'
  }

  /** The characters a value may begin with. */
  predicate Starts(c: char) {
    c == '[' || c == '{' || Scalar(c)
  }

  /** The characters that may end a container of closer `c`. */
  predicate Ends(c: char, closer: char) {
    c == '*' || c == '!' || c == closer
  }

  /** The optional `%` after a string: its length goes to one more target. */
  function ReadLength(k: Call, p: Place, obj: Json, skip: bool): (r: Read)
    requires p.d <= |k.desc| && (!skip ==> obj.Str?)
    ensures r.Done? ==> p.d <= r.p.d <= |k.desc|
    ensures !r.Fail?
  {
    if At(k.desc, p.d) != '%' then Done(p)
    else
      var d := Next(k.desc, p.d);
      if !k.store then Done(p.(d := d))
      else if !(p.a < |k.args| && k.args[p.a].SizePtr?) then BadCall
      else Done(Place(d, p.a + 1, p.writes + WriteIf(skip, k.args[p.a], SizeVal(if skip then 0 else |obj.s|))))
  }

  /** A specifier that is not a container, at cursor `p.d`. When `skip` holds the value is absent:
      its targets are passed over and nothing is checked. */
  function ReadScalar(k: Call, p: Place, obj: Json, skip: bool): (r: Read)
    requires p.d < |k.desc| && Scalar(At(k.desc, p.d))
    ensures r.Done? ==> p.d < r.p.d <= |k.desc|
  {
    var c := At(k.desc, p.d);
    var d := Next(k.desc, p.d);
    var pointer := k.store && c != 'n';
    if pointer && !(p.a < |k.args| && PointerFor(c, k.args[p.a])) then BadCall
    else if !skip && !HasType(c, obj) then Fail(MissfitType, p.d, p.writes)
    else
      var writes := if pointer && !skip then WriteIf(skip, k.args[p.a], Stored(c, obj)) else [];
      var q := Place(d, if pointer then p.a + 1 else p.a, p.writes + writes);
      if c == 's' then ReadLength(k, q, obj, skip) else Done(q)
  }

  /** One value of the format, matched against `obj` inside `depth` open containers. */
  function ReadValue(k: Call, p: Place, obj: Json, skip: bool, depth: nat): (r: Read)
    requires p.d <= |k.desc|
    ensures r.Done? ==> p.d < r.p.d <= |k.desc|
    decreases |k.desc| - p.d, 0
  {
    var c := At(k.desc, p.d);
    if c == '\0' then Fail(Truncated, p.d, p.writes)
    else if !Starts(c) then Fail(InvalidCharacter, p.d, p.writes)
    else if c != '[' && c != '{' then ReadScalar(k, p, obj, skip)
    else
      var q := p.(d := Next(k.desc, p.d));
      if depth >= STACKCOUNT then Fail(TooDeep, q.d, p.writes)
      else if c == '[' then
        if !skip && !obj.Arr? then Fail(MissfitType, p.d, p.writes)
        else ReadItems(k, q, if skip then [] else obj.elems, 0, skip, depth + 1)
      else
        if !skip && !obj.Obj? then Fail(MissfitType, p.d, p.writes)
        else ReadMembers(k, q, if skip then map[] else obj.members, 0, skip, depth + 1)
  }

  /** After `*` or `!` only the closer `c` is accepted. */
  function ReadCloser(k: Call, p: Place, c: char): (r: Read)
    requires p.d <= |k.desc| && c != '\0'
    ensures r.Done? ==> p.d < r.p.d <= |k.desc|
  {
    if At(k.desc, p.d) == '\0' then Fail(Truncated, p.d, p.writes)
    else if At(k.desc, p.d) != c then Fail(InvalidCharacter, p.d, p.writes)
    else Done(p.(d := Next(k.desc, p.d)))
  }

  /** `!`, `*` or the closer itself; `complete` tells whether everything in the container was visited. */
  function ReadEnd(k: Call, p: Place, c: char, complete: bool): (r: Read)
    requires p.d < |k.desc| && c != '\0'
    ensures r.Done? ==> p.d < r.p.d <= |k.desc|
  {
    var q := p.(d := Next(k.desc, p.d));
    if At(k.desc, p.d) == '!' && At(k.desc, q.d) != c then Fail(InvalidCharacter, q.d, p.writes)
    else if At(k.desc, p.d) == '!' && !complete then Fail(Incomplete, q.d, p.writes)
    else if At(k.desc, p.d) == '!' || At(k.desc, p.d) == '*' then ReadCloser(k, q, c)
    else Done(q)
  }

  /** The look-ahead of an array fetches an item when a value, or the end of the string, comes next. */
  predicate Fetches(k: Call, d: nat, skip: bool) {
    !skip && (Starts(At(k.desc, d)) || At(k.desc, d) == '\0')
  }

  /** The rest of an array after `index` of its items have been visited, up to and including its `]`. */
  function ReadItems(k: Call, p: Place, elems: seq<Json>, index: nat, skip: bool, depth: nat): (r: Read)
    requires p.d <= |k.desc|
    ensures r.Done? ==> p.d < r.p.d <= |k.desc|
    decreases |k.desc| - p.d, 2
  {
    if Fetches(k, p.d, skip) && index >= |elems| then Fail(OutOfRange, p.d, p.writes)
    else ReadFetched(k, p, elems, if Fetches(k, p.d, skip) then index + 1 else index, skip, depth)
  }

  /** The same once the look-ahead is done: the item to visit next is the last one fetched. */
  function ReadFetched(k: Call, p: Place, elems: seq<Json>, index: nat, skip: bool, depth: nat): (r: Read)
    requires p.d <= |k.desc| && (Fetches(k, p.d, skip) ==> 0 < index <= |elems|)
    ensures r.Done? ==> p.d < r.p.d <= |k.desc|
    decreases |k.desc| - p.d, 1
  {
    var c := At(k.desc, p.d);
    if c == '\0' then Fail(Truncated, p.d, p.writes)
    else if !Ends(c, ']') && !Starts(c) then Fail(InvalidCharacter, p.d, p.writes)
    else if Ends(c, ']') then ReadEnd(k, p, ']', skip || index == |elems|)
    else
      var v := ReadValue(k, p, if skip then Null else elems[index - 1], skip, depth);
      if v.Done? then ReadItems(k, v.p, elems, index, skip, depth) else v
  }

  /** The key argument of a member and its optional `?`: the place after them. */
  function ReadKey(k: Call, p: Place): (r: Read)
    requires p.d < |k.desc|
    ensures r.Done? ==> p.d < r.p.d <= |k.desc| && p.a < |k.args| && k.args[p.a].KeyArg? && k.args[p.a].key.Some?
  {
    var d := Next(k.desc, p.d);
    if !(p.a < |k.args| && k.args[p.a].KeyArg?) then BadCall
    else if k.args[p.a].key.None? then Fail(NullKey, d, p.writes)
    else Done(Place(if At(k.desc, d) == '?' then Next(k.desc, d) else d, p.a + 1, p.writes))
  }

  /** The rest of an object of which `found` keys have been found, up to and including its `}`. */
  function ReadMembers(k: Call, p: Place, members: map<string, Json>, found: nat, skip: bool, depth: nat): (r: Read)
    requires p.d <= |k.desc|
    ensures r.Done? ==> p.d < r.p.d <= |k.desc|
    decreases |k.desc| - p.d, 1
  {
    var c := At(k.desc, p.d);
    if c == '\0' then Fail(Truncated, p.d, p.writes)
    else if !Ends(c, '}') && c != 's' then Fail(InvalidCharacter, p.d, p.writes)
    else if Ends(c, '}') then ReadEnd(k, p, '}', skip || found == |members|)
    else
      var q := ReadKey(k, p);
      if !q.Done? then q
      else
        var key := CString(k.args[p.a].key.value);
        if skip then ReadMember(k, q.p, Null, true, members, found, skip, depth)
        else if key in members then ReadMember(k, q.p, members[key], false, members, found + 1, skip, depth)
        else if At(k.desc, Next(k.desc, p.d)) != '?' then Fail(KeyNotFound, q.p.d, p.writes)
        else ReadMember(k, q.p, Null, true, members, found, skip, depth)
  }

  /** The value of a member, absent when `absent` holds, then the rest of the object. */
  function ReadMember(k: Call, p: Place, obj: Json, absent: bool, members: map<string, Json>, found: nat, skip: bool,
                      depth: nat): (r: Read)
    requires p.d <= |k.desc|
    ensures r.Done? ==> p.d < r.p.d <= |k.desc|
    decreases |k.desc| - p.d, 1
  {
    var v := ReadValue(k, p, obj, absent, depth);
    if v.Done? then ReadMembers(k, v.p, members, found, skip, depth) else v
  }

  /** A complete format holds one value and nothing after it. */
  function Finish(k: Call, r: Read): Outcome {
    match r
    case BadCall => Undefined
    case Fail(code, pos, writes) => Refused(code, pos, writes)
    case Done(p) => if At(k.desc, p.d) != '\0' then Refused(InvalidCharacter, p.d, p.writes) else Unpacked(p.writes)
  }

  /** What vunpack answers, and the targets it writes. */
  function Meaning(obj: Json, desc: Option<string>, args: seq<Arg>, store: bool): Outcome {
    match desc
    case None => Refused(NullSpec, 0, [])
    case Some(s) => var k := Call(s, args, store); Finish(k, ReadValue(k, Place(Skip(s, 0), 0, []), obj, false, 0))
  }
}
