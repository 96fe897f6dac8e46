/** The vocabulary shared by the packing and the unpacking interpreter of wrap-json:
    JSON trees, error codes, return codes and the cursor over a format string. */
module WrapJsonBase {
  import opened Options

  type int32 = x: int | -0x8000_0000 <= x <= 0x7fff_ffff
  type int64 = x: int | -0x8000_0000_0000_0000 <= x <= 0x7fff_ffff_ffff_ffff

  /** A json-c tree. `Null` is both the JSON null and the C pointer NULL: json-c has one value for the two. */
  datatype Json =
    | Null
    | Bool(b: bool)
    | Int(n: int64)
    | Double(r: real)
    | Str(s: string)
    | Arr(elems: seq<Json>)
    | Obj(members: map<string, Json>)

  datatype ErrorCode =
    | NullObject | Truncated | InternalError | OutOfMemory | InvalidCharacter | TooLong | TooDeep
    | NullSpec | NullKey | NullString | OutOfRange | Incomplete | MissfitType | KeyNotFound

  /** The number of stack frames of either interpreter. */
  const STACKCOUNT: nat := 32

  /** The number of fragments one string may be made of. */
  const STRCOUNT: nat := 8

  /** The top of a stack, and the stack below it. */
  function Last<T>(stack: seq<T>): T
    requires |stack| > 0
  {
    stack[|stack| - 1]
  }

  function Parents<T>(stack: seq<T>): seq<T>
    requires |stack| > 0
  {
    stack[..|stack| - 1]
  }

  // ---------------------------------------------------------------- cursor

  /** The character under the cursor; the end of the string reads as NUL. */
  function At(desc: string, d: nat): char {
    if d < |desc| then desc[d] else '\0'
  }

  predicate Ignored(c: char) {
    c == ' ' || c == '\t' || c == '\n' || c == '\r' || c == ',' || c == ':'
  }

  /** The first position from `d` on whose character is not ignored. */
  function Skip(desc: string, d: nat): (r: nat)
    ensures d <= r && (d <= |desc| ==> r <= |desc|)
    ensures !Ignored(At(desc, r))
    decreases |desc| - d
  {
    if Ignored(At(desc, d)) then Skip(desc, d + 1) else d
  }

  /** `Skip` passes over ignored characters only, and over all of them. */
  lemma {:induction false} SkipIsFirst(desc: string, d: nat, k: nat)
    ensures d <= k < Skip(desc, d) ==> Ignored(At(desc, k))
    ensures d <= k && !Ignored(At(desc, k)) ==> Skip(desc, d) <= k
    decreases |desc| - d
  {
    if Ignored(At(desc, d)) {
      SkipIsFirst(desc, d + 1, k);
    }
  }

  /** The characters passed over are blanks, tabs, line ends, commas and colons, and the cursor stops at any other. */
  lemma {:induction false} SkipsBlanks(desc: string, d: nat)
    requires d <= |desc|
    ensures Skip(desc, d) > d <==> d < |desc| && desc[d] in " \t\n\r,:"
    ensures forall k :: d <= k < Skip(desc, d) ==> desc[k] in " \t\n\r,:"
    ensures Skip(desc, d) < |desc| ==> desc[Skip(desc, d)] !in " \t\n\r,:"
    decreases |desc| - d
  {
    if d < |desc| && Ignored(desc[d]) {
      SkipsBlanks(desc, d + 1);
    }
  }

  /** The cursor after consuming the character at `d`. */
  function Next(desc: string, d: nat): (r: nat)
    ensures d < r && (d < |desc| ==> r <= |desc|)
  {
    Skip(desc, d + 1)
  }

  /** Consumes `c` and the ignored characters after it. */
  function Eat(desc: string, o: Option<nat>, c: char): (r: Option<nat>)
    ensures r.Some? && c != '\0' ==> o.Some? && o.value < r.value <= |desc|
  {
    if o.Some? && At(desc, o.value) == c then Some(Next(desc, o.value)) else None
  }

  function EatIf(desc: string, o: Option<nat>, b: bool, c: char): Option<nat> {
    if b then Eat(desc, o, c) else o
  }

  function Max(x: nat, y: nat): nat {
    if x < y then y else x
  }

  method SkipIgnored(desc: string, start: nat) returns (d: nat)
    requires start <= |desc|
    ensures d == Skip(desc, start)
  {
    d := start;
    while At(desc, d) != '\0' && Ignored(At(desc, d))
      invariant start <= d <= |desc|
      invariant Skip(desc, start) == Skip(desc, d)
      decreases |desc| - d
    {
      d := d + 1;
    }
  }

  /** A C string ends at its first NUL. */
  function CString(s: string): (r: string)
    ensures r <= s
  {
    if s == [] || s[0] == '\0' then [] else [s[0]] + CString(s[1..])
  }

  /** It is cut there, and nowhere else. */
  lemma {:induction false} CStringEnds(s: string)
    ensures '\0' !in CString(s)
    ensures |CString(s)| < |s| ==> s[|CString(s)|] == '\0'
    ensures s[..|CString(s)|] == CString(s)
  {
    if s != [] && s[0] != '\0' {
      CStringEnds(s[1..]);
    }
  }
}
