/** The comment-stripping state machine of `sanitize`, as a specification:
    one transition per rune (`Step`) and its left fold over a rune sequence
    (`Run`). The imperative scanner in module Jsonc is proved equal to `Run`. */
module Scanner {

  /** The four flags of the scan state. Go keeps them as bits of one byte;
      `Bits` below gives that byte. */
  datatype State = State(isString: bool, isCommentLine: bool, isCommentBlock: bool, checkNext: bool)

  /** The state every scan starts from (`var state byte` is zero). */
  const Init := State(false, false, false, false)

  /** The flag bits, as declared with `iota` (bit 0 is left unused). */
  const IsString: bv8 := 1 << 1
  const IsCommentLine: bv8 := 1 << 2
  const IsCommentBlock: bv8 := 1 << 3
  const CheckNext: bv8 := 1 << 4

  /** The byte Go keeps for a state. */
  function Bits(s: State): (b: bv8)
    ensures (b & IsString != 0) == s.isString
    ensures (b & IsCommentLine != 0) == s.isCommentLine
    ensures (b & IsCommentBlock != 0) == s.isCommentBlock
    ensures (b & CheckNext != 0) == s.checkNext
    ensures b & !(IsString | IsCommentLine | IsCommentBlock | CheckNext) == 0
  {
    (if s.isString then IsString else 0)
    | (if s.isCommentLine then IsCommentLine else 0)
    | (if s.isCommentBlock then IsCommentBlock else 0)
    | (if s.checkNext then CheckNext else 0)
  }

  /** Inside a line or a block comment: runes are dropped. */
  predicate InComment(s: State) {
    s.isCommentLine || s.isCommentBlock
  }

  /** String mode and comment mode never hold together. */
  predicate Exclusive(s: State) {
    !(s.isString && InComment(s))
  }

  /** The effect of one rune: the next state, and whether the rune is
      written (`return r`) or skipped (`return -1`). */
  datatype Transition = Transition(next: State, keep: bool)

  /** The closure passed to `bytes.Map`, one rune at a time. The flag
      `checkNext` is read and cleared first; the switch then updates the
      state; a `/` or `*` outside a string is always skipped; any other rune
      (and a `/` or `*` inside a string) reaches the closure's tail, which
      keeps it unless a comment is open. */
  function Step(s: State, r: char): (t: Transition)
    // The invariant the scan keeps.
    ensures Exclusive(s) ==> Exclusive(t.next)
    // Comment markers are dropped outside strings and kept inside them.
    ensures (r == '/' || r == '*') && Exclusive(s) ==> (t.keep <==> s.isString)
    // `checkNext` lives one rune: it is set only by a `/` outside a block
    // comment or by a `*` inside one, and neither when it was set already.
    ensures t.next.checkNext <==>
              !s.isString && !s.checkNext &&
              ((r == '/' && !s.isCommentBlock) || (r == '*' && s.isCommentBlock))
    // A newline ends a line comment, never a block comment or a string.
    ensures r == '\n' ==>
              t.next == s.(isCommentLine := false, checkNext := false) && (t.keep <==> !s.isCommentBlock)
    // Every `"` counts (there is no escape): it closes an open string, and
    // opens one only outside comments.
    ensures r == '"' ==>
              (t.next.isString <==> !s.isString && !InComment(s)) &&
              t.next.(isString := s.isString) == s.(checkNext := false) &&
              (t.keep <==> !InComment(s))
    // Only the four special runes change anything.
    ensures r !in "\n\"/*" ==> t.next == s.(checkNext := false) && (t.keep <==> !InComment(s))
    // Only `/` and `*` can open a comment or set `checkNext`.
    ensures r != '/' && r != '*' ==>
              (t.next.isCommentLine ==> s.isCommentLine) && (t.next.isCommentBlock ==> s.isCommentBlock)
  {
    var checkNext := s.checkNext;
    var s := s.(checkNext := false);
    match r
    case '\n' =>
      var s := s.(isCommentLine := false);
      Transition(s, !InComment(s))
    case '"' =>
      var s := if s.isString then s.(isString := false)
               else if !InComment(s) then s.(isString := true)
               else s;
      Transition(s, !InComment(s))
    case '/' =>
      if s.isString then Transition(s, !InComment(s))
      else if s.isCommentBlock then
        if checkNext then Transition(s.(isCommentBlock := false), false)
        else Transition(s.(isCommentLine := true), false)
      else
        if checkNext then Transition(s.(isCommentLine := true), false)
        else Transition(s.(checkNext := true), false)
    case '*' =>
      if s.isString then Transition(s, !InComment(s))
      else if checkNext then Transition(s.(isCommentBlock := true), false)
      else if s.isCommentBlock then Transition(s.(checkNext := true), false)
      else Transition(s, false)
    case _ =>
      Transition(s, !InComment(s))
  }

  /** The outcome of scanning a rune sequence: the final state and the
      runes written. */
  datatype Scan = Scan(state: State, out: seq<char>)

  /** The fold of `Step` over `rs`, left to right, starting in state `s`. */
  function Run(s: State, rs: seq<char>): (sc: Scan)
    ensures |sc.out| <= |rs|
    ensures Exclusive(s) ==> Exclusive(sc.state)
    decreases |rs|
  {
    if rs == [] then Scan(s, [])
    else
      var prev := Run(s, rs[..|rs| - 1]);
      var r := rs[|rs| - 1];
      var t := Step(prev.state, r);
      Scan(t.next, prev.out + (if t.keep then [r] else []))
  }

  /** The runes `bytes.Map` writes when `sanitize` scans `rs`. */
  function Sanitized(rs: seq<char>): (out: seq<char>)
    // The output is never longer than the input, and the scan ends with
    // string and comment modes still exclusive.
    ensures |out| <= |rs|
    ensures Exclusive(Run(Init, rs).state)
  {
    Run(Init, rs).out
  }
}
