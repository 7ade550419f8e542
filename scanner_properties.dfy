/** What the scanner guarantees, proved about the specification in module
    Scanner: the output is a subsequence of the input, text without `/` or
    `*` passes unchanged, and comments and string literals are handled as
    whole segments. */
module ScannerProperties {
  import opened Scanner

  /** Scanning a concatenation is scanning the first part, then the second
      part from the state the first part ends in. */
  lemma {:induction false} RunAppend(s: State, a: seq<char>, b: seq<char>)
    ensures Run(s, a + b) == Scan(Run(Run(s, a).state, b).state, Run(s, a).out + Run(Run(s, a).state, b).out)
    decreases |b|
  {
    if b == [] {
      assert a + b == a;
    } else {
      var b' := b[..|b| - 1];
      RunAppend(s, a, b');
      assert (a + b)[..|a + b| - 1] == a + b';
    }
  }

  /** Scanning one rune is one step. */
  lemma RunOne(s: State, r: char)
    ensures Run(s, [r]) == Scan(Step(s, r).next, if Step(s, r).keep then [r] else [])
  {
    assert [r][..0] == [];
  }

  /** Segments scanned from the initial state that also end in it compose:
      the output of the whole is the outputs of the parts, in order. */
  lemma Compose(a: seq<char>, b: seq<char>, x: seq<char>, y: seq<char>)
    requires Run(Init, a) == Scan(Init, x) && Run(Init, b) == Scan(Init, y)
    ensures Run(Init, a + b) == Scan(Init, x + y)
  {
    RunAppend(Init, a, b);
  }

  // ---------------------------------------------------------------------
  // Every rune is either written unchanged or skipped.

  /** The runes of `rs` whose flag in `mask` is set, in order. */
  function Select(rs: seq<char>, mask: seq<bool>): (sub: seq<char>)
    requires |mask| == |rs|
    decreases |rs|
  {
    if rs == [] then []
    else Select(rs[..|rs| - 1], mask[..|rs| - 1]) + (if mask[|rs| - 1] then [rs[|rs| - 1]] else [])
  }

  /** `sub` is obtained from `rs` by deleting runes. */
  ghost predicate IsSubsequence(sub: seq<char>, rs: seq<char>) {
    exists mask: seq<bool> | |mask| == |rs| :: Select(rs, mask) == sub
  }

  /** Which runes of `rs` a scan from `s` writes: rune i is written exactly
      when the step that reads it keeps it. */
  function KeepMask(s: State, rs: seq<char>): (mask: seq<bool>)
    ensures |mask| == |rs|
    decreases |rs|
  {
    if rs == [] then []
    else KeepMask(s, rs[..|rs| - 1]) + [Step(Run(s, rs[..|rs| - 1]).state, rs[|rs| - 1]).keep]
  }

  /** The output of a scan is the input with the unkept runes deleted. */
  lemma {:induction false} OutputSelectsInput(s: State, rs: seq<char>)
    ensures Run(s, rs).out == Select(rs, KeepMask(s, rs))
    decreases |rs|
  {
    if rs != [] {
      OutputSelectsInput(s, rs[..|rs| - 1]);
      assert KeepMask(s, rs)[..|rs| - 1] == KeepMask(s, rs[..|rs| - 1]);
    }
  }

  /** The output is an order-preserving subsequence of the input runes. */
  lemma OutputIsSubsequence(s: State, rs: seq<char>)
    ensures IsSubsequence(Run(s, rs).out, rs)
  {
    OutputSelectsInput(s, rs);
  }

  // ---------------------------------------------------------------------
  // Text without comment markers.

  /** Outside comments and with no pending `/`, runes other than `/` and `*`
      are all written, and no comment is opened; without `"` nothing
      changes at all. */
  lemma {:induction false} PlainTextUnchanged(s: State, rs: seq<char>)
    requires !InComment(s) && !s.checkNext
    requires forall i :: 0 <= i < |rs| ==> rs[i] != '/' && rs[i] != '*'
    ensures Run(s, rs).out == rs
    ensures !InComment(Run(s, rs).state) && !Run(s, rs).state.checkNext
    ensures '"' !in rs ==> Run(s, rs).state == s
    decreases |rs|
  {
    if rs != [] {
      PlainTextUnchanged(s, rs[..|rs| - 1]);
      assert rs == rs[..|rs| - 1] + [rs[|rs| - 1]];
    }
  }

  /** Input holding neither `/` nor `*` is returned unchanged. */
  lemma NoMarkersUnchanged(rs: seq<char>)
    requires '/' !in rs && '*' !in rs
    ensures Sanitized(rs) == rs
  {
    PlainTextUnchanged(Init, rs);
  }

  // ---------------------------------------------------------------------
  // Line comments.

  /** Inside a line comment whose text has no newline and no `/` directly
      followed by `*`, every rune is skipped and the comment stays open. */
  lemma {:induction false} LineCommentBody(body: seq<char>)
    requires '\n' !in body
    requires forall i :: 0 <= i < |body| - 1 ==> !(body[i] == '/' && body[i + 1] == '*')
    ensures Run(State(false, true, false, false), body).out == []
    ensures var st := Run(State(false, true, false, false), body).state;
            !st.isString && st.isCommentLine && !st.isCommentBlock &&
            (st.checkNext ==> body[|body| - 1] == '/')
    decreases |body|
  {
    if body != [] {
      LineCommentBody(body[..|body| - 1]);
    }
  }

  /** A `//` comment outside strings is dropped up to the newline that ends
      it; the newline itself is written and the scan is back in its
      initial state. */
  lemma LineComment(body: seq<char>)
    requires '\n' !in body
    requires forall i :: 0 <= i < |body| - 1 ==> !(body[i] == '/' && body[i + 1] == '*')
    ensures Run(Init, "//" + body + "\n") == Scan(Init, "\n")
  {
    var line := State(false, true, false, false);
    RunOne(Init, '/');
    RunOne(State(false, false, false, true), '/');
    RunAppend(Init, ['/'], ['/']);
    assert Run(Init, "//") == Scan(line, []);
    RunAppend(Init, "//", body);
    LineCommentBody(body);
    var st := Run(line, body).state;
    RunOne(st, '\n');
    RunAppend(Init, "//" + body, "\n");
  }

  // ---------------------------------------------------------------------
  // Block comments.

  /** The number of `*` runes that end `s`. */
  function TrailingStars(s: seq<char>): (n: nat)
    ensures n <= |s|
    ensures forall i :: |s| - n <= i < |s| ==> s[i] == '*'
    ensures n < |s| ==> s[|s| - n - 1] != '*'
    decreases |s|
  {
    if s != [] && s[|s| - 1] == '*' then TrailingStars(s[..|s| - 1]) + 1 else 0
  }

  /** Inside a block comment, every rune up to the next `/` is skipped and
      the comment stays open: newlines and quotes change nothing, and each
      `*` toggles `checkNext`, so the flag is set at the end exactly when
      the text ends in an odd run of stars. */
  lemma {:induction false} BlockCommentBody(body: seq<char>)
    requires '/' !in body
    ensures Run(State(false, false, true, false), body) == Scan(State(false, false, true, TrailingStars(body) % 2 == 1), [])
    decreases |body|
  {
    if body != [] {
      var n := |body| - 1;
      BlockCommentBody(body[..n]);
      assert body[n] in body;
      if body[n] == '*' {
        assert TrailingStars(body) == TrailingStars(body[..n]) + 1;
      }
    }
  }

  // A block comment opened outside strings is dropped whole, across
  // newlines and stars. After the closing star and slash the scan is back
  // in its initial state, unless the text ends in an odd run of stars: then
  // the closing star only clears the pending flag, and the final slash
  // opens a line comment inside the still-open block.
  lemma BlockComment(body: seq<char>)
    requires '/' !in body
    ensures TrailingStars(body) % 2 == 0 ==> Run(Init, "/*" + body + "*/") == Scan(Init, [])
    ensures TrailingStars(body) % 2 == 1 ==>
              Run(Init, "/*" + body + "*/") == Scan(State(false, true, true, false), [])
  {
    var open := State(false, false, true, false);
    assert Run(Init, "/") == Scan(State(false, false, false, true), []);
    assert "/*"[..1] == "/";
    assert Run(Init, "/*") == Scan(open, []);
    RunAppend(Init, "/*", body);
    BlockCommentBody(body);
    var st := open.(checkNext := TrailingStars(body) % 2 == 1);
    assert "*/"[..1] == "*";
    if TrailingStars(body) % 2 == 0 {
      assert Run(st, "*") == Scan(open.(checkNext := true), []);
      assert Run(st, "*/") == Scan(Init, []);
    } else {
      assert Run(st, "*") == Scan(open, []);
      assert Run(st, "*/") == Scan(State(false, true, true, false), []);
    }
    RunAppend(Init, "/*" + body, "*/");
  }

  // ---------------------------------------------------------------------
  // String literals.

  /** Inside a string, every rune other than `"` is written and the string
      stays open: comment markers are ordinary text there. */
  lemma {:induction false} StringBody(content: seq<char>)
    requires '"' !in content
    ensures Run(State(true, false, false, false), content) == Scan(State(true, false, false, false), content)
    decreases |content|
  {
    if content != [] {
      var n := |content| - 1;
      StringBody(content[..n]);
      assert content[n] in content;
      assert Step(State(true, false, false, false), content[n]) == Transition(State(true, false, false, false), true);
      assert content == content[..n] + [content[n]];
    }
  }

  /** A string literal met outside comments is written byte for byte,
      whatever comment-like text it holds, and the scan is back in its
      initial state after the closing quote. */
  lemma StringLiteral(content: seq<char>)
    requires '"' !in content
    ensures Run(Init, "\"" + content + "\"") == Scan(Init, "\"" + content + "\"")
  {
    var inString := State(true, false, false, false);
    assert Run(Init, "\"") == Scan(inString, "\"");
    RunAppend(Init, "\"", content);
    StringBody(content);
    assert Run(inString, "\"") == Scan(Init, "\"");
    RunAppend(Init, "\"" + content, "\"");
  }

  // ---------------------------------------------------------------------
  // Documents.

  /** A JSON member `"key": "value"` passes unchanged, whatever comment-like
      text its key and value hold. */
  lemma Member(key: seq<char>, value: seq<char>)
    requires '"' !in key && '"' !in value
    ensures var m := ("\"" + key + "\"") + ": " + ("\"" + value + "\"");
            Run(Init, m) == Scan(Init, m)
  {
    var k, sep, v := "\"" + key + "\"", ": ", "\"" + value + "\"";
    StringLiteral(key);
    PlainTextUnchanged(Init, sep);
    StringLiteral(value);
    Compose(k, sep, k, sep);
    Compose(k + sep, v, k + sep, v);
  }

  // An object holding one member after a block comment loses the comment
  // and nothing else.
  lemma CommentedMember(comment: seq<char>, key: seq<char>, value: seq<char>)
    requires '/' !in comment && TrailingStars(comment) % 2 == 0 && '"' !in key && '"' !in value
    ensures var m := ("\"" + key + "\"") + ": " + ("\"" + value + "\"");
            Sanitized("{" + ("/*" + comment + "*/") + m + "}") == "{" + m + "}"
  {
    var m := ("\"" + key + "\"") + ": " + ("\"" + value + "\"");
    var open, block, close := "{", "/*" + comment + "*/", "}";
    PlainTextUnchanged(Init, open);
    BlockComment(comment);
    Member(key, value);
    PlainTextUnchanged(Init, close);
    Compose(open, block, open, []);
    assert open + [] == open;
    Compose(open + block, m, open, m);
    Compose(open + block + m, close, open + m, close);
  }
}
