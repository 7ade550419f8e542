/** The scanner on concrete inputs: the package example's document, and
    the quirks of the transition table. The quirk proofs walk the input one
    prefix at a time. */
module ScannerExamples {
  import opened Scanner
  import opened ScannerProperties

  /** The package example's document, and the same without its comment,
      spelled out as the pieces the segment lemmas speak of. */
  lemma ExamplePieces()
    ensures "{/* comment */\"foo\": \"bar\"}"
         == "{" + ("/*" + " comment " + "*/") + (("\"" + "foo" + "\"") + ": " + ("\"" + "bar" + "\"")) + "}"
    ensures "{\"foo\": \"bar\"}" == "{" + (("\"" + "foo" + "\"") + ": " + ("\"" + "bar" + "\"")) + "}"
  {
  }

  /** The document of the package example sanitizes to plain JSON. */
  lemma ExampleDocument()
    ensures Sanitized("{/* comment */\"foo\": \"bar\"}") == "{\"foo\": \"bar\"}"
  {
    CommentedMember(" comment ", "foo", "bar");
    ExamplePieces();
  }

  // A star directly before the closing star and slash consumes the pending
  // flag without renewing it, so the comment stays open and the final slash
  // opens a line comment as well.
  lemma StarStarSlashDoesNotClose()
    ensures Run(Init, "/*x**/") == Scan(State(false, true, true, false), "")
  {
    assert "/*"[..1] == "/";
    assert "/*x"[..2] == "/*";
    assert "/*x*"[..3] == "/*x";
    assert "/*x**"[..4] == "/*x*";
    assert "/*x**/"[..5] == "/*x**";
  }

  // A slash inside a block comment that does not follow a star opens a
  // line comment, which outlives the block comment and swallows the rest
  // of the line.
  lemma SlashInBlockOpensLine()
    ensures Run(Init, "/* / */c\nd") == Scan(Init, "\nd")
  {
    assert "/*"[..1] == "/";
    assert "/* "[..2] == "/*";
    assert "/* /"[..3] == "/* ";
    assert "/* / "[..4] == "/* /";
    assert "/* / *"[..5] == "/* / ";
    assert "/* / */"[..6] == "/* / *";
    assert "/* / */c"[..7] == "/* / */";
    assert "/* / */c\n"[..8] == "/* / */c";
    assert "/* / */c\nd"[..9] == "/* / */c\n";
  }

  // A slash and a star inside a line comment open a block comment, which
  // survives the newline that ends the line comment.
  lemma BlockOpenedInLineComment()
    ensures Run(Init, "//x/*\ny") == Scan(State(false, false, true, false), "")
  {
    assert "//"[..1] == "/";
    assert "//x"[..2] == "//";
    assert "//x/"[..3] == "//x";
    assert "//x/*"[..4] == "//x/";
    assert "//x/*\n"[..5] == "//x/*";
    assert "//x/*\ny"[..6] == "//x/*\n";
  }

  /** There is no escape handling: a backslash-quote closes the string, the
      slash after it is then taken for a comment marker and dropped, and the
      final quote opens a new string. */
  lemma EscapedQuoteClosesString()
    ensures Run(Init, "\"a\\\"/b\"") == Scan(State(true, false, false, false), "\"a\\\"b\"")
  {
    assert "\"a"[..1] == "\"";
    assert "\"a\\"[..2] == "\"a";
    assert "\"a\\\""[..3] == "\"a\\";
    assert "\"a\\\"/"[..4] == "\"a\\\"";
    assert "\"a\\\"/b"[..5] == "\"a\\\"/";
    assert "\"a\\\"/b\""[..6] == "\"a\\\"/b";
  }
}
