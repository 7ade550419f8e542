/** The package's documented examples and tests, stated on the model. The
    bytes of a Go string literal are the UTF-8 encoding of its runes. */
module JsoncExamples {
  import opened Utf8
  import opened Jsonc
  import ScannerExamples

  /** `ExampleUnmarshal`: the data holds a '/', so it is sanitized, and the
      decoder receives the document without its comment. */
  lemma ExampleUnmarshal()
    ensures UnmarshalOutcome(Encode("{/* comment */\"foo\": \"bar\"}")) == Decoder(Encode("{\"foo\": \"bar\"}"))
  {
    var doc := "{/* comment */\"foo\": \"bar\"}";
    assert doc[1] == '/';
    UnmarshalText(doc);
    ScannerExamples.ExampleDocument();
  }

  /** `ExampleUnmarshal_sanitizeError`: a stray 0xA5 byte after the
      commented document makes `Unmarshal` return ErrInvalidUTF8, whose text
      is "jsonc: invalid UTF-8". */
  lemma ExampleUnmarshalSanitizeError()
    ensures var invalid := Encode("{/* comment */\"foo\": \"invalid utf8\"}") + [0xA5];
            UnmarshalOutcome(invalid) == Failed(InvalidUTF8)
    ensures InvalidUTF8.Message() == "jsonc: invalid UTF-8"
  {
    var doc := "{/* comment */\"foo\": \"invalid utf8\"}";
    assert doc[1] == '/';
    var e := Encode(doc);
    StrayByteAfterText(doc, 0xA5, []);
    assert e + [0xA5] + [] == e + [0xA5];
  }

  /** `SanitizeError`: a 0xA5 byte inside a string value is rejected. */
  lemma SanitizeRejectsStrayByte()
    ensures SanitizeResult(Encode("{\"foo\": \"") + [0xA5] + Encode("\"}")) == Err(InvalidUTF8)
  {
    StrayByteAfterText("{\"foo\": \"", 0xA5, Encode("\"}"));
  }
}
