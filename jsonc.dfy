/** The package's entry points: `Sanitize`, which checks UTF-8 and runs the
    scanner, the scanner itself (`sanitize`), kept as the byte-sized flag
    set that Go updates rune by rune, and the dispatch of `Unmarshal`. */
module Jsonc {
  import opened Utf8
  import opened Scanner
  import ScannerProperties

  /** The package's only error, `ErrInvalidUTF8`. */
  datatype Error = InvalidUTF8 {
    /** The text of the error, as created by `errors.New`. */
    function Message(): (m: string)
      // It names the package first, as Go error strings do, and says
      // what was wrong with the input.
      ensures |m| > 7 && m[..7] == "jsonc: " && m[7..] == "invalid UTF-8"
    {
      "jsonc: invalid UTF-8"
    }
  }

  datatype Result<T> = Ok(value: T) | Err(error: Error)

  /** What `Unmarshal` does with its input: hand these bytes to the JSON
      decoder and return the decoder's error unchanged, or return an error
      without calling the decoder. The decoder itself is not modelled. */
  datatype Outcome = Decoder(input: seq<byte>) | Failed(error: Error)

  /** The byte of `'/'`. */
  const Slash: byte := 0x2F

  /** The byte of `'*'`. */
  const Star: byte := 0x2A

  /** What `Sanitize` returns for `data`. */
  ghost function SanitizeResult(data: seq<byte>): (r: Result<seq<byte>>)
    // Fails exactly on invalid UTF-8, and then only with ErrInvalidUTF8.
    ensures r.Err? <==> !Valid(data)
    ensures r.Err? ==> r.error == InvalidUTF8
    // On success the output is valid UTF-8, no longer than the input, and
    // its runes are those of the input with some deleted.
    ensures r.Ok? ==> Valid(r.value) && |r.value| <= |data|
    ensures r.Ok? ==> ScannerProperties.IsSubsequence(Decode(r.value).value, Decode(data).value)
  {
    if !Valid(data) then Err(InvalidUTF8)
    else
      var runes := Decode(data).value;
      var out := Sanitized(runes);
      EncodeThenDecode(out);
      DecodeThenEncode(data);
      ScannerProperties.OutputIsSubsequence(Init, runes);
      ScannerProperties.OutputSelectsInput(Init, runes);
      SelectedEncodingShorter(runes, ScannerProperties.KeepMask(Init, runes));
      Ok(Encode(out))
  }

  /** Deleting runes never lengthens the encoding. */
  lemma {:induction false} SelectedEncodingShorter(rs: seq<char>, mask: seq<bool>)
    requires |mask| == |rs|
    ensures |Encode(ScannerProperties.Select(rs, mask))| <= |Encode(rs)|
    decreases |rs|
  {
    if rs != [] {
      var n := |rs| - 1;
      SelectedEncodingShorter(rs[..n], mask[..n]);
      EncodeAppend(ScannerProperties.Select(rs[..n], mask[..n]), if mask[n] then [rs[n]] else []);
      EncodeAppend(rs[..n], [rs[n]]);
      assert rs == rs[..n] + [rs[n]];
    }
  }

  /** What `Unmarshal` does with `data`. */
  ghost function UnmarshalOutcome(data: seq<byte>): (o: Outcome)
    // Without a '/' byte the input reaches the decoder as it is, and no
    // UTF-8 check is made.
    ensures Slash !in data ==> o == Decoder(data)
    // With one, invalid UTF-8 is reported without reaching the decoder, and
    // otherwise the decoder receives valid UTF-8.
    ensures Slash in data ==> (o.Failed? <==> !Valid(data))
    ensures o.Failed? ==> o.error == InvalidUTF8
    ensures Slash in data && o.Decoder? ==> Valid(o.input) && |o.input| <= |data|
  {
    if Slash in data then
      match SanitizeResult(data)
      case Err(e) => Failed(e)
      case Ok(clean) => Decoder(clean)
    else Decoder(data)
  }

  /** Data without '/' and '*' bytes is already sanitized: `Sanitize`
      returns it unchanged, so the fast path of `Unmarshal` hands the
      decoder what sanitizing would have. */
  lemma NoMarkerBytesUnchanged(data: seq<byte>)
    requires Valid(data) && Slash !in data && Star !in data
    ensures SanitizeResult(data) == Ok(data)
    ensures UnmarshalOutcome(data) == Decoder(data)
  {
    var runes := Decode(data).value;
    DecodeThenEncode(data);
    AsciiOccurrence(runes, Slash);
    AsciiOccurrence(runes, Star);
    ScannerProperties.NoMarkersUnchanged(runes);
  }

  /** A stray continuation byte after a valid prefix is rejected by
      `Sanitize`, and by `Unmarshal` when the data holds a '/'. */
  lemma ContinuationByteRejected(prefix: seq<byte>, b: byte, rest: seq<byte>)
    requires Valid(prefix) && IsCont(b)
    ensures SanitizeResult(prefix + [b] + rest) == Err(InvalidUTF8)
    ensures Slash in prefix + [b] + rest ==> UnmarshalOutcome(prefix + [b] + rest) == Failed(InvalidUTF8)
  {
    ContinuationAfterValid(prefix, b, rest);
  }

  /** On the encoding of any rune text, `Unmarshal` hands the decoder the
      encoding of the sanitized text when the text holds a '/', and the
      text itself otherwise. */
  lemma UnmarshalText(text: seq<char>)
    ensures '/' in text ==> UnmarshalOutcome(Encode(text)) == Decoder(Encode(Sanitized(text)))
    ensures '/' !in text ==> UnmarshalOutcome(Encode(text)) == Decoder(Encode(text))
  {
    EncodeThenDecode(text);
    AsciiOccurrence(text, Slash);
  }

  /** A continuation byte after the encoding of any rune text is rejected
      by `Sanitize`, and by `Unmarshal` when the text holds a '/'. */
  lemma StrayByteAfterText(text: seq<char>, b: byte, rest: seq<byte>)
    requires IsCont(b)
    ensures SanitizeResult(Encode(text) + [b] + rest) == Err(InvalidUTF8)
    ensures '/' in text ==> UnmarshalOutcome(Encode(text) + [b] + rest) == Failed(InvalidUTF8)
  {
    EncodeThenDecode(text);
    AsciiOccurrence(text, Slash);
    ContinuationByteRejected(Encode(text), b, rest);
  }

  /** `sanitize`: `bytes.Map` applied to the closure over `state`, here on
      the decoded runes. The state is the same byte as in Go, updated with
      the same masks. */
  method SanitizeRunes(runes: seq<char>) returns (out: seq<char>)
    ensures out == Sanitized(runes)
  {
    var state: bv8 := 0;
    out := [];
    for i := 0 to |runes|
      invariant state == Bits(Run(Init, runes[..i]).state)
      invariant out == Run(Init, runes[..i]).out
    {
      var r := runes[i];
      var checkNext := state & CheckNext != 0;
      state := state & !CheckNext;
      var skip := false;
      match r {
        case '\n' =>
          state := state & !IsCommentLine;
        case '"' =>
          if state & IsString != 0 {
            state := state & !IsString;
          } else if state & (IsCommentLine | IsCommentBlock) == 0 {
            state := state | IsString;
          }
        case '/' =>
          if state & IsString == 0 {
            if state & IsCommentBlock != 0 {
              if checkNext {
                state := state & !IsCommentBlock;
              } else {
                state := state | IsCommentLine;
              }
            } else {
              if checkNext {
                state := state | IsCommentLine;
              } else {
                state := state | CheckNext;
              }
            }
            skip := true;
          }
        case '*' =>
          if state & IsString == 0 {
            if checkNext {
              state := state | IsCommentBlock;
            } else if state & IsCommentBlock != 0 {
              state := state | CheckNext;
            }
            skip := true;
          }
        case _ =>
      }
      if !skip && state & (IsCommentLine | IsCommentBlock) != 0 {
        skip := true;
      }
      if !skip {
        out := out + [r];
      }
      assert runes[..i + 1][..i] == runes[..i];
    }
    assert runes[..|runes|] == runes;
  }

  /** `Sanitize`: reject invalid UTF-8, otherwise scan. */
  method Sanitize(data: seq<byte>) returns (r: Result<seq<byte>>)
    ensures r == SanitizeResult(data)
  {
    if !Valid(data) {
      return Err(InvalidUTF8);
    }
    var out := SanitizeRunes(Decode(data).value);
    r := Ok(Encode(out));
  }

  /** `Unmarshal`: sanitize only when the data holds a '/', then hand the
      (possibly replaced) data to the decoder. */
  method Unmarshal(data: seq<byte>) returns (o: Outcome)
    ensures o == UnmarshalOutcome(data)
  {
    var input := data;
    if Slash in input {
      var r := Sanitize(input);
      if r.Err? {
        return Failed(r.error);
      }
      input := r.value;
    }
    o := Decoder(input);
  }
}
