# go-jsonc comment stripper, modelled in Dafny

This project models the core of the Go package `jsonc`, which turns JSONC
(JSON with `//` line comments and `/* */` block comments) into plain JSON.
The package has three pieces:

- `Sanitize` rejects input that is not valid UTF-8 with `ErrInvalidUTF8`.
  Otherwise it returns `sanitize(data)`.
- `sanitize` runs `bytes.Map` with a closure over a one-byte flag set
  `state`. The flags are `_isString`, `_isCommentLine`, `_isCommentBlock`
  and `_checkNext`. For each rune the closure updates `state` and either
  keeps the rune or drops it (`return -1`).
- `Unmarshal` runs `Sanitize` only when the data holds a `'/'` byte. It
  then hands the (possibly replaced) data to `encoding/json`.

`sanitize.go` holds the same `Sanitize` and `sanitize` as `jsonc.go`, line
for line. One model covers both copies, and the table cites whichever copy
reads more directly.

The modules follow the program's structure:

- `Utf8` (`utf8.dfy`) is a reference definition of UTF-8 following RFC 3629.
  It contains `Decode`/`Valid`, the well-formed byte sequences of section 4,
  and `Encode`, the encoding table of section 3. It proves both round trips.
  It stands in for `utf8.Valid` and for the decode and re-encode that
  `bytes.Map` does around the closure.
- `Scanner` (`scanner.dfy`) is the specification of the closure:
  - `Step` makes one transition;
  - `Run` is its left fold over a rune sequence;
  - `Bits` gives the Go byte for a state.
- `ScannerProperties` (`scanner_properties.dfy`) proves what the scan
  guarantees:
  - the output is a subsequence of the input;
  - text without `/` and `*` passes unchanged;
  - line comments, block comments and string literals behave as whole
    segments.
- `ScannerExamples` (`scanner_examples.dfy`) pins down the package example
  and the transition table's quirks on concrete inputs.
- `Jsonc` (`jsonc.dfy`) holds the imperative model of the package's entry
  points:
  - `SanitizeRunes` keeps the `bv8` state and the same masks as Go, and is
    proved equal to `Run`;
  - `Sanitize` and `Unmarshal` are proved equal to the specification
    functions `SanitizeResult` and `UnmarshalOutcome`.
- `JsoncExamples` (`jsonc_examples.dfy`) states the package's examples and
  tests on the model.

Runes are Dafny `char`s, which are Unicode scalar values. Bytes are
integers in `[0, 256)`.

Two facts about the code shape the model:

- There is no escape handling. Every `"` toggles string mode outside
  comments, so `\"` closes a string (`ScannerExamples.EscapedQuoteClosesString`).
- `Unmarshal` tests only for a `'/'` byte before sanitizing (jsonc.go:111).

## Model

| member | source | states |
|---|---|---|
| Scanner.Bits | jsonc.go:27-33 | The Go byte of a state has bit 1 for `_isString`, bit 2 for `_isCommentLine`, bit 3 for `_isCommentBlock` and bit 4 for `_checkNext`, and no other bit set |
| Scanner.Step | jsonc.go:47-90 | One transition of the closure: keeps string and comment modes exclusive; drops a `/` or `*` outside a string and keeps it inside one; sets `_checkNext` only after a non-confirming `/` outside a block comment or a `*` inside one (so the flag lives exactly one rune); a newline ends a line comment but not a block comment or a string; every `"` toggles string mode outside comments and never opens a string inside one; any other rune changes nothing except clearing `_checkNext`, and is kept unless a comment is open; only `/` and `*` can open a comment |
| Scanner.Sanitized | jsonc.go:44-92 | `sanitize`'s output from the zero state is never longer than its input, and the scan ends with string and comment modes exclusive |
| Scanner.Run | jsonc.go:44-92 | The scan over a rune sequence: the output is never longer than the input, and string and comment modes stay exclusive |
| ScannerProperties.RunAppend | jsonc.go:46-91 | Scanning a concatenation is scanning the first part, then the second part from the state the first part ends in |
| ScannerProperties.RunOne | jsonc.go:46-91 | Scanning a single rune is one transition |
| ScannerProperties.Compose | jsonc.go:46-91 | Two segments that each lead from the initial state back to it compose, and their outputs concatenate |
| ScannerProperties.OutputSelectsInput | jsonc.go:75-90 | The output is the input with exactly the runes that their step drops removed: each rune is kept unchanged or dropped, never altered |
| ScannerProperties.OutputIsSubsequence | jsonc.go:46-91 | The output is an order-preserving subsequence of the input runes |
| ScannerProperties.PlainTextUnchanged | jsonc.go:49-90 | Outside comments, with no pending `/`, text without `/` and `*` is written unchanged and opens no comment; without `"` the state does not change either |
| ScannerProperties.NoMarkersUnchanged | sanitize.go:48-89 | Runes without `/` and `*` come back unchanged |
| ScannerProperties.LineCommentBody | jsonc.go:87-89 | Inside a line comment, runes other than a newline are dropped and the comment stays open, as long as no `/` is directly followed by `*` |
| ScannerProperties.LineComment | sanitize.go:49-89 | `//` outside strings, a comment text and a newline produce just the newline, and the scan ends in its initial state |
| ScannerProperties.BlockCommentBody | jsonc.go:76-89 | Inside a block comment, every rune up to the next `/` is dropped and the comment stays open. Newlines and quotes change nothing, and each `*` toggles `_checkNext`, so the flag is set at the end exactly when the text ends in an odd run of stars |
| ScannerProperties.BlockComment | sanitize.go:61-88 | A `/*`-to-`*/` comment outside strings, whose text has no `/`, is dropped whole, across newlines and stars. If the text ends in an even run of stars (or none), the scan ends in its initial state. After an odd run, the closing `*` only clears `_checkNext`, and the final `/` opens a line comment inside the still-open block |
| ScannerProperties.StringBody | jsonc.go:59-61 | Inside a string every rune except `"` is written and the string stays open, including comment markers |
| ScannerProperties.StringLiteral | jsonc_test.go:60-62 | A string literal outside comments is written unchanged, whatever comment-like text it holds, and the scan ends in its initial state |
| ScannerProperties.Member | jsonc.go:52-57 | A JSON member `"key": "value"` is written unchanged, whatever comment-like text its key and value hold |
| ScannerProperties.CommentedMember | jsonc.go:44-92 | An object holding a block comment followed by one member loses the comment and nothing else, for comment text without `/` that does not end in an odd run of stars |
| ScannerProperties.TrailingStars | jsonc.go:80-83 | Counts the stars that end a text: all of its last n runes are `*`, and the rune before them is not |
| ScannerExamples.ExampleDocument | example_test.go:26-36 | `{/* comment */"foo": "bar"}` scans to `{"foo": "bar"}` |
| ScannerExamples.StarStarSlashDoesNotClose | jsonc.go:80-84 | In `/*x**/` the second `*` uses up the pending flag without renewing it, so the block comment stays open and the final `/` opens a line comment too |
| ScannerExamples.SlashInBlockOpensLine | jsonc.go:62-67 | A `/` inside a block comment that does not follow a `*` opens a line comment. That line comment outlives the block comment and swallows the rest of the line |
| ScannerExamples.BlockOpenedInLineComment | jsonc.go:69-81 | `/*` inside a line comment opens a block comment, which survives the newline that ends the line comment |
| ScannerExamples.EscapedQuoteClosesString | jsonc.go:52-57 | `\"` closes a string, because there is no escape handling. The `/` after it is then dropped as a comment marker |
| Utf8.EncodeRune | jsonc.go:46 | A rune's encoding has 1 to 4 bytes. It has one byte exactly for ASCII, and that byte is the rune's value. Every byte of a longer encoding is 0x80 or above |
| Utf8.Encode | jsonc.go:46 | Re-encoding runes takes at least one byte per rune |
| Utf8.Decode | jsonc.go:38 | Decoding a whole buffer gives at most one rune per byte, and no runes only for the empty buffer. A buffer that decodes holds none of the octets C0, C1 and F5 to FF, which never appear in UTF-8 (section 1 of RFC 3629) |
| Utf8.Valid | jsonc.go:38 | `utf8.Valid` holds exactly when `Decode` succeeds, that is on sequences of the well-formed forms of section 4 of RFC 3629. A valid non-empty buffer starts with a well-formed sequence, and a valid buffer holds none of the octets C0, C1 and F5 to FF |
| Utf8.DecodeFirst | jsonc.go:38 | Decoding the front of a buffer takes 1 to 4 bytes, all within the buffer |
| Utf8.DecodeFirstIsEncoding | jsonc.go:38 | The bytes a decoded rune came from are exactly that rune's encoding |
| Utf8.EncodingDecodesFirst | jsonc.go:46 | A rune's encoding decodes back to the rune, whatever follows it |
| Utf8.DecodeFirstPrefix | jsonc.go:38 | Decoding a rune does not look past its own bytes |
| Utf8.DecodeThenEncode | jsonc.go:46 | Valid UTF-8 is the encoding of its decoded runes |
| Utf8.EncodeThenDecode | jsonc.go:46 | Every rune sequence encodes to valid UTF-8 that decodes back to it |
| Utf8.AsciiOccurrence | jsonc.go:111 | An ASCII byte occurs in an encoding exactly when its rune occurs in the runes |
| Utf8.ContinuationAfterValid | jsonc.go:38 | A continuation byte after valid UTF-8 makes the buffer invalid, whatever follows it |
| Utf8.EncodeAppend | jsonc.go:46 | Encoding a concatenation concatenates the encodings |
| Jsonc.Error.Message | jsonc.go:25 | The text of `ErrInvalidUTF8` is the package name `jsonc: ` followed by `invalid UTF-8` |
| Jsonc.SanitizeResult | jsonc.go:37-42 | `Sanitize` fails exactly on invalid UTF-8, and then only with `ErrInvalidUTF8`. Otherwise its output is valid UTF-8, no longer than the input, and its runes are the input's runes with some deleted |
| Jsonc.SelectedEncodingShorter | jsonc.go:46 | Deleting runes never lengthens the encoding |
| Jsonc.UnmarshalOutcome | jsonc.go:110-119 | Without a `'/'` byte the data reaches the decoder unchanged and unchecked. With one, invalid UTF-8 yields `ErrInvalidUTF8` without reaching the decoder, and otherwise the decoder receives valid UTF-8 no longer than the data |
| Jsonc.NoMarkerBytesUnchanged | jsonc.go:98-105 | Valid data without `/` and `*` bytes comes back from `Sanitize` unchanged, so `Unmarshal`'s shortcut hands the decoder what sanitizing would have |
| Jsonc.ContinuationByteRejected | jsonc.go:112-116 | A stray continuation byte after a valid prefix makes `Sanitize` fail, and makes `Unmarshal` fail when the data holds a `'/'` |
| Jsonc.UnmarshalText | jsonc.go:110-119 | On the encoding of any text, the decoder receives the encoded scanner output if the text holds a `'/'`, and the text itself otherwise |
| Jsonc.StrayByteAfterText | jsonc.go:112-116 | A continuation byte after any encoded text makes `Sanitize` fail with `ErrInvalidUTF8`, and makes `Unmarshal` fail with it when the text holds a `'/'` |
| Jsonc.SanitizeRunes | jsonc.go:44-92 | The loop over the runes with the Go `state` byte and masks writes exactly the runes of the scan specification, and keeps `state` equal to the byte of the specification's state |
| Jsonc.Sanitize | jsonc.go:37-42 | The method returns what `SanitizeResult` specifies |
| Jsonc.Unmarshal | jsonc.go:110-119 | The method, which reassigns its input as Go reassigns `data`, does what `UnmarshalOutcome` specifies |
| JsoncExamples.ExampleUnmarshal | example_test.go:23-37 | For `{/* comment */"foo": "bar"}`, the decoder receives `{"foo": "bar"}` |
| JsoncExamples.ExampleUnmarshalSanitizeError | example_test.go:39-50 | The commented document followed by byte 0xA5 makes `Unmarshal` fail with `ErrInvalidUTF8`, whose text is `jsonc: invalid UTF-8` |
| JsoncExamples.SanitizeRejectsStrayByte | jsonc_test.go:68-74 | `{"foo": "` followed by 0xA5 and `"}` makes `Sanitize` fail with `ErrInvalidUTF8` |

## Left out

- `encoding/json` decoding (jsonc.go:118) is not modelled. `Unmarshal` is modelled only as which bytes reach the decoder, or which error comes back. The decoder's own errors are passed through unchanged and are not modelled.
- `utf8.Valid` and the rune decoding and re-encoding inside `bytes.Map` are foreign library code. They are replaced by the RFC 3629 reference in module `Utf8`. Because the scan runs only on valid UTF-8, `bytes.Map`'s handling of invalid sequences never arises and is not modelled.
- Error identity through `errors.Is` is reduced to a single `Error` constructor and its message.
- Go's distinction between a nil and an empty slice is not modelled: `Sanitize`'s `nil` result on error is represented by `Err` alone.
- The Go test functions, benchmarks and the build-tag decoder swap are not modelled; they only supply expected values. The embedded `testdata/test.json` is not part of this model, so its string values quoted at jsonc_test.go:60-62 are covered by `StringLiteral`, which holds for any string content without `"`.
- ScannerProperties.LineComment: stated only for comment text that has no `/` directly followed by `*`. Text with such a pair opens a block comment, which `BlockOpenedInLineComment` shows on a concrete input.
- ScannerProperties.BlockComment: stated only for comment text without `/`. A `/` inside a block comment that does not follow a `*` opens a line comment, which `SlashInBlockOpensLine` shows on a concrete input.
- ScannerProperties.CommentedMember: stated only for comment text without `/` that does not end in an odd run of stars, and for a key and value without `"`. With an odd run, `BlockComment` shows the block stays open and the member would be dropped.
