/** A reference definition of UTF-8 (RFC 3629), standing in for the Go
    library's `utf8.Valid` and for the rune decoding and re-encoding that
    `bytes.Map` performs around the scanner.

    Runes are Dafny `char`s, which are Unicode scalar values, so a decoded
    input is simply a `string`. */
module Utf8 {

  /** An octet of the input buffer. */
  type byte = x: int | 0 <= x < 256

  datatype Option<T> = None | Some(value: T)

  /** A rune decoded from the front of a buffer, and how many bytes it took. */
  datatype Decoded = Decoded(rune: char, size: nat)

  /** The continuation bytes 10xxxxxx. */
  predicate IsCont(b: byte) {
    0x80 <= b < 0xC0
  }

  /** The encoding of one scalar value, following the table of section 3 of
      RFC 3629: 1 byte below U+0080, 2 below U+0800, 3 below U+10000, else 4. */
  function EncodeRune(c: char): (bs: seq<byte>)
    ensures 1 <= |bs| <= 4
    ensures |bs| == 1 <==> c as int < 0x80
    ensures |bs| == 1 ==> bs[0] == c as int
    ensures |bs| > 1 ==> forall i :: 0 <= i < |bs| ==> bs[i] >= 0x80
  {
    var n := c as int;
    if n < 0x80 then [n]
    else if n < 0x800 then [0xC0 + n / 0x40, 0x80 + n % 0x40]
    else if n < 0x1_0000 then [0xE0 + n / 0x1000, 0x80 + n / 0x40 % 0x40, 0x80 + n % 0x40]
    else [0xF0 + n / 0x4_0000, 0x80 + n / 0x1000 % 0x40, 0x80 + n / 0x40 % 0x40, 0x80 + n % 0x40]
  }

  /** The encoding of a rune sequence: the concatenated encodings of its runes. */
  function Encode(cs: seq<char>): (bs: seq<byte>)
    ensures |bs| >= |cs|
  {
    if cs == [] then [] else EncodeRune(cs[0]) + Encode(cs[1..])
  }

  /** Decodes the first rune of `data` if `data` starts with one of the
      well-formed byte sequences listed in section 4 of RFC 3629 (no overlong
      forms, no surrogates, nothing above U+10FFFF); None otherwise. */
  function DecodeFirst(data: seq<byte>): (d: Option<Decoded>)
    ensures d.Some? ==> 1 <= d.value.size <= 4 && d.value.size <= |data|
  {
    if |data| == 0 then None
    else
      var b0 := data[0] as int;
      if b0 < 0x80 then
        Some(Decoded(b0 as char, 1))
      else if 0xC2 <= b0 <= 0xDF then
        if |data| >= 2 && IsCont(data[1]) then
          Some(Decoded(((b0 - 0xC0) * 0x40 + (data[1] as int - 0x80)) as char, 2))
        else None
      else if 0xE0 <= b0 <= 0xEF then
        var lo := if b0 == 0xE0 then 0xA0 else 0x80;
        var hi := if b0 == 0xED then 0x9F else 0xBF;
        if |data| >= 3 && lo <= data[1] <= hi && IsCont(data[2]) then
          Some(Decoded(((b0 - 0xE0) * 0x1000 + (data[1] as int - 0x80) * 0x40 + (data[2] as int - 0x80)) as char, 3))
        else None
      else if 0xF0 <= b0 <= 0xF4 then
        var lo := if b0 == 0xF0 then 0x90 else 0x80;
        var hi := if b0 == 0xF4 then 0x8F else 0xBF;
        if |data| >= 4 && lo <= data[1] <= hi && IsCont(data[2]) && IsCont(data[3]) then
          Some(Decoded(((b0 - 0xF0) * 0x4_0000 + (data[1] as int - 0x80) * 0x1000
                        + (data[2] as int - 0x80) * 0x40 + (data[3] as int - 0x80)) as char, 4))
        else None
      else None
  }

  /** Decodes a whole buffer into its runes, or None if it is not UTF-8. */
  function Decode(data: seq<byte>): (r: Option<seq<char>>)
    // Every rune takes at least one byte, and only the empty buffer decodes
    // to no runes.
    ensures r.Some? ==> |r.value| <= |data| && (r.value == [] <==> data == [])
    // The octets C0, C1 and F5 to FF never appear in UTF-8 (section 1 of
    // RFC 3629).
    ensures r.Some? ==> forall i :: 0 <= i < |data| ==> data[i] != 0xC0 && data[i] != 0xC1 && data[i] < 0xF5
    decreases |data|
  {
    if data == [] then Some([])
    else match DecodeFirst(data)
      case None => None
      case Some(d) =>
        match Decode(data[d.size..])
        case None => None
        case Some(rest) =>
          assert forall i :: d.size <= i < |data| ==> data[i] == data[d.size..][i - d.size];
          Some([d.rune] + rest)
  }

  /** `utf8.Valid`: the buffer is entirely well-formed UTF-8. */
  predicate Valid(data: seq<byte>)
    // A valid buffer starts with a well-formed sequence (unless it is
    // empty), and holds none of the octets that never appear in UTF-8.
    ensures Valid(data) && data != [] ==> DecodeFirst(data).Some?
    ensures Valid(data) ==> forall i :: 0 <= i < |data| ==> data[i] != 0xC0 && data[i] != 0xC1 && data[i] < 0xF5
  {
    Decode(data).Some?
  }

  /** Quotient and remainder by a power of 64 are determined by the
      Euclidean equation. */
  lemma DivModUnique(n: int, m: int, q: int, r: int)
    requires m == 0x40 || m == 0x1000 || m == 0x4_0000
    requires 0 <= r < m && n == q * m + r
    ensures n / m == q && n % m == r
  {
    if m == 0x40 {
      assert n == q * 0x40 + r;
    } else if m == 0x1000 {
      assert n == q * 0x1000 + r;
    } else {
      assert n == q * 0x4_0000 + r;
    }
  }

  /** A two-byte sequence of section 4 of RFC 3629 is the encoding of the
      scalar value it carries. */
  lemma EncodesTwo(b0: int, b1: int)
    requires 0xC2 <= b0 <= 0xDF && 0x80 <= b1 < 0xC0
    ensures EncodeRune(((b0 - 0xC0) * 0x40 + (b1 - 0x80)) as char) == [b0, b1]
  {
    DivModUnique((b0 - 0xC0) * 0x40 + (b1 - 0x80), 0x40, b0 - 0xC0, b1 - 0x80);
  }

  /** The same for the three-byte sequences. */
  lemma EncodesThree(b0: int, b1: int, b2: int)
    requires 0xE0 <= b0 <= 0xEF && 0x80 <= b1 < 0xC0 && 0x80 <= b2 < 0xC0
    requires b0 == 0xE0 ==> b1 >= 0xA0
    requires b0 == 0xED ==> b1 <= 0x9F
    ensures EncodeRune(((b0 - 0xE0) * 0x1000 + (b1 - 0x80) * 0x40 + (b2 - 0x80)) as char) == [b0, b1, b2]
  {
    var n := (b0 - 0xE0) * 0x1000 + (b1 - 0x80) * 0x40 + (b2 - 0x80);
    var hi := (b0 - 0xE0) * 0x40 + (b1 - 0x80);
    DivModUnique(n, 0x40, hi, b2 - 0x80);
    DivModUnique(hi, 0x40, b0 - 0xE0, b1 - 0x80);
    DivModUnique(n, 0x1000, b0 - 0xE0, (b1 - 0x80) * 0x40 + (b2 - 0x80));
  }

  /** The same for the four-byte sequences. */
  lemma EncodesFour(b0: int, b1: int, b2: int, b3: int)
    requires 0xF0 <= b0 <= 0xF4 && 0x80 <= b1 < 0xC0 && 0x80 <= b2 < 0xC0 && 0x80 <= b3 < 0xC0
    requires b0 == 0xF0 ==> b1 >= 0x90
    requires b0 == 0xF4 ==> b1 <= 0x8F
    ensures EncodeRune(((b0 - 0xF0) * 0x4_0000 + (b1 - 0x80) * 0x1000 + (b2 - 0x80) * 0x40 + (b3 - 0x80)) as char)
            == [b0, b1, b2, b3]
  {
    var n := (b0 - 0xF0) * 0x4_0000 + (b1 - 0x80) * 0x1000 + (b2 - 0x80) * 0x40 + (b3 - 0x80);
    var hi := (b0 - 0xF0) * 0x1000 + (b1 - 0x80) * 0x40 + (b2 - 0x80);
    var mid := (b0 - 0xF0) * 0x40 + (b1 - 0x80);
    DivModUnique(n, 0x40, hi, b3 - 0x80);
    DivModUnique(hi, 0x40, mid, b2 - 0x80);
    DivModUnique(mid, 0x40, b0 - 0xF0, b1 - 0x80);
    DivModUnique(n, 0x1000, mid, (b2 - 0x80) * 0x40 + (b3 - 0x80));
    DivModUnique(n, 0x4_0000, b0 - 0xF0, (b1 - 0x80) * 0x1000 + (b2 - 0x80) * 0x40 + (b3 - 0x80));
  }

  /** Decoding the front of a buffer reads exactly the encoding of the rune. */
  lemma DecodeFirstIsEncoding(data: seq<byte>)
    requires DecodeFirst(data).Some?
    ensures data[..DecodeFirst(data).value.size] == EncodeRune(DecodeFirst(data).value.rune)
  {
    var size := DecodeFirst(data).value.size;
    if size == 2 {
      EncodesTwo(data[0], data[1]);
      assert data[..2] == [data[0], data[1]];
    } else if size == 3 {
      EncodesThree(data[0], data[1], data[2]);
      assert data[..3] == [data[0], data[1], data[2]];
    } else if size == 4 {
      EncodesFour(data[0], data[1], data[2], data[3]);
      assert data[..4] == [data[0], data[1], data[2], data[3]];
    }
  }

  /** The two-byte encoding of a scalar value decodes back to it. */
  lemma DecodesTwo(n: int, rest: seq<byte>)
    requires 0x80 <= n < 0x800
    ensures DecodeFirst([0xC0 + n / 0x40, 0x80 + n % 0x40] + rest) == Some(Decoded(n as char, 2))
  {
    var b0, b1 := 0xC0 + n / 0x40, 0x80 + n % 0x40;
    assert 0xC2 <= b0 <= 0xDF && 0x80 <= b1 < 0xC0;
    assert (b0 - 0xC0) * 0x40 + (b1 - 0x80) == n;
  }

  /** The three-byte encoding of a scalar value decodes back to it. */
  lemma DecodesThree(n: int, rest: seq<byte>)
    requires 0x800 <= n < 0x1_0000 && !(0xD800 <= n < 0xE000)
    ensures DecodeFirst([0xE0 + n / 0x1000, 0x80 + n / 0x40 % 0x40, 0x80 + n % 0x40] + rest)
            == Some(Decoded(n as char, 3))
  {
    var b0, b1, b2 := 0xE0 + n / 0x1000, 0x80 + n / 0x40 % 0x40, 0x80 + n % 0x40;
    DivModUnique(n, 0x40, n / 0x40, n % 0x40);
    DivModUnique(n / 0x40, 0x40, n / 0x1000, n / 0x40 % 0x40);
    assert 0xE0 <= b0 <= 0xEF && 0x80 <= b1 < 0xC0 && 0x80 <= b2 < 0xC0;
    assert (b0 - 0xE0) * 0x1000 + (b1 - 0x80) * 0x40 + (b2 - 0x80) == n;
  }

  /** A four-byte sequence of section 4 of RFC 3629 decodes to the scalar
      value it carries. */
  lemma DecodesFourBytes(b0: int, b1: int, b2: int, b3: int, rest: seq<byte>)
    requires 0xF0 <= b0 <= 0xF4 && 0x80 <= b1 < 0xC0 && 0x80 <= b2 < 0xC0 && 0x80 <= b3 < 0xC0
    requires b0 == 0xF0 ==> b1 >= 0x90
    requires b0 == 0xF4 ==> b1 <= 0x8F
    ensures var n := (b0 - 0xF0) * 0x4_0000 + (b1 - 0x80) * 0x1000 + (b2 - 0x80) * 0x40 + (b3 - 0x80);
            0x1_0000 <= n < 0x11_0000 && DecodeFirst([b0, b1, b2, b3] + rest) == Some(Decoded(n as char, 4))
  {
  }

  /** The four-byte encoding of a scalar value decodes back to it. */
  lemma DecodesFour(n: int, rest: seq<byte>)
    requires 0x1_0000 <= n < 0x11_0000
    ensures DecodeFirst([0xF0 + n / 0x4_0000, 0x80 + n / 0x1000 % 0x40, 0x80 + n / 0x40 % 0x40, 0x80 + n % 0x40] + rest)
            == Some(Decoded(n as char, 4))
  {
    var q1, r0 := n / 0x40, n % 0x40;
    var q2, r1 := q1 / 0x40, q1 % 0x40;
    var q3, r2 := q2 / 0x40, q2 % 0x40;
    DivModUnique(n, 0x1000, q2, r1 * 0x40 + r0);
    DivModUnique(n, 0x4_0000, q3, r2 * 0x1000 + r1 * 0x40 + r0);
    assert n == q3 * 0x4_0000 + r2 * 0x1000 + r1 * 0x40 + r0;
    DecodesFourBytes(0xF0 + q3, 0x80 + r2, 0x80 + r1, 0x80 + r0, rest);
  }

  /** A rune's encoding is decoded back to that rune, whatever follows it. */
  lemma EncodingDecodesFirst(c: char, rest: seq<byte>)
    ensures DecodeFirst(EncodeRune(c) + rest) == Some(Decoded(c, |EncodeRune(c)|))
  {
    var n := c as int;
    assert n as char == c;
    if n < 0x80 {
      assert (EncodeRune(c) + rest)[0] == n;
    } else if n < 0x800 {
      assert EncodeRune(c) == [0xC0 + n / 0x40, 0x80 + n % 0x40];
      DecodesTwo(n, rest);
    } else if n < 0x1_0000 {
      assert EncodeRune(c) == [0xE0 + n / 0x1000, 0x80 + n / 0x40 % 0x40, 0x80 + n % 0x40];
      DecodesThree(n, rest);
    } else {
      assert EncodeRune(c) == [0xF0 + n / 0x4_0000, 0x80 + n / 0x1000 % 0x40, 0x80 + n / 0x40 % 0x40, 0x80 + n % 0x40];
      DecodesFour(n, rest);
    }
  }

  /** Decoding the front of a buffer does not look past the rune it finds. */
  lemma DecodeFirstPrefix(data: seq<byte>, more: seq<byte>)
    requires DecodeFirst(data).Some?
    ensures DecodeFirst(data + more) == DecodeFirst(data)
  {
  }

  /** A rune's encoding followed by the encoding of more runes is the
      encoding of the longer sequence. */
  lemma EncodeCons(data: seq<byte>, c: char, size: nat, rest: seq<char>)
    requires size <= |data| && data[..size] == EncodeRune(c) && data[size..] == Encode(rest)
    ensures Encode([c] + rest) == data
  {
    assert ([c] + rest)[1..] == rest;
    assert data == data[..size] + data[size..];
  }

  /** Round trip: a buffer that decodes is the encoding of what it decodes to. */
  lemma {:induction false} DecodeThenEncode(data: seq<byte>)
    requires Valid(data)
    ensures Encode(Decode(data).value) == data
    decreases |data|
  {
    if data != [] {
      var d := DecodeFirst(data).value;
      var tail := data[d.size..];
      assert Decode(data).value == [d.rune] + Decode(tail).value;
      DecodeThenEncode(tail);
      DecodeFirstIsEncoding(data);
      EncodeCons(data, d.rune, d.size, Decode(tail).value);
    }
  }

  /** Round trip: every rune sequence encodes to valid UTF-8 that decodes back. */
  lemma {:induction false} EncodeThenDecode(cs: seq<char>)
    ensures Decode(Encode(cs)) == Some(cs)
  {
    if cs != [] {
      EncodingDecodesFirst(cs[0], Encode(cs[1..]));
      var e := EncodeRune(cs[0]) + Encode(cs[1..]);
      assert e[|EncodeRune(cs[0])|..] == Encode(cs[1..]);
      EncodeThenDecode(cs[1..]);
      assert cs == [cs[0]] + cs[1..];
    }
  }

  /** An ASCII byte occurs in an encoding exactly where its rune occurs in
      the runes: multi-byte encodings consist of bytes 0x80 and above. */
  lemma {:induction false} AsciiOccurrence(cs: seq<char>, b: byte)
    requires b < 0x80
    ensures b in Encode(cs) <==> (b as char) in cs
  {
    if cs != [] {
      AsciiOccurrence(cs[1..], b);
      assert cs == [cs[0]] + cs[1..];
    }
  }

  /** A continuation byte placed after valid UTF-8 makes the buffer
      invalid, whatever follows it: it cannot start a rune and there is no
      unfinished rune for it to complete. */
  lemma {:induction false} ContinuationAfterValid(data: seq<byte>, b: byte, rest: seq<byte>)
    requires Valid(data) && IsCont(b)
    ensures !Valid(data + [b] + rest)
    decreases |data|
  {
    if data == [] {
      assert data + [b] + rest == [b] + rest;
    } else {
      var d := DecodeFirst(data).value;
      DecodeFirstPrefix(data, [b] + rest);
      assert data + [b] + rest == data + ([b] + rest);
      assert (data + [b] + rest)[d.size..] == data[d.size..] + [b] + rest;
      ContinuationAfterValid(data[d.size..], b, rest);
    }
  }

  /** Encoding is a homomorphism from rune sequences to byte sequences. */
  lemma {:induction false} EncodeAppend(a: seq<char>, b: seq<char>)
    ensures Encode(a + b) == Encode(a) + Encode(b)
  {
    if a == [] {
      assert a + b == b;
    } else {
      assert (a + b)[1..] == a[1..] + b;
      EncodeAppend(a[1..], b);
    }
  }
}
