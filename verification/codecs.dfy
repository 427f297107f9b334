/** The two byte codecs the encoding rule chains: ISO-8859-1 (Latin-1) encoding, and
    strict UTF-8 decoding as RFC 3629 (sections 3 and 4) defines well-formed UTF-8.
    The UTF-8 encoder is not called by the ETL code; it is the decoder's partner,
    and it is how mojibake arises in the first place. */
module Codecs {
  import opened Results

  type byte = x: int | 0 <= x < 0x100

  // ---------------------------------------------------------------- ISO-8859-1

  /** Every character of s has a one-byte ISO-8859-1 code. */
  predicate IsLatin1(s: string) { forall i :: 0 <= i < |s| ==> s[i] as int < 0x100 }

  /** str.encode('ISO-8859-1') on the suffix of a string that starts at index `pos`. */
  function Latin1EncodeFrom(s: string, pos: nat): (r: Result<seq<byte>>)
    ensures r.Ok? <==> IsLatin1(s)
    ensures r.Ok? ==> |r.value| == |s| && forall i :: 0 <= i < |s| ==> r.value[i] == s[i] as int
    ensures r.Err? ==> r.error.EncodeError? && pos <= r.error.index < pos + |s|
    ensures r.Err? ==> s[r.error.index - pos] as int >= 0x100
    ensures r.Err? ==> IsLatin1(s[..r.error.index - pos])
  {
    if s == [] then Ok([])
    else if s[0] as int >= 0x100 then Err(EncodeError(pos))
    else match Latin1EncodeFrom(s[1..], pos + 1)
      case Err(e) =>
        assert s[..e.index - pos] == [s[0]] + s[1..][..e.index - pos - 1];
        Err(e)
      case Ok(rest) =>
        assert forall i :: 1 <= i < |s| ==> s[i] == s[1..][i - 1];
        Ok([s[0] as int] + rest)
  }

  /** str.encode('ISO-8859-1'): one byte per character, or an error at the first
      character above U+00FF. */
  function Latin1Encode(s: string): (r: Result<seq<byte>>)
    ensures r.Ok? <==> IsLatin1(s)
    ensures r.Ok? ==> |r.value| == |s| && forall i :: 0 <= i < |s| ==> r.value[i] == s[i] as int
    ensures r.Err? ==> (r.error.EncodeError? && r.error.index < |s| &&
      s[r.error.index] as int >= 0x100 && IsLatin1(s[..r.error.index]))
  {
    Latin1EncodeFrom(s, 0)
  }

  /** bytes.decode('ISO-8859-1'): every byte is the character with that code. */
  function Latin1Decode(b: seq<byte>): (s: string)
    ensures |s| == |b| && IsLatin1(s)
  {
    seq(|b|, i requires 0 <= i < |b| => b[i] as char)
  }

  /** Latin-1 decoding works byte by byte. */
  lemma Latin1DecodeConcat(x: seq<byte>, y: seq<byte>)
    ensures Latin1Decode(x + y) == Latin1Decode(x) + Latin1Decode(y)
  {
  }

  /** Encoding to Latin-1 undoes decoding from it, for every byte string. */
  lemma Latin1RoundTrip(b: seq<byte>)
    ensures Latin1Encode(Latin1Decode(b)) == Ok(b)
  {
    var r := Latin1Encode(Latin1Decode(b));
    assert r.Ok?;
    assert r.value == b;
  }

  /** ... and decoding undoes a successful encoding. */
  lemma Latin1EncodeInverse(s: string, b: seq<byte>)
    requires Latin1Encode(s) == Ok(b)
    ensures Latin1Decode(b) == s
  {
    assert forall i :: 0 <= i < |s| ==> Latin1Decode(b)[i] == s[i];
  }

  // ---------------------------------------------------------------- UTF-8

  predicate IsTail(b: byte) { 0x80 <= b <= 0xBF }

  /** Length of the sequence a lead byte opens, 0 for a byte that cannot open one
      (continuation bytes, C0, C1 and F5..FF). */
  function SequenceLength(lead: byte): nat
  {
    if lead <= 0x7F then 1
    else if 0xC2 <= lead <= 0xDF then 2
    else if 0xE0 <= lead <= 0xEF then 3
    else if 0xF0 <= lead <= 0xF4 then 4
    else 0
  }

  /** The range of the second byte after a multi-byte lead (RFC 3629, section 4):
      narrower after E0 and F0 (no overlongs), ED (no surrogates) and F4 (nothing above U+10FFFF). */
  function SecondLow(lead: byte): byte
  {
    if lead == 0xE0 then 0xA0 else if lead == 0xF0 then 0x90 else 0x80
  }

  function SecondHigh(lead: byte): byte
  {
    if lead == 0xED then 0x9F else if lead == 0xF4 then 0x8F else 0xBF
  }

  /** The character encoded by the well-formed sequence at the head of b and that
      sequence's length, or None when b does not start with a well-formed sequence. */
  function DecodeHead(b: seq<byte>): (r: Option<(char, nat)>)
    requires |b| > 0
    ensures r.Some? ==> 1 <= r.value.1 <= |b| && r.value.1 == SequenceLength(b[0])
  {
    var n := SequenceLength(b[0]);
    if n == 0 || |b| < n then None
    else if n == 1 then Some((b[0] as char, 1))
    else if !(SecondLow(b[0]) <= b[1] <= SecondHigh(b[0])) then None
    else if n == 2 then Some((SequenceValue(b, 2) as char, 2))
    else if !IsTail(b[2]) then None
    else if n == 3 then Some((SequenceValue(b, 3) as char, 3))
    else if !IsTail(b[3]) then None
    else Some((SequenceValue(b, 4) as char, 4))
  }

  /** The code point an n-byte sequence spells: the payload bits of the lead byte
      followed by six bits from each continuation byte. */
  function SequenceValue(b: seq<byte>, n: nat): int
    requires 2 <= n <= 4 && n <= |b|
  {
    var b0, b1 := b[0] as int, b[1] as int - 0x80;
    if n == 2 then (b0 - 0xC0) * 0x40 + b1
    else if n == 3 then (b0 - 0xE0) * 0x1000 + b1 * 0x40 + (b[2] as int - 0x80)
    else (b0 - 0xF0) * 0x40000 + b1 * 0x1000 + (b[2] as int - 0x80) * 0x40 + (b[3] as int - 0x80)
  }

  /** Strict UTF-8 decoding of the suffix of a byte string that starts at offset `pos`. */
  function Utf8DecodeFrom(b: seq<byte>, pos: nat): (r: Result<string>)
    ensures r.Err? ==> r.error.DecodeError? && pos <= r.error.index < pos + |b|
    decreases |b|
  {
    if b == [] then Ok([])
    else match DecodeHead(b)
      case None => Err(DecodeError(pos))
      case Some((c, n)) =>
        match Utf8DecodeFrom(b[n..], pos + n)
        case Err(e) => Err(e)
        case Ok(rest) => Ok([c] + rest)
  }

  /** bytes.decode('utf-8'), strict: the decoded text, or an error at the start of the
      first ill-formed sequence. */
  function Utf8Decode(b: seq<byte>): (r: Result<string>)
    ensures r.Ok? ==> Utf8Encode(r.value) == b
    ensures r.Err? ==> r.error.DecodeError? && r.error.index < |b|
    ensures r.Err? ==> Utf8DecodeFrom(b[..r.error.index], 0).Ok? && DecodeHead(b[r.error.index..]).None?
  {
    var r := Utf8DecodeFrom(b, 0);
    if r.Ok? then
      Utf8DecodeInverse(b, 0, r.value);
      r
    else
      DecodeErrorAtFirstIllFormed(b, 0, r.error.index);
      r
  }

  /** The shortest UTF-8 sequence for one character (RFC 3629, section 3). */
  function EncodeChar(c: char): (r: seq<byte>)
    ensures 1 <= |r| <= 4
  {
    var v := c as int;
    if v < 0x80 then [v]
    else if v < 0x800 then [0xC0 + v / 0x40, 0x80 + v % 0x40]
    else if v < 0x10000 then [0xE0 + v / 0x40 / 0x40, 0x80 + v / 0x40 % 0x40, 0x80 + v % 0x40]
    else [0xF0 + v / 0x40 / 0x40 / 0x40, 0x80 + v / 0x40 / 0x40 % 0x40, 0x80 + v / 0x40 % 0x40, 0x80 + v % 0x40]
  }

  /** str.encode('utf-8') */
  function Utf8Encode(s: string): (r: seq<byte>)
    ensures |r| >= |s|
  {
    if s == [] then [] else EncodeChar(s[0]) + Utf8Encode(s[1..])
  }

  /** UTF-8 encoding works character by character. */
  lemma {:induction false} Utf8EncodeConcat(a: string, b: string)
    ensures Utf8Encode(a + b) == Utf8Encode(a) + Utf8Encode(b)
  {
    if a == [] {
      assert a + b == b;
    } else {
      assert (a + b)[0] == a[0] && (a + b)[1..] == a[1..] + b;
      Utf8EncodeConcat(a[1..], b);
    }
  }

  /** The decoder reads back the one character an encoded sequence stands for. */
  lemma DecodeHeadEncodeChar(c: char, rest: seq<byte>)
    ensures DecodeHead(EncodeChar(c) + rest) == Some((c, |EncodeChar(c)|))
  {
    var v := c as int;
    var b := EncodeChar(c) + rest;
    if v < 0x80 {
    } else if v < 0x800 {
      var q, r := v / 0x40, v % 0x40;
      assert v == q * 0x40 + r;
      assert b[0] == 0xC0 + q && b[1] == 0x80 + r;
    } else if v < 0x10000 {
      var q1, r1 := v / 0x40, v % 0x40;
      var q2, r2 := q1 / 0x40, q1 % 0x40;
      assert v == q2 * 0x1000 + r2 * 0x40 + r1;
      assert b[0] == 0xE0 + q2 && b[1] == 0x80 + r2 && b[2] == 0x80 + r1;
    } else {
      var q1, r1 := v / 0x40, v % 0x40;
      var q2, r2 := q1 / 0x40, q1 % 0x40;
      var q3, r3 := q2 / 0x40, q2 % 0x40;
      assert v == q3 * 0x40000 + r3 * 0x1000 + r2 * 0x40 + r1;
      assert b[0] == 0xF0 + q3 && b[1] == 0x80 + r3 && b[2] == 0x80 + r2 && b[3] == 0x80 + r1;
    }
  }

  /** Splitting off six payload bits. */
  lemma SixBits(q: int, r: int)
    requires 0 <= r < 0x40
    ensures (q * 0x40 + r) / 0x40 == q && (q * 0x40 + r) % 0x40 == r
  {
  }

  /** A well-formed head sequence is exactly the encoding of the character decoded from it:
      UTF-8 as RFC 3629 defines it has one spelling per character. */
  lemma EncodeCharDecodeHead(b: seq<byte>)
    requires |b| > 0 && DecodeHead(b).Some?
    ensures b[..DecodeHead(b).value.1] == EncodeChar(DecodeHead(b).value.0)
  {
    var n := DecodeHead(b).value.1;
    if n == 2 {
      TwoByteSequence(b);
    } else if n == 3 {
      ThreeByteSequence(b);
    } else if n == 4 {
      FourByteSequence(b);
    }
  }

  lemma TwoByteSequence(b: seq<byte>)
    requires |b| > 0 && DecodeHead(b).Some? && DecodeHead(b).value.1 == 2
    ensures b[..2] == EncodeChar(DecodeHead(b).value.0)
  {
    var v := DecodeHead(b).value.0 as int;
    assert v == SequenceValue(b, 2);
    SixBits(b[0] as int - 0xC0, b[1] as int - 0x80);
  }

  lemma ThreeByteSequence(b: seq<byte>)
    requires |b| > 0 && DecodeHead(b).Some? && DecodeHead(b).value.1 == 3
    ensures b[..3] == EncodeChar(DecodeHead(b).value.0)
  {
    var v := DecodeHead(b).value.0 as int;
    assert v == SequenceValue(b, 3);
    var b0, b1, b2 := b[0] as int - 0xE0, b[1] as int - 0x80, b[2] as int - 0x80;
    SixBits(b0 * 0x40 + b1, b2);
    SixBits(b0, b1);
  }

  lemma FourByteSequence(b: seq<byte>)
    requires |b| > 0 && DecodeHead(b).Some? && DecodeHead(b).value.1 == 4
    ensures b[..4] == EncodeChar(DecodeHead(b).value.0)
  {
    var v := DecodeHead(b).value.0 as int;
    assert v == SequenceValue(b, 4);
    var b0, b1, b2, b3 := b[0] as int - 0xF0, b[1] as int - 0x80, b[2] as int - 0x80, b[3] as int - 0x80;
    SixBits((b0 * 0x40 + b1) * 0x40 + b2, b3);
    SixBits(b0 * 0x40 + b1, b2);
    SixBits(b0, b1);
  }

  /** Decoding an encoded character followed by bytes that decode to t gives that
      character followed by t. */
  lemma DecodeCons(c: char, rest: seq<byte>, pos: nat, t: string)
    requires Utf8DecodeFrom(rest, pos + |EncodeChar(c)|) == Ok(t)
    ensures Utf8DecodeFrom(EncodeChar(c) + rest, pos) == Ok([c] + t)
  {
    var b := EncodeChar(c) + rest;
    DecodeHeadEncodeChar(c, rest);
    assert b[|EncodeChar(c)|..] == rest;
  }

  /** ... and an error in the bytes after an encoded character is reported as it is. */
  lemma DecodeConsError(c: char, rest: seq<byte>, pos: nat, e: Error)
    requires Utf8DecodeFrom(rest, pos + |EncodeChar(c)|) == Err(e)
    ensures Utf8DecodeFrom(EncodeChar(c) + rest, pos) == Err(e)
  {
    var b := EncodeChar(c) + rest;
    DecodeHeadEncodeChar(c, rest);
    assert b[|EncodeChar(c)|..] == rest;
  }

  /** Decoding undoes encoding, for every string. */
  lemma {:induction false} Utf8RoundTrip(s: string, pos: nat)
    ensures Utf8DecodeFrom(Utf8Encode(s), pos) == Ok(s)
  {
    if s != [] {
      Utf8RoundTrip(s[1..], pos + |EncodeChar(s[0])|);
      DecodeCons(s[0], Utf8Encode(s[1..]), pos, s[1..]);
      assert [s[0]] + s[1..] == s;
    }
  }

  /** A byte below 0x80 decodes to its own character, and decoding goes on after it. */
  lemma DecodeAsciiByte(b: seq<byte>, pos: nat)
    requires b != [] && b[0] < 0x80
    ensures Utf8DecodeFrom(b, pos) ==
      match Utf8DecodeFrom(b[1..], pos + 1)
      case Err(e) => Err(e)
      case Ok(t) => Ok([b[0] as char] + t)
  {
    assert DecodeHead(b) == Some((b[0] as char, 1));
  }

  /** Bytes below 0x80 decode one by one, so an error after the first m of them is
      reported unchanged, at the same position. */
  lemma {:induction false} AsciiPrefixKeepsDecodeError(b: seq<byte>, pos: nat, m: nat, e: Error)
    requires m <= |b| && forall i :: 0 <= i < m ==> b[i] < 0x80
    requires Utf8DecodeFrom(b[m..], pos + m) == Err(e)
    ensures Utf8DecodeFrom(b, pos) == Err(e)
    decreases m
  {
    if m == 0 {
      assert b[m..] == b;
    } else {
      var rest := b[1..];
      assert rest[m - 1..] == b[m..];
      AsciiPrefixKeepsDecodeError(rest, pos + 1, m - 1, e);
      DecodeAsciiByte(b, pos);
    }
  }

  /** Bytes that encode some text, in front of bytes whose decoding fails, leave that
      error and its position unchanged. */
  lemma {:induction false} EncodedPrefixKeepsDecodeError(s: string, y: seq<byte>, pos: nat, e: Error)
    requires Utf8DecodeFrom(y, pos + |Utf8Encode(s)|) == Err(e)
    ensures Utf8DecodeFrom(Utf8Encode(s) + y, pos) == Err(e)
  {
    if s == [] {
      assert Utf8Encode(s) + y == y;
    } else {
      var rest := Utf8Encode(s[1..]) + y;
      EncodedPrefixKeepsDecodeError(s[1..], y, pos + |EncodeChar(s[0])|, e);
      EncodeFirst(s, y);
      DecodeConsError(s[0], rest, pos, e);
    }
  }

  /** The encoding of s, followed by y, starts with the encoding of s's first character. */
  lemma EncodeFirst(s: string, y: seq<byte>)
    requires s != []
    ensures Utf8Encode(s) + y == EncodeChar(s[0]) + (Utf8Encode(s[1..]) + y)
    ensures |Utf8Encode(s)| == |EncodeChar(s[0])| + |Utf8Encode(s[1..])|
  {
    Associative(EncodeChar(s[0]), Utf8Encode(s[1..]), y);
  }

  lemma Associative(a: seq<byte>, b: seq<byte>, c: seq<byte>)
    ensures (a + b) + c == a + (b + c)
  {
  }

  /** A decoding error is reported at the start of the first ill-formed sequence: the
      bytes before it decode, and no well-formed sequence starts at it. */
  lemma DecodeErrorAtFirstIllFormed(b: seq<byte>, pos: nat, i: nat)
    requires Utf8DecodeFrom(b, pos) == Err(DecodeError(i))
    ensures pos <= i < pos + |b|
    ensures Utf8DecodeFrom(b[..i - pos], pos).Ok? && DecodeHead(b[i - pos..]).None?
  {
    NothingStartsAtError(b, pos, i);
    PrefixBeforeErrorDecodes(b, pos, i);
  }

  /** No well-formed sequence starts where a decoding error is reported. */
  lemma {:induction false} NothingStartsAtError(b: seq<byte>, pos: nat, i: nat)
    requires Utf8DecodeFrom(b, pos) == Err(DecodeError(i))
    ensures pos <= i < pos + |b| && DecodeHead(b[i - pos..]).None?
    decreases |b|
  {
    if DecodeHead(b).None? {
      assert i == pos && b[0..] == b;
    } else {
      var n := DecodeHead(b).value.1;
      DecodeErrorStep(b, pos, i);
      NothingStartsAtError(b[n..], pos + n, i);
      assert b[n..][i - (pos + n)..] == b[i - pos..];
    }
  }

  /** The bytes before a reported decoding error decode. */
  lemma {:induction false} PrefixBeforeErrorDecodes(b: seq<byte>, pos: nat, i: nat)
    requires Utf8DecodeFrom(b, pos) == Err(DecodeError(i))
    ensures pos <= i < pos + |b| && Utf8DecodeFrom(b[..i - pos], pos).Ok?
    decreases |b|
  {
    if DecodeHead(b).None? {
      assert i == pos && b[..0] == [];
    } else {
      var n := DecodeHead(b).value.1;
      DecodeErrorStep(b, pos, i);
      PrefixBeforeErrorDecodes(b[n..], pos + n, i);
      DecodablePrefixGrows(b, pos, i);
    }
  }

  /** A well-formed head sequence followed by bytes that decode is a prefix that decodes:
      the bytes of b from offset pos up to offset i decode once those after the head do. */
  lemma DecodablePrefixGrows(b: seq<byte>, pos: nat, i: nat)
    requires b != [] && DecodeHead(b).Some? && pos + DecodeHead(b).value.1 <= i <= pos + |b|
    requires var n := DecodeHead(b).value.1; Utf8DecodeFrom(b[n..][..i - (pos + n)], pos + n).Ok?
    ensures Utf8DecodeFrom(b[..i - pos], pos).Ok?
  {
    var (c, n) := DecodeHead(b).value;
    var middle := b[n..][..i - (pos + n)];
    EncodeCharDecodeHead(b);
    DecodeCons(c, middle, pos, Utf8DecodeFrom(middle, pos + n).value);
    assert EncodeChar(c) + middle == b[..i - pos];
  }

  /** An error after a well-formed head sequence is the error of the rest. */
  lemma DecodeErrorStep(b: seq<byte>, pos: nat, i: nat)
    requires b != [] && DecodeHead(b).Some? && Utf8DecodeFrom(b, pos) == Err(DecodeError(i))
    ensures var n := DecodeHead(b).value.1;
      Utf8DecodeFrom(b[n..], pos + n) == Err(DecodeError(i))
  {
  }

  /** ... and conversely, when the bytes before offset j decode and no well-formed
      sequence starts at j, decoding fails there. */
  lemma FirstIllFormedIsReported(b: seq<byte>, pos: nat, j: nat)
    requires j < |b| && Utf8DecodeFrom(b[..j], pos).Ok? && DecodeHead(b[j..]).None?
    ensures Utf8DecodeFrom(b, pos) == Err(DecodeError(pos + j))
  {
    var s := Utf8DecodeFrom(b[..j], pos).value;
    Utf8DecodeInverse(b[..j], pos, s);
    assert b == Utf8Encode(s) + b[j..];
    assert Utf8DecodeFrom(b[j..], pos + j) == Err(DecodeError(pos + j));
    EncodedPrefixKeepsDecodeError(s, b[j..], pos, DecodeError(pos + j));
  }

  /** One step of a successful decoding: the head sequence gives the first character
      and the rest decodes to the remaining ones. */
  lemma DecodeStep(b: seq<byte>, pos: nat, s: string)
    requires b != [] && Utf8DecodeFrom(b, pos) == Ok(s)
    ensures DecodeHead(b).Some? && s != []
    ensures s[0] == DecodeHead(b).value.0
    ensures Utf8DecodeFrom(b[DecodeHead(b).value.1..], pos + DecodeHead(b).value.1) == Ok(s[1..])
  {
  }

  /** ... and encoding undoes a successful decoding, for every byte string: the decoder
      accepts exactly the encodings of strings. */
  lemma {:induction false} Utf8DecodeInverse(b: seq<byte>, pos: nat, s: string)
    requires Utf8DecodeFrom(b, pos) == Ok(s)
    ensures Utf8Encode(s) == b
    decreases |b|
  {
    if b == [] {
      assert s == [];
    } else {
      DecodeStep(b, pos, s);
      var n := DecodeHead(b).value.1;
      EncodeCharDecodeHead(b);
      Utf8DecodeInverse(b[n..], pos + n, s[1..]);
      JoinAt(b, n, EncodeChar(s[0]), Utf8Encode(s[1..]));
    }
  }

  /** A sequence is its prefix followed by its suffix. */
  lemma JoinAt(b: seq<byte>, n: nat, x: seq<byte>, y: seq<byte>)
    requires n <= |b| && b[..n] == x && b[n..] == y
    ensures b == x + y
  {
    assert b == b[..n] + b[n..];
  }

  /** The decoder fails exactly on byte strings that are not the encoding of any string. */
  lemma Utf8DecodeFailsIffIllFormed(b: seq<byte>)
    ensures Utf8Decode(b).Err? <==> forall s: string :: Utf8Encode(s) != b
  {
    if Utf8Decode(b).Ok? {
      Utf8DecodeInverse(b, 0, Utf8Decode(b).value);
    } else {
      forall s: string ensures Utf8Encode(s) != b {
        Utf8RoundTrip(s, 0);
      }
    }
  }
}
