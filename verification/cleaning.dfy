/** The two per-cell cleaning rules of etl.py: encoding_transformation (mojibake
    repair) and gender_transformation (ISO/IEC 5218 style labels). */
module Cleaning {
  import opened Results
  import opened Ascii
  import opened Codecs
  import opened Nfkd

  // ---------------------------------------------------------------- encoding_transformation

  /** Repairs text that was UTF-8 but got decoded as Latin-1: re-encode each character
      as its Latin-1 byte, decode those bytes as strict UTF-8, decompose (NFKD), drop
      everything that is not ASCII, lower-case, capitalise. Fails with EncodeError at the
      first character above U+00FF, or with DecodeError where the bytes stop being
      well-formed UTF-8. */
  function RepairEncoding(s: string): (r: Result<string>)
    ensures r.Ok? ==> IsAsciiString(r.value) && IsCapitalized(r.value)
    ensures r.Err? ==> r.error.EncodeError? || r.error.DecodeError?
    ensures (r.Err? && r.error.EncodeError?) <==> !IsLatin1(s)
    ensures r.Err? && r.error.EncodeError? ==>
      r.error.index < |s| && s[r.error.index] as int > 0xFF && IsLatin1(s[..r.error.index])
  {
    match Latin1Encode(s)
    case Err(e) => Err(e)
    case Ok(bytes) =>
      match Utf8Decode(bytes)
      case Err(e) => Err(e)
      case Ok(text) =>
        var ascii := AsciiOnly(Normalize(text));
        CapitalizeLowerShape(ascii);
        Ok(Capitalize(Lower(ascii)))
  }

  /** Mojibake made from any text is repaired to that text's ASCII skeleton,
      lower-cased and capitalised. */
  lemma RepairOfMojibake(t: string)
    ensures RepairEncoding(Latin1Decode(Utf8Encode(t))) == Ok(Capitalize(Lower(AsciiOnly(Normalize(t)))))
  {
    Latin1RoundTrip(Utf8Encode(t));
    Utf8RoundTrip(t, 0);
  }

  /** The repair succeeds exactly on strings that are mojibake of some text. */
  lemma RepairAcceptsExactlyMojibake(s: string)
    ensures RepairEncoding(s).Ok? <==> exists t :: Latin1Decode(Utf8Encode(t)) == s
  {
    if RepairEncoding(s).Ok? {
      var bytes := Latin1Encode(s).value;
      var t := Utf8Decode(bytes).value;
      Latin1EncodeInverse(s, bytes);
      Utf8DecodeInverse(bytes, 0, t);
      assert Latin1Decode(Utf8Encode(t)) == s;
    } else {
      forall t | Latin1Decode(Utf8Encode(t)) == s ensures false {
        RepairOfMojibake(t);
      }
    }
  }

  /** UTF-8 and Latin-1 agree on ASCII: ASCII text is its own mojibake. */
  lemma {:induction false} AsciiIsOwnMojibake(s: string)
    requires IsAsciiString(s)
    ensures Latin1Decode(Utf8Encode(s)) == s
  {
    if s != [] {
      AsciiIsOwnMojibake(s[1..]);
      assert Utf8Encode(s) == [s[0] as int] + Utf8Encode(s[1..]);
      assert Latin1Decode(Utf8Encode(s)) == [s[0]] + Latin1Decode(Utf8Encode(s[1..]));
      assert [s[0]] + s[1..] == s;
    }
  }

  /** On ASCII input the byte round trip and NFKD change nothing: the result is the
      input lower-cased and capitalised. */
  lemma RepairOfAscii(s: string)
    requires IsAsciiString(s)
    ensures RepairEncoding(s) == Ok(Capitalize(Lower(s)))
  {
    AsciiIsOwnMojibake(s);
    RepairOfMojibake(s);
    AsciiOnlyOfAscii(s);
  }

  /** The repair is idempotent on its own output. */
  lemma RepairIdempotent(s: string)
    requires RepairEncoding(s).Ok?
    ensures RepairEncoding(RepairEncoding(s).value) == RepairEncoding(s)
  {
    var r := RepairEncoding(s).value;
    RepairOfAscii(r);
    CapitalizedFixpoint(r);
  }

  /** "ArizÃ³na" is the Latin-1 reading of the UTF-8 bytes of "Arizóna". */
  lemma ArizonaMojibake()
    ensures Latin1Decode(Utf8Encode("Ariz\U{F3}na")) == "Ariz\U{C3}\U{B3}na"
  {
    assert "Ariz\U{F3}na" == "Ariz" + ("\U{F3}" + "na");
    MojibakeBetweenAscii("Ariz", "\U{F3}", "na");
    AcuteOMojibake();
    assert "Ariz" + ("\U{C3}\U{B3}" + "na") == "Ariz\U{C3}\U{B3}na";
  }

  /** The mojibake of text between two ASCII runs only changes the middle. */
  lemma MojibakeBetweenAscii(head: string, middle: string, tail: string)
    requires IsAsciiString(head) && IsAsciiString(tail)
    ensures Latin1Decode(Utf8Encode(head + (middle + tail))) ==
      head + (Latin1Decode(Utf8Encode(middle)) + tail)
  {
    Utf8EncodeConcat(head, middle + tail);
    Utf8EncodeConcat(middle, tail);
    Latin1DecodeConcat(Utf8Encode(head), Utf8Encode(middle) + Utf8Encode(tail));
    Latin1DecodeConcat(Utf8Encode(middle), Utf8Encode(tail));
    AsciiIsOwnMojibake(head);
    AsciiIsOwnMojibake(tail);
  }

  /** ó is C3 B3 in UTF-8, which reads as Ã³ in Latin-1. */
  lemma AcuteOMojibake()
    ensures Latin1Decode(Utf8Encode("\U{F3}")) == "\U{C3}\U{B3}"
  {
    assert EncodeChar('\U{F3}') == [0xC3, 0xB3];
    assert Utf8Encode("\U{F3}") == [0xC3, 0xB3] + Utf8Encode([]);
  }

  /** NFKD splits the o with acute accent of "Arizóna" into o and U+0301. */
  lemma ArizonaDecomposed()
    ensures Normalize("Ariz\U{F3}na") == "Arizo\U{301}na"
  {
    assert "Ariz\U{F3}na" == "Ariz" + ("\U{F3}" + "na");
    NormalizeBetweenAscii("Ariz", "\U{F3}", "na");
    AcuteODecomposes();
    assert "Ariz" + ("o\U{301}" + "na") == "Arizo\U{301}na";
  }

  /** NFKD of text between two ASCII runs only decomposes the middle. */
  lemma NormalizeBetweenAscii(head: string, middle: string, tail: string)
    requires IsAsciiString(head) && IsAsciiString(tail)
    ensures Normalize(head + (middle + tail)) == head + (Normalize(middle) + tail)
  {
    NormalizeConcat(head, middle + tail);
    NormalizeConcat(middle, tail);
  }

  /** The ASCII filter then drops the combining mark. */
  lemma ArizonaFiltered()
    ensures AsciiOnly("Arizo\U{301}na") == "Arizona"
  {
    var head, tail := "Arizo", "\U{301}na";
    assert "Arizo\U{301}na" == head + tail;
    AsciiOnlyConcat(head, tail);
    AsciiOnlyOfAscii(head);
    DropsCombiningAcute();
    assert head + "na" == "Arizona";
  }

  lemma DropsCombiningAcute()
    ensures AsciiOnly("\U{301}na") == "na"
  {
    AsciiOnlyOfAscii("na");
    assert "\U{301}na"[1..] == "na";
  }

  /** The ASCII skeleton of "Arizóna", lower-cased and capitalised, is "Arizona". */
  lemma ArizonaSkeleton()
    ensures Capitalize(Lower(AsciiOnly(Normalize("Ariz\U{F3}na")))) == "Arizona"
  {
    ArizonaDecomposed();
    ArizonaFiltered();
    ArizonaRecased();
  }

  /** "Arizona" is already capitalised, so recasing keeps it. */
  lemma ArizonaRecased()
    ensures Capitalize(Lower("Arizona")) == "Arizona"
  {
    assert IsCapitalized("Arizona");
    CapitalizedFixpoint("Arizona");
  }

  /** The example of the docstring: "ArizÃ³na" is repaired to "Arizona". */
  lemma RepairArizona()
    ensures RepairEncoding("Ariz\U{C3}\U{B3}na") == Ok("Arizona")
  {
    ArizonaMojibake();
    ArizonaSkeleton();
    RepairOfMojibake("Ariz\U{F3}na");
  }

  /** Inputs the repair rejects: a lone lead byte C3, an overlong C0 AF, and a
      character outside Latin-1. */
  lemma RepairRejects()
    ensures RepairEncoding("\U{C3}") == Err(DecodeError(0))
    ensures RepairEncoding("\U{C0}\U{AF}") == Err(DecodeError(0))
    ensures RepairEncoding("x\U{151}") == Err(EncodeError(1))
  {
    assert Latin1Encode("\U{C3}").value == [0xC3];
    assert Latin1Encode("\U{C0}\U{AF}").value == [0xC0, 0xAF];
  }

  /** Text that was decoded correctly in the first place is rejected too: ó is the
      byte F3, a four-byte lead, and the 'n' after it is no continuation byte. */
  lemma RepairRejectsCleanAccent()
    ensures RepairEncoding("Ariz\U{F3}na") == Err(DecodeError(4))
  {
    var b := Latin1Encode("Ariz\U{F3}na").value;
    assert b[4..] == [0xF3, 0x6E, 0x61];
    assert Utf8DecodeFrom([0xF3, 0x6E, 0x61], 4) == Err(DecodeError(4));
    AsciiPrefixKeepsDecodeError(b, 0, 4, DecodeError(4));
  }

  /** The horizontal ellipsis U+2026 is E2 80 A6 in UTF-8, read as "â", U+0080, "¦" in Latin-1. */
  lemma EllipsisMojibake()
    ensures Latin1Decode(Utf8Encode("\U{2026}")) == "\U{E2}\U{80}\U{A6}"
  {
    assert EncodeChar('\U{2026}') == [0xE2, 0x80, 0xA6];
    assert Utf8Encode("\U{2026}") == EncodeChar('\U{2026}') + Utf8Encode([]);
  }

  /** The ellipsis has no decomposition in the table here and is not ASCII, so nothing of it
      survives the skeleton of the repair. */
  lemma EllipsisSkeleton()
    ensures Capitalize(Lower(AsciiOnly(Normalize("\U{2026}")))) == ""
  {
    var e := "\U{2026}";
    assert Normalize(e) == Decompose(e[0]) + Normalize([]);
    assert AsciiOnly(e) == [];
  }

  /** The Latin-1 mojibake of the ellipsis repairs to the empty string. */
  lemma EllipsisRepairsToEmpty()
    ensures RepairEncoding("\U{E2}\U{80}\U{A6}") == Ok("")
  {
    EllipsisMojibake();
    EllipsisSkeleton();
    RepairOfMojibake("\U{2026}");
  }

  // ---------------------------------------------------------------- gender_transformation

  const Male := "Male"
  const Female := "Female"
  const NotKnown := "Not known"

  /** s spells the word `w` in any letter case: at each position s has w's character,
      or w has a lower-case letter there and s the upper-case letter 32 code points below it. */
  predicate MatchesIgnoringCase(s: string, w: string)
  {
    |s| == |w| &&
    forall i :: 0 <= i < |s| ==> s[i] == w[i] || (IsLower(w[i]) && s[i] as int == w[i] as int - 32)
  }

  /** A word with no upper-case letter. */
  predicate IsLowerWord(w: string)
  {
    forall i :: 0 <= i < |w| ==> !IsUpper(w[i])
  }

  /** Maps a free-form gender code to one of three labels: "1" and "male" to Male,
      "2" and "fema" to Female, compared after lower-casing; anything else to NotKnown. */
  function NormalizeGender(s: string): (r: string)
    ensures r == Male || r == Female || r == NotKnown
  {
    var t := Lower(s);
    if t == "1" || t == "male" then Male
    else if t == "2" || t == "fema" then Female
    else NotKnown
  }

  /** Lower-casing yields a lower-case word exactly when the string spells that word in
      some letter case. */
  lemma LowerMatches(s: string, w: string)
    requires IsLowerWord(w)
    ensures Lower(s) == w <==> MatchesIgnoringCase(s, w)
  {
    if MatchesIgnoringCase(s, w) {
      forall i | 0 <= i < |s| ensures Lower(s)[i] == w[i] {
        if s[i] != w[i] {
          assert IsUpper(s[i]);
        }
      }
    }
    if Lower(s) == w {
      forall i | 0 <= i < |s|
        ensures s[i] == w[i] || (IsLower(w[i]) && s[i] as int == w[i] as int - 32)
      {
        assert ToLower(s[i]) == w[i];
      }
    }
  }

  /** Which inputs get which label, stated character by character in any letter case. */
  lemma GenderClassification(s: string)
    ensures NormalizeGender(s) == Male <==> MatchesIgnoringCase(s, "1") || MatchesIgnoringCase(s, "male")
    ensures NormalizeGender(s) == Female <==> MatchesIgnoringCase(s, "2") || MatchesIgnoringCase(s, "fema")
    ensures NormalizeGender(s) == NotKnown <==>
      !(MatchesIgnoringCase(s, "1") || MatchesIgnoringCase(s, "male") ||
        MatchesIgnoringCase(s, "2") || MatchesIgnoringCase(s, "fema"))
  {
    LowerMatches(s, "1");
    LowerMatches(s, "male");
    LowerMatches(s, "2");
    LowerMatches(s, "fema");
  }

  /** Every letter case of the recognised words gets its label. */
  lemma GenderRecognisedExamples()
    ensures NormalizeGender("MALE") == Male && NormalizeGender("Male") == Male
    ensures NormalizeGender("FEMA") == Female && NormalizeGender("Fema") == Female
    ensures NormalizeGender("1") == Male && NormalizeGender("2") == Female
  {
    assert Lower("1") == "1";
    assert Lower("2") == "2";
    assert Lower("MALE") == "male";
    assert Lower("Male") == "male";
    assert Lower("FEMA") == "fema";
    assert Lower("Fema") == "fema";
  }

  /** Values that are not recognised, among them the ISO/IEC 5218 codes 0 and 9 and
      the full word "female". */
  lemma GenderUnrecognisedExamples()
    ensures NormalizeGender("0") == NotKnown && NormalizeGender("9") == NotKnown
    ensures NormalizeGender("") == NotKnown && NormalizeGender("female") == NotKnown
    ensures NormalizeGender("unknown") == NotKnown
  {
    assert Lower("0") == "0";
    assert Lower("9") == "9";
    assert |Lower("female")| == 6;
    assert |Lower("unknown")| == 7;
  }
}
