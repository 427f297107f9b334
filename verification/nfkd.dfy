/** Unicode compatibility decomposition (NFKD, Unicode Standard Annex #15), restricted
    to the decompositions of the Latin-1 Supplement block U+00A0..U+00FF. The repair
    decodes UTF-8 before it decomposes, so it can meet any character; characters
    outside the block are kept as they are here, which is right for ASCII and for
    characters without a decomposition, but drops the ASCII part of every other
    decomposition above U+00FF (Š is S + U+030C, the ellipsis U+2026 is "...", the
    ligature U+FB01 is "fi"; see README).

    NFKD also puts runs of combining marks into canonical order. Every ASCII
    character has combining class 0, so that reordering never moves an ASCII
    character; the repair keeps only ASCII, hence the reordering is left out. */
module Nfkd {
  import opened Ascii

  /** Full compatibility decomposition of one character. */
  function Decompose(c: char): (d: string)
    ensures |d| >= 1
    ensures IsAscii(c) ==> d == [c]
    ensures c as int > 0xFF ==> d == [c]
  {
    match c
    case '\U{A0}' => " "
    case '\U{A8}' => " \U{308}"
    case '\U{AA}' => "a"
    case '\U{AF}' => " \U{304}"
    case '\U{B2}' => "2"
    case '\U{B3}' => "3"
    case '\U{B4}' => " \U{301}"
    case '\U{B5}' => "\U{3BC}"
    case '\U{B8}' => " \U{327}"
    case '\U{B9}' => "1"
    case '\U{BA}' => "o"
    case '\U{BC}' => "1\U{2044}4"
    case '\U{BD}' => "1\U{2044}2"
    case '\U{BE}' => "3\U{2044}4"
    case '\U{C0}' => "A\U{300}"
    case '\U{C1}' => "A\U{301}"
    case '\U{C2}' => "A\U{302}"
    case '\U{C3}' => "A\U{303}"
    case '\U{C4}' => "A\U{308}"
    case '\U{C5}' => "A\U{30A}"
    case '\U{C7}' => "C\U{327}"
    case '\U{C8}' => "E\U{300}"
    case '\U{C9}' => "E\U{301}"
    case '\U{CA}' => "E\U{302}"
    case '\U{CB}' => "E\U{308}"
    case '\U{CC}' => "I\U{300}"
    case '\U{CD}' => "I\U{301}"
    case '\U{CE}' => "I\U{302}"
    case '\U{CF}' => "I\U{308}"
    case '\U{D1}' => "N\U{303}"
    case '\U{D2}' => "O\U{300}"
    case '\U{D3}' => "O\U{301}"
    case '\U{D4}' => "O\U{302}"
    case '\U{D5}' => "O\U{303}"
    case '\U{D6}' => "O\U{308}"
    case '\U{D9}' => "U\U{300}"
    case '\U{DA}' => "U\U{301}"
    case '\U{DB}' => "U\U{302}"
    case '\U{DC}' => "U\U{308}"
    case '\U{DD}' => "Y\U{301}"
    case '\U{E0}' => "a\U{300}"
    case '\U{E1}' => "a\U{301}"
    case '\U{E2}' => "a\U{302}"
    case '\U{E3}' => "a\U{303}"
    case '\U{E4}' => "a\U{308}"
    case '\U{E5}' => "a\U{30A}"
    case '\U{E7}' => "c\U{327}"
    case '\U{E8}' => "e\U{300}"
    case '\U{E9}' => "e\U{301}"
    case '\U{EA}' => "e\U{302}"
    case '\U{EB}' => "e\U{308}"
    case '\U{EC}' => "i\U{300}"
    case '\U{ED}' => "i\U{301}"
    case '\U{EE}' => "i\U{302}"
    case '\U{EF}' => "i\U{308}"
    case '\U{F1}' => "n\U{303}"
    case '\U{F2}' => "o\U{300}"
    case '\U{F3}' => "o\U{301}"
    case '\U{F4}' => "o\U{302}"
    case '\U{F5}' => "o\U{303}"
    case '\U{F6}' => "o\U{308}"
    case '\U{F9}' => "u\U{300}"
    case '\U{FA}' => "u\U{301}"
    case '\U{FB}' => "u\U{302}"
    case '\U{FC}' => "u\U{308}"
    case '\U{FD}' => "y\U{301}"
    case '\U{FF}' => "y\U{308}"
    case _ => [c]
  }

  /** unicodedata.normalize('NFKD', s), up to the order of combining marks. */
  function Normalize(s: string): (r: string)
    ensures |r| >= |s|
    ensures IsAsciiString(s) ==> r == s
  {
    if s == [] then []
    else
      var r := Decompose(s[0]) + Normalize(s[1..]);
      assert IsAsciiString(s) ==> IsAsciiString(s[1..]) && r == [s[0]] + s[1..];
      r
  }

  /** NFKD of a concatenation is the concatenation of the NFKDs (up to the order of
      combining marks, which this model does not track). */
  lemma {:induction false} NormalizeConcat(a: string, b: string)
    ensures Normalize(a + b) == Normalize(a) + Normalize(b)
  {
    if a == [] {
      assert a + b == b;
    } else {
      assert (a + b)[0] == a[0] && (a + b)[1..] == a[1..] + b;
      NormalizeConcat(a[1..], b);
      Regroup(Decompose(a[0]), Normalize(a[1..]), Normalize(b));
    }
  }

  /** Regrouping a concatenation of three strings. */
  lemma Regroup(x: string, y: string, z: string)
    ensures x + (y + z) == (x + y) + z
  {
  }

  /** A base letter with an accent decomposes to the letter and a combining mark:
      here, o with acute accent. */
  lemma AcuteODecomposes()
    ensures Normalize("\U{F3}") == "o\U{301}"
  {
    assert Decompose('\U{F3}') == "o\U{301}";
    assert Normalize("\U{F3}") == Decompose('\U{F3}') + Normalize([]);
  }
}
