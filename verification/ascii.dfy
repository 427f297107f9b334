/** ASCII character classes, casing and the `errors='ignore'` ASCII filter.
    Casing is only ever applied here to ASCII text (the encoding rule filters first),
    so ASCII semantics is Python's semantics on that text. */
module Ascii {

  predicate IsAscii(c: char) { c as int < 0x80 }

  predicate IsAsciiString(s: string) { forall i :: 0 <= i < |s| ==> IsAscii(s[i]) }

  predicate IsUpper(c: char) { 'A' <= c <= 'Z' }

  predicate IsLower(c: char) { 'a' <= c <= 'z' }

  function ToLower(c: char): (r: char)
    ensures !IsUpper(r)
    ensures IsAscii(r) <==> IsAscii(c)
    ensures !IsUpper(c) ==> r == c
  {
    if IsUpper(c) then (c as int + 32) as char else c
  }

  function ToUpper(c: char): (r: char)
    ensures !IsLower(r)
    ensures IsAscii(r) <==> IsAscii(c)
    ensures !IsLower(c) ==> r == c
  {
    if IsLower(c) then (c as int - 32) as char else c
  }

  /** str.lower() */
  function Lower(s: string): (r: string)
    ensures |r| == |s|
    ensures forall i :: 0 <= i < |s| ==> r[i] == ToLower(s[i])
    ensures forall i :: 0 <= i < |r| ==> !IsUpper(r[i])
  {
    seq(|s|, i requires 0 <= i < |s| => ToLower(s[i]))
  }

  /** str.capitalize(): the first character upper-case, every other one lower-case. */
  function Capitalize(s: string): (r: string)
    ensures |r| == |s|
    ensures IsCapitalized(r)
    ensures Lower(r) == Lower(s)
  {
    if s == [] then []
    else
      var r := [ToUpper(s[0])] + Lower(s[1..]);
      LowerCons(r);
      LowerCons(s);
      LowerIdempotent(s[1..]);
      r
  }

  /** Lower-casing works character by character. */
  lemma LowerCons(s: string)
    requires s != []
    ensures Lower(s) == [ToLower(s[0])] + Lower(s[1..])
  {
  }

  /** Lower-casing twice is lower-casing once. */
  lemma LowerIdempotent(s: string)
    ensures Lower(Lower(s)) == Lower(s)
  {
  }

  /** What Capitalize produces: no lower-case letter first, no upper-case letter after it. */
  predicate IsCapitalized(s: string)
  {
    (|s| > 0 ==> !IsLower(s[0])) && forall i :: 1 <= i < |s| ==> !IsUpper(s[i])
  }

  /** s.encode('ascii', errors='ignore'): keep the ASCII characters, in order, drop the rest. */
  function AsciiOnly(s: string): (r: string)
    ensures IsAsciiString(r)
    ensures |r| <= |s|
    ensures |r| == |s| ==> IsAsciiString(s)
  {
    if s == [] then []
    else (if IsAscii(s[0]) then [s[0]] else []) + AsciiOnly(s[1..])
  }

  /** Capitalize(Lower(s)) is capitalized, keeps the length and keeps ASCII text ASCII. */
  lemma CapitalizeLowerShape(s: string)
    ensures IsCapitalized(Capitalize(Lower(s)))
    ensures |Capitalize(Lower(s))| == |s|
    ensures IsAsciiString(s) ==> IsAsciiString(Capitalize(Lower(s)))
  {
    var r := Capitalize(Lower(s));
    if s != [] {
      assert r == [ToUpper(ToLower(s[0]))] + Lower(Lower(s)[1..]);
      forall i | 1 <= i < |r| ensures !IsUpper(r[i]) {
        assert r[i] == ToLower(Lower(s)[i]);
      }
    }
  }

  /** Capitalized text is a fixpoint of lower-then-capitalize. */
  lemma CapitalizedFixpoint(s: string)
    requires IsCapitalized(s)
    ensures Capitalize(Lower(s)) == s
  {
    if s != [] {
      var r := Capitalize(Lower(s));
      assert r[0] == ToUpper(ToLower(s[0]));
      forall i | 1 <= i < |s| ensures r[i] == s[i] {
        assert r[i] == ToLower(Lower(s)[i]);
      }
    }
  }

  /** The ASCII filter leaves ASCII text alone. */
  lemma {:induction false} AsciiOnlyOfAscii(s: string)
    requires IsAsciiString(s)
    ensures AsciiOnly(s) == s
  {
    if s != [] {
      AsciiOnlyOfAscii(s[1..]);
      assert [s[0]] + s[1..] == s;
    }
  }

  /** The ASCII filter works character by character: it distributes over concatenation. */
  lemma {:induction false} AsciiOnlyConcat(a: string, b: string)
    ensures AsciiOnly(a + b) == AsciiOnly(a) + AsciiOnly(b)
  {
    if a == [] {
      assert a + b == b;
    } else {
      var head := if IsAscii(a[0]) then [a[0]] else [];
      assert (a + b)[0] == a[0];
      assert (a + b)[1..] == a[1..] + b;
      assert AsciiOnly(a + b) == head + AsciiOnly(a[1..] + b);
      AsciiOnlyConcat(a[1..], b);
      assert AsciiOnly(a) == head + AsciiOnly(a[1..]);
    }
  }
}
