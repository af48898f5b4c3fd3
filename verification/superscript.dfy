/** Superscript encoding of exponent strings: `to_super` and `index10`.

    An exponent string as produced by exponential formatting ("+08", "-12",
    "+100") is raised character by character into Unicode superscript
    glyphs; a zero at index 1 is dropped first, and characters outside the
    digits and '-' (the '+' sign in practice) are dropped silently.
 */
module Superscript {

  /** The characters `to_super` knows how to raise: ASCII digits and '-'. */
  predicate IsEncodable(c: char) {
    ('0' <= c <= '9') || c == '-'
  }

  predicate IsDigit(c: char) {
    '0' <= c <= '9'
  }

  predicate AllDigits(s: string) {
    forall i :: 0 <= i < |s| ==> IsDigit(s[i])
  }

  /** The eleven glyphs `to_super` can emit: superscript 0-9 and minus. */
  predicate IsSuperGlyph(g: char) {
    || g == '\U{2070}' || g == '\U{00B9}' || g == '\U{00B2}' || g == '\U{00B3}'
    || g == '\U{2074}' || g == '\U{2075}' || g == '\U{2076}' || g == '\U{2077}'
    || g == '\U{2078}' || g == '\U{2079}' || g == '\U{207B}'
  }

  predicate AllSuperGlyphs(r: string) {
    forall i :: 0 <= i < |r| ==> IsSuperGlyph(r[i])
  }

  /** Lowers one superscript glyph back to the ASCII character it stands for. */
  function Lower(g: char): (c: char)
    requires IsSuperGlyph(g)
    ensures IsEncodable(c)
  {
    if g == '\U{2070}' then '0'
    else if g == '\U{00B9}' then '1'
    else if g == '\U{00B2}' then '2'
    else if g == '\U{00B3}' then '3'
    else if g == '\U{2074}' then '4'
    else if g == '\U{2075}' then '5'
    else if g == '\U{2076}' then '6'
    else if g == '\U{2077}' then '7'
    else if g == '\U{2078}' then '8'
    else if g == '\U{2079}' then '9'
    else '-'
  }

  /** The glyph chain of `to_super`: one superscript glyph for a digit or
      '-', nothing for any other character. */
  function Raise(c: char): (g: string)
    ensures |g| <= 1
    ensures |g| == 1 <==> IsEncodable(c)
    ensures |g| == 1 ==> IsSuperGlyph(g[0]) && Lower(g[0]) == c
  {
    if c == '0' then "\U{2070}"
    else if c == '1' then "\U{00B9}"
    else if c == '2' then "\U{00B2}"
    else if c == '3' then "\U{00B3}"
    else if c == '4' then "\U{2074}"
    else if c == '5' then "\U{2075}"
    else if c == '6' then "\U{2076}"
    else if c == '7' then "\U{2077}"
    else if c == '8' then "\U{2078}"
    else if c == '9' then "\U{2079}"
    else if c == '-' then "\U{207B}"
    else ""
  }

  /** The `for c in number` loop of `to_super`: raises every character in order. */
  function Encode(s: string): (r: string)
    ensures |r| <= |s|
    ensures AllSuperGlyphs(r)
  {
    if |s| == 0 then "" else Raise(s[0]) + Encode(s[1..])
  }

  /** Lowers a whole superscript string. */
  function Decode(r: string): (t: string)
    requires AllSuperGlyphs(r)
    ensures |t| == |r|
  {
    if |r| == 0 then "" else [Lower(r[0])] + Decode(r[1..])
  }

  /** The encodable characters of `s`, in order. */
  function Keep(s: string): (t: string)
    ensures |t| <= |s|
    ensures forall i :: 0 <= i < |t| ==> IsEncodable(t[i])
  {
    if |s| == 0 then ""
    else if IsEncodable(s[0]) then [s[0]] + Keep(s[1..])
    else Keep(s[1..])
  }

  /** Lowering what `Encode` raised gives back exactly the encodable
      characters, in order: nothing encodable is lost or reordered. */
  lemma {:induction false} DecodeEncode(s: string)
    ensures Decode(Encode(s)) == Keep(s)
  {
    if |s| > 0 {
      DecodeEncode(s[1..]);
      var g := Raise(s[0]);
      var rest := Encode(s[1..]);
      assert Encode(s) == g + rest;
      if IsEncodable(s[0]) {
        assert (g + rest)[0] == g[0];
        assert (g + rest)[1..] == rest;
      } else {
        assert g + rest == rest;
      }
    }
  }

  /** Drops the character at index 1 when it is '0' (the redundant zero of a
      two-digit exponent such as "+08"). */
  function DropRedundantZero(s: string): string
    requires |s| >= 2
  {
    if s[1] == '0' then s[..1] + s[2..] else s
  }

  /** `to_super`: the index-1 zero is removed, then every digit and '-'
      is raised in order and every other character is dropped. */
  function ToSuper(s: string): (r: string)
    requires |s| >= 2
    ensures AllSuperGlyphs(r)
    ensures |r| <= |s|
    ensures s[1] == '0' ==> |r| < |s|
    ensures Decode(r) == Keep(DropRedundantZero(s))
  {
    DecodeEncode(DropRedundantZero(s));
    Encode(DropRedundantZero(s))
  }

  /** `index10`: the literal multiplication sign and base, then the raised
      exponent. */
  function Index10(e: string): (r: string)
    requires |e| >= 2
    ensures |r| >= 3 && r[..3] == "\U{2A2F}10"
    ensures r[3..] == ToSuper(e)
    ensures AllSuperGlyphs(r[3..])
  {
    "\U{2A2F}10" + ToSuper(e)
  }

  /** Exponent strings as exponential formatting writes them: a sign, then
      at least two digits. */
  predicate WellFormedExponent(e: string) {
    |e| >= 3 && (e[0] == '+' || e[0] == '-') && AllDigits(e[1..])
  }

  function DigitOf(c: char): nat
    requires IsDigit(c)
  {
    (c as int) - ('0' as int)
  }

  /** Decimal value of a digit string, read left to right as `int()` does. */
  function DigitsValue(ds: string): nat
    requires AllDigits(ds)
    decreases |ds|
  {
    if |ds| == 0 then 0
    else DigitsValue(ds[..|ds| - 1]) * 10 + DigitOf(ds[|ds| - 1])
  }

  /** The integer an exponent string denotes. */
  function ExponentValue(e: string): int
    requires WellFormedExponent(e)
  {
    if e[0] == '-' then -(DigitsValue(e[1..]) as int) else DigitsValue(e[1..])
  }

  /** A lowered superscript string: an optional '-' followed by digits. */
  predicate IsSignedNumeral(t: string) {
    if |t| > 0 && t[0] == '-' then AllDigits(t[1..]) else AllDigits(t)
  }

  function SignedValue(t: string): int
    requires IsSignedNumeral(t)
  {
    if |t| > 0 && t[0] == '-' then -(DigitsValue(t[1..]) as int) else DigitsValue(t)
  }

  /** A leading zero does not change the value of a digit string. */
  lemma {:induction false} LeadingZeroValue(ds: string)
    requires AllDigits(ds)
    ensures AllDigits("0" + ds)
    ensures DigitsValue("0" + ds) == DigitsValue(ds)
    decreases |ds|
  {
    var z := "0" + ds;
    assert AllDigits(z) by {
      forall i | 0 <= i < |z| ensures IsDigit(z[i]) {
        if i > 0 { assert z[i] == ds[i - 1]; }
      }
    }
    if |ds| == 0 {
      assert z[..0] == "";
    } else {
      var front := ds[..|ds| - 1];
      assert z[..|z| - 1] == "0" + front;
      assert z[|z| - 1] == ds[|ds| - 1];
      LeadingZeroValue(front);
    }
  }

  lemma {:induction false} KeepDigits(ds: string)
    requires AllDigits(ds)
    ensures Keep(ds) == ds
  {
    if |ds| > 0 {
      KeepDigits(ds[1..]);
      assert [ds[0]] + ds[1..] == ds;
    }
  }

  /** The digits left after the index-1 zero of a well-formed exponent is
      dropped denote the same number as the original digits. */
  lemma DroppedZeroDigits(e: string)
    requires WellFormedExponent(e)
    ensures var kept := if e[1] == '0' then e[2..] else e[1..];
      && AllDigits(kept)
      && DigitsValue(kept) == DigitsValue(e[1..])
      && DropRedundantZero(e) == [e[0]] + kept
  {
    var ds := e[1..];
    if e[1] == '0' {
      var kept := e[2..];
      assert AllDigits(kept) by {
        forall i | 0 <= i < |kept| ensures IsDigit(kept[i]) {
          assert kept[i] == ds[i + 1];
        }
      }
      LeadingZeroValue(kept);
      assert "0" + kept == ds;
      assert e[..1] == [e[0]];
    } else {
      assert e == [e[0]] + ds;
    }
  }

  /** `Keep` drops a '+' sign, keeps a '-' sign and keeps every digit. */
  lemma KeepSigned(c: char, kept: string)
    requires c == '+' || c == '-'
    requires AllDigits(kept)
    ensures Keep([c] + kept) == (if c == '-' then "-" else "") + kept
  {
    KeepDigits(kept);
    assert ([c] + kept)[1..] == kept;
  }

  /** Raising a well-formed exponent keeps its value: the superscript
      string lowers to a signed numeral denoting the same integer, with the
      '+' sign and the redundant zero gone. */
  lemma ToSuperPreservesValue(e: string)
    requires WellFormedExponent(e)
    ensures IsSignedNumeral(Decode(ToSuper(e)))
    ensures SignedValue(Decode(ToSuper(e))) == ExponentValue(e)
  {
    var kept := if e[1] == '0' then e[2..] else e[1..];
    DroppedZeroDigits(e);
    KeepSigned(e[0], kept);
    var t := Decode(ToSuper(e));
    if e[0] == '-' {
      assert t == "-" + kept;
      assert t[1..] == kept;
    } else {
      assert t == kept;
      assert |kept| > 0 ==> kept[0] != '-' by {
        if |kept| > 0 { assert IsDigit(kept[0]); }
      }
    }
  }

  /** Typical exponent texts: the '+' sign and the index-1 zero are
      dropped, '-' is raised, and a zero after a non-zero digit is kept. */
  lemma ToSuperExamples()
    ensures ToSuper("+08") == "\U{2078}"
    ensures ToSuper("-08") == "\U{207B}\U{2078}"
    ensures ToSuper("+10") == "\U{00B9}\U{2070}"
    ensures ToSuper("-12") == "\U{207B}\U{00B9}\U{00B2}"
  {
    assert DropRedundantZero("+08") == "+8";
    assert DropRedundantZero("-08") == "-8";
    assert DropRedundantZero("+10") == "+10";
    assert DropRedundantZero("-12") == "-12";
    assert Encode("+8") == Raise('+') + Encode("8");
    assert Encode("8") == Raise('8') + Encode("");
    assert Encode("-8") == Raise('-') + Encode("8");
    assert Encode("+10") == Raise('+') + Encode("10");
    assert Encode("10") == Raise('1') + Encode("0");
    assert Encode("0") == Raise('0') + Encode("");
    assert Encode("-12") == Raise('-') + Encode("12");
    assert Encode("12") == Raise('1') + Encode("2");
    assert Encode("2") == Raise('2') + Encode("");
  }
}
