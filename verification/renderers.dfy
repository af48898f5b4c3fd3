/** The two renderers: scientific (`to_sig_in`) and plain decimal
    (`sig_float`).

    Both start from a string that floating-point formatting produced and
    only append to it. `to_sig_in` pads the rounded mantissa with '0's until
    it holds `precision + 1` characters other than '-' and then attaches the
    superscript exponent; `sig_float` appends '0' (or '.0' when there is no
    decimal point yet) until the string carries `precision` significant
    digits.
 */
module Renderers {
  import opened Superscript
  import opened SignificantDigits

  /** The two halves of `'{:e}'.format(num)` after `to_sig_in` has re-rounded
      the mantissa: `str(round(float(mantissa), precision - 1))` and the
      exponent text after the 'e', such as "+08". */
  datatype SciParts = SciParts(mantissa: string, exponent: string)

  function Max(a: int, b: int): int {
    if a < b then b else a
  }

  function Zeros(n: nat): (z: string)
    ensures |z| == n
    ensures forall i :: 0 <= i < n ==> z[i] == '0'
  {
    seq(n, _ => '0')
  }

  lemma ZerosSucc(n: nat)
    ensures Zeros(n) + "0" == Zeros(n + 1)
  {
    assert forall i :: 0 <= i < n + 1 ==> (Zeros(n) + "0")[i] == '0';
  }

  lemma DigitsOfZeros(n: nat)
    ensures Digits(Zeros(n)) == Zeros(n)
    ensures Digits("." + Zeros(n)) == Zeros(n)
  {
    RemoveCharAbsent(Zeros(n), '-');
    RemoveCharAbsent(Zeros(n), '.');
    assert "." + Zeros(n) == ['.'] + Zeros(n);
    DigitsCons('.', Zeros(n));
  }

  /** Number of characters of the mantissa other than '-'. */
  function MantissaWidth(m: string): nat {
    |RemoveChar(m, '-')|
  }

  lemma MantissaWidthAppend(m: string, t: string)
    requires '-' !in t
    ensures MantissaWidth(m + t) == MantissaWidth(m) + |t|
  {
    RemoveCharAppend(m, t, '-');
    RemoveCharAbsent(t, '-');
  }

  /** The mantissa after the padding loop of `to_sig_in`: '0's appended
      until `precision + 1` characters other than '-' are present. */
  function PaddedMantissa(m: string, precision: nat): string {
    var width := MantissaWidth(m);
    m + Zeros(if width < precision + 1 then precision + 1 - width else 0)
  }

  /** Only '0's are appended, exactly until `precision + 1` characters other
      than '-' are present; a mantissa that is already that wide comes back
      unchanged. */
  lemma PaddedMantissaShape(m: string, precision: nat)
    ensures var r := PaddedMantissa(m, precision);
      && |r| >= |m| && r[..|m|] == m
      && (forall i :: |m| <= i < |r| ==> r[i] == '0')
      && MantissaWidth(r) == Max(MantissaWidth(m), precision + 1)
      && (precision + 1 <= MantissaWidth(m) ==> r == m)
  {
    var width := MantissaWidth(m);
    var missing := if width < precision + 1 then precision + 1 - width else 0;
    MantissaWidthAppend(m, Zeros(missing));
    assert (m + Zeros(missing))[..|m|] == m;
    if missing == 0 {
      assert m + Zeros(0) == m;
    }
  }

  /** `to_sig_in` after its floating-point steps: the padding loop of
      lines 75-76, then the exponent suffix of line 78. */
  method ToSigIn(parts: SciParts, precision: nat) returns (text: string)
    requires |parts.exponent| >= 2
    ensures text == PaddedMantissa(parts.mantissa, precision) + Index10(parts.exponent)
  {
    ghost var width := MantissaWidth(parts.mantissa);
    ghost var missing := if width < precision + 1 then precision + 1 - width else 0;
    var firstPart := parts.mantissa;
    ghost var padding: nat := 0;
    while MantissaWidth(firstPart) < precision + 1
      invariant padding <= missing
      invariant firstPart == parts.mantissa + Zeros(padding)
      invariant MantissaWidth(firstPart) == width + padding
      decreases missing - padding
    {
      MantissaWidthAppend(firstPart, "0");
      ZerosSucc(padding);
      firstPart := firstPart + "0";
      padding := padding + 1;
    }
    assert padding == missing;
    var secondPart := Index10(parts.exponent);
    text := firstPart + secondPart;
  }

  /** A mantissa as `str(round(m, precision - 1))` writes it for
      `1 <= |m| < 10`: an optional '-', one non-zero digit, a point and the
      fraction digits. */
  function RoundedMantissa(negative: bool, lead: char, frac: string): string {
    (if negative then "-" else "") + ([lead] + ("." + frac))
  }

  /** A mantissa [-]d.f with at most `precision - 1` fraction digits is
      padded to exactly `precision - 1` fraction digits, and so carries
      exactly `precision` significant digits. */
  lemma MantissaCarriesPrecision(negative: bool, lead: char, frac: string, precision: nat)
    requires '1' <= lead <= '9'
    requires AllDigits(frac)
    requires |frac| + 1 <= precision
    ensures var m := RoundedMantissa(negative, lead, frac);
      && PaddedMantissa(m, precision) == m + Zeros(precision - 1 - |frac|)
      && HasSignificantDigit(PaddedMantissa(m, precision))
      && CountPrecision(PaddedMantissa(m, precision)) == precision
  {
    var m := RoundedMantissa(negative, lead, frac);
    var k := precision - 1 - |frac|;
    assert PaddedMantissa(m, precision) == m + Zeros(k) by {
      RoundedMantissaShape(negative, lead, frac);
    }
    assert HasSignificantDigit(m + Zeros(k)) && CountPrecision(m + Zeros(k)) == precision by {
      RoundedMantissaShape(negative, lead, frac);
      DigitsOfZeros(k);
      CountPrecisionAppend(m, Zeros(k));
    }
  }

  lemma NoSignOrPoint(frac: string)
    requires AllDigits(frac)
    ensures '-' !in frac && '.' !in frac
    ensures Digits(frac) == frac
  {
    assert forall i :: 0 <= i < |frac| ==> frac[i] != '-' && frac[i] != '.';
    RemoveCharAbsent(frac, '-');
    RemoveCharAbsent(frac, '.');
  }

  /** The unsigned part d.f of a mantissa keeps d and f as its digits. */
  lemma UnsignedMantissaDigits(lead: char, frac: string)
    requires '1' <= lead <= '9'
    requires AllDigits(frac)
    ensures var body := [lead] + ("." + frac);
      && '-' !in body
      && HasSignificantDigit(body)
      && CountPrecision(body) == |frac| + 1
  {
    var body := [lead] + ("." + frac);
    NoSignOrPoint(frac);
    assert "." + frac == ['.'] + frac;
    assert Digits(body) == [lead] + frac by {
      DigitsCons(lead, ['.'] + frac);
      DigitsCons('.', frac);
    }
    CountPrecisionLead(body);
  }

  /** Width and significant-digit count of a mantissa [-]d.f before padding. */
  lemma RoundedMantissaShape(negative: bool, lead: char, frac: string)
    requires '1' <= lead <= '9'
    requires AllDigits(frac)
    ensures var m := RoundedMantissa(negative, lead, frac);
      && MantissaWidth(m) == |frac| + 2
      && HasSignificantDigit(m)
      && CountPrecision(m) == |frac| + 1
  {
    var body := [lead] + ("." + frac);
    UnsignedMantissaDigits(lead, frac);
    assert MantissaWidth(body) == |frac| + 2 by {
      RemoveCharAbsent(body, '-');
    }
    if negative {
      var m := ['-'] + body;
      assert RoundedMantissa(negative, lead, frac) == m;
      assert MantissaWidth(m) == MantissaWidth(body) by {
        RemoveCharAppend(['-'], body, '-');
      }
      CountPrecisionSkip('-', body);
    } else {
      assert RoundedMantissa(negative, lead, frac) == body;
    }
  }

  /** With precision 1 a mantissa `str` writes as "2.0" is already two
      characters wide, so the scientific form keeps two significant digits. */
  lemma PrecisionOneMantissa()
    ensures PaddedMantissa("2.0", 1) == "2.0"
    ensures CountPrecision("2.0") == 2
  {
    RemoveCharAbsent("2.0", '-');
    assert MantissaWidth("2.0") == 3;
    assert "2.0" == ['2'] + ".0";
    assert ".0" == ['.'] + "0";
    assert "0" == ['0'] + "";
    DigitsCons('2', ".0");
    DigitsCons('.', "0");
    DigitsCons('0', "");
    assert Digits("2.0") == "20";
    CountPrecisionLead("2.0");
  }

  /** Closed form of the string the `sig_float` loop holds after `k` passes:
      '0's, after a '.' first when there was no decimal point. */
  function PaddingAfter(s: string, k: nat): string {
    if k == 0 then s
    else if IsPeriod(s) then s + Zeros(k)
    else s + "." + Zeros(k)
  }

  lemma PaddingAfterFacts(s: string, k: nat)
    requires HasSignificantDigit(s)
    ensures var r := PaddingAfter(s, k);
      && |r| >= |s| && r[..|s|] == s
      && HasSignificantDigit(r)
      && CountPrecision(r) == CountPrecision(s) + k
      && (IsPeriod(s) ==> forall i :: |s| <= i < |r| ==> r[i] == '0')
      && (!IsPeriod(s) && k > 0 ==> r[|s|] == '.' && forall i :: |s| < i < |r| ==> r[i] == '0')
      && (IsPeriod(r) <==> IsPeriod(s) || k > 0)
      && (r == s <==> k == 0)
  {
    if k > 0 {
      var tail := if IsPeriod(s) then Zeros(k) else "." + Zeros(k);
      assert PaddingAfter(s, k) == s + tail;
      DigitsOfZeros(k);
      CountPrecisionAppend(s, tail);
      IsPeriodAppend(s, tail);
      if !IsPeriod(s) {
        assert tail[0] == '.';
      }
      assert (s + tail)[..|s|] == s;
      assert |s + tail| > |s|;
    } else {
      assert s[..|s|] == s;
    }
  }

  /** The string after the padding loop of `sig_float`: the passes needed
      to reach `precision` significant digits, none when it already has. */
  function PaddedSignificant(s: string, precision: nat): string
    requires HasSignificantDigit(s)
  {
    var c := CountPrecision(s);
    PadIter(s, if precision <= c then 0 else precision - c)
  }

  /** The padded string is unchanged when it already carries `precision`
      significant digits, otherwise extended by '0's (after a '.' first when
      there was no decimal point) until it carries exactly `precision`. */
  lemma PaddedSignificantShape(s: string, precision: nat)
    requires HasSignificantDigit(s)
    ensures var r := PaddedSignificant(s, precision);
      && |r| >= |s| && r[..|s|] == s
      && HasSignificantDigit(r)
      && CountPrecision(r) == Max(CountPrecision(s), precision)
      && (precision <= CountPrecision(s) ==> r == s)
      && (IsPeriod(s) ==> forall i :: |s| <= i < |r| ==> r[i] == '0')
      && (!IsPeriod(s) && r != s ==> r[|s|] == '.' && forall i :: |s| < i < |r| ==> r[i] == '0')
      && (IsPeriod(r) <==> IsPeriod(s) || r != s)
  {
    var c := CountPrecision(s);
    var k := if precision <= c then 0 else precision - c;
    assert PaddedSignificant(s, precision) == PaddingAfter(s, k) by {
      PadIterIsPadding(s, k);
    }
    assert Max(c, precision) == c + k;
    PaddingAfterFacts(s, k);
  }

  lemma PaddingIntroducesPeriod(s: string, k: nat)
    ensures k > 0 ==> IsPeriod(PaddingAfter(s, k))
  {
    if k > 0 {
      if IsPeriod(s) {
        IsPeriodAppend(s, Zeros(k));
      } else {
        assert (s + "." + Zeros(k))[|s|] == '.';
      }
    }
  }

  /** The body of the `sig_float` loop (lines 126-129): '0' after a
      decimal point, '.0' when there is none yet. */
  function PadStep(rounded: string): string {
    if IsPeriod(rounded) then rounded + "0" else rounded + ".0"
  }

  /** Appending '0' or '.0' adds exactly one significant digit. */
  lemma PadStepCount(rounded: string)
    requires HasSignificantDigit(rounded)
    ensures HasSignificantDigit(PadStep(rounded))
    ensures CountPrecision(PadStep(rounded)) == CountPrecision(rounded) + 1
  {
    assert Zeros(1) == "0";
    DigitsOfZeros(1);
    if IsPeriod(rounded) {
      CountPrecisionAppend(rounded, "0");
    } else {
      CountPrecisionAppend(rounded, ".0");
    }
  }

  /** One more pass extends the padding by one step. */
  lemma PadStepExtends(formatted: string, k: nat)
    ensures PadStep(PaddingAfter(formatted, k)) == PaddingAfter(formatted, k + 1)
  {
    var rounded := PaddingAfter(formatted, k);
    PaddingIntroducesPeriod(formatted, k);
    ZerosSucc(k);
    if k == 0 {
      assert Zeros(1) == "0";
      if IsPeriod(formatted) {
        assert PadStep(rounded) == formatted + Zeros(1);
      } else {
        assert PadStep(rounded) == formatted + "." + Zeros(1);
      }
    } else if IsPeriod(formatted) {
      assert PadStep(rounded) == formatted + (Zeros(k) + "0");
    } else {
      assert PadStep(rounded) == formatted + "." + (Zeros(k) + "0");
    }
  }

  /** The string after `k` passes of the loop body, as the loop builds it. */
  function PadIter(s: string, k: nat): string {
    if k == 0 then s else PadStep(PadIter(s, k - 1))
  }

  /** Every pass adds one significant digit. */
  lemma {:induction false} PadIterCount(s: string, k: nat)
    requires HasSignificantDigit(s)
    ensures HasSignificantDigit(PadIter(s, k))
    ensures CountPrecision(PadIter(s, k)) == CountPrecision(s) + k
  {
    if k > 0 {
      var prev := PadIter(s, k - 1);
      assert PadIter(s, k) == PadStep(prev);
      PadIterCount(s, k - 1);
      PadStepCount(prev);
    }
  }

  /** The loop's string after `k` passes is the closed form. */
  lemma {:induction false} PadIterIsPadding(s: string, k: nat)
    ensures PadIter(s, k) == PaddingAfter(s, k)
  {
    if k > 0 {
      var prev := PadIter(s, k - 1);
      assert PadIter(s, k) == PadStep(prev);
      PadIterIsPadding(s, k - 1);
      PadStepExtends(s, k - 1);
    }
  }

  /** `sig_float` after its `'{:.Ng}'` formatting step: the padding loop of
      lines 125-129. Each pass raises the significant-digit count by one,
      whichever of '0' and '.0' it appends. */
  method SigFloat(formatted: string, precision: nat) returns (rounded: string)
    requires HasSignificantDigit(formatted)
    ensures rounded == PaddedSignificant(formatted, precision)
  {
    ghost var start := CountPrecision(formatted);
    ghost var target := if precision <= start then 0 else precision - start;
    rounded := formatted;
    ghost var passes: nat := 0;
    PadIterCount(formatted, 0);
    while CountPrecision(rounded) < precision
      invariant passes <= target
      invariant rounded == PadIter(formatted, passes)
      invariant HasSignificantDigit(rounded) && CountPrecision(rounded) == start + passes
      decreases target - passes
    {
      rounded := PadStep(rounded);
      passes := passes + 1;
      PadIterCount(formatted, passes);
    }
  }
}
