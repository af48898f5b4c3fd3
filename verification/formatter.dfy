/** The entry point `to_sig`: classify the rounded value, then dispatch to
    the scientific or the decimal renderer.

    The floating-point producers the renderers start from are parameters,
    bundled in `FloatOps`; every renderer is handed the rounded value, never
    the raw input.
 */
module Formatter {
  import opened Superscript
  import opened SignificantDigits
  import opened Magnitude
  import opened Renderers

  /** The floating-point steps of the repository, as given functions of the
      value and the precision:
      - `roundSig`: exponential formatting, mantissa rounding to
        `precision - 1` places and re-parsing (`is_01_to_99`, lines 139-143);
      - `sciParts`: the re-rounded mantissa text and the exponent text
        (`to_sig_in`, lines 65-73);
      - `general`: the `'{:.Ng}'` text (`sig_float`, line 119). */
  datatype FloatOps = FloatOps(
    roundSig: (real, nat) -> real,
    sciParts: (real, nat) -> SciParts,
    general: (real, nat) -> string)

  /** Whether `to_sig` picks the scientific renderer. */
  predicate ChoosesScientific(indexFormat: bool, decimalPoint: bool, inRange: bool) {
    indexFormat || (!decimalPoint && !inRange)
  }

  /** The chosen renderer's input is one it accepts: an exponent text of at
      least two characters, or a decimal text with a significant digit. */
  predicate Renderable(ops: FloatOps, rounded: real, precision: nat, scientific: bool) {
    if scientific then |ops.sciParts(rounded, precision).exponent| >= 2
    else HasSignificantDigit(ops.general(rounded, precision))
  }

  function ScientificText(parts: SciParts, precision: nat): string
    requires |parts.exponent| >= 2
  {
    PaddedMantissa(parts.mantissa, precision) + Index10(parts.exponent)
  }

  /** `to_sig`: forced scientific wins over forced decimal, which wins over
      the automatic choice by magnitude of the rounded value. */
  method ToSig(num: real, precision: nat, indexFormat: bool, decimalPoint: bool, ops: FloatOps)
    returns (text: string)
    requires Renderable(ops, ops.roundSig(num, precision), precision,
                        ChoosesScientific(indexFormat, decimalPoint,
                                          InDecimalRange(ops.roundSig(num, precision))))
    ensures var rounded := ops.roundSig(num, precision);
      indexFormat ==> text == ScientificText(ops.sciParts(rounded, precision), precision)
    ensures var rounded := ops.roundSig(num, precision);
      !indexFormat && decimalPoint ==>
        text == PaddedSignificant(ops.general(rounded, precision), precision)
    ensures var rounded := ops.roundSig(num, precision);
      !indexFormat && !decimalPoint && InDecimalRange(rounded) ==>
        text == PaddedSignificant(ops.general(rounded, precision), precision)
    ensures var rounded := ops.roundSig(num, precision);
      !indexFormat && !decimalPoint && !InDecimalRange(rounded) ==>
        text == ScientificText(ops.sciParts(rounded, precision), precision)
  {
    var numType, roundedNum := IsOneTenthToHundred(num, precision, ops.roundSig);
    if indexFormat {
      text := ToSigIn(ops.sciParts(roundedNum, precision), precision);
      return;
    }
    if decimalPoint {
      text := SigFloat(ops.general(roundedNum, precision), precision);
      return;
    }
    if numType {
      text := SigFloat(ops.general(roundedNum, precision), precision);
    } else {
      text := ToSigIn(ops.sciParts(roundedNum, precision), precision);
    }
  }

  /** What the two styles look like: a scientific text carries the
      multiplication sign right after the padded mantissa, followed only by
      superscript glyphs; a decimal text built from a text without that sign
      never contains it. */
  lemma StylesAreDistinguishable(parts: SciParts, decimal: string, precision: nat)
    requires |parts.exponent| >= 2
    requires HasSignificantDigit(decimal)
    ensures var m := PaddedMantissa(parts.mantissa, precision);
      var t := ScientificText(parts, precision);
      t[|m|..|m| + 3] == "\U{2A2F}10" && AllSuperGlyphs(t[|m| + 3..])
    ensures '\U{2A2F}' !in decimal ==> '\U{2A2F}' !in PaddedSignificant(decimal, precision)
  {
    var m := PaddedMantissa(parts.mantissa, precision);
    var e := Index10(parts.exponent);
    assert ScientificText(parts, precision)[|m|..] == e;
    assert e[..3] == "\U{2A2F}10" && AllSuperGlyphs(e[3..]);
    assert e[3..] == ScientificText(parts, precision)[|m| + 3..];
    if '\U{2A2F}' !in decimal {
      var r := PaddedSignificant(decimal, precision);
      PaddedSignificantShape(decimal, precision);
      forall i | 0 <= i < |r|
        ensures r[i] != '\U{2A2F}'
      {
        if i < |decimal| {
          assert r[i] == r[..|decimal|][i];
        }
      }
    }
  }
}
