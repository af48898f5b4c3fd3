# precision_format — significant-figure formatting, modelled in Dafny

`precision_format/func.py` turns a number into a string with a fixed count
of significant digits. It picks plain decimal form ("0.123") or scientific
form with a Unicode superscript exponent ("1.00⨯10²"). This project models
the string and integer logic of that file and proves properties of it:

- `Superscript`: `to_super` and `index10`. The index-1 zero of the exponent
  text is dropped, digits and '-' are raised to superscript glyphs, and any
  other character (the '+' sign) is dropped.
- `SignificantDigits`: `count_precision` (delete '-' and '.', strip leading
  '0's, take the length) and `is_period`.
- `Magnitude`: the classification part of `is_01_to_99`. This is the loop
  that floor-divides `|rounded| * 100` by 10 and counts passes, followed by
  the decision `count ∈ {2, 3, 4}`.
- `Renderers`: the padding loop and concatenation of `to_sig_in`, and the
  padding loop of `sig_float`. Each loop is a method. Its result is proved
  equal to a closed form, and lemmas state what that padding produces.
- `Formatter`: the dispatch of `to_sig`.

The floating-point steps (`'{:e}'.format`, `float()`, `round()`,
`str(float)`, `'{:.Ng}'.format`) are not modelled. `FloatOps` holds them as
three given functions of the value and the precision:

- `roundSig`: the rounded value of lines 139-143;
- `sciParts`: the mantissa and exponent texts of lines 65-73;
- `general`: the text of line 119.

The renderers start from the strings these functions produce.

Two behaviours of the code are worth stating directly:

- With precision 1, `str(round(m, 0))` writes a mantissa such as "2.0".
  That is already two characters wide, so the padding loop adds nothing and
  the scientific text carries two significant digits
  (`PrecisionOneMantissa`).
- The decimal renderer can write exponent notation. `'{:.Ng}'` does so for
  some values, and `sig_float` is reached with them both in forced decimal
  mode ("1.2e-05") and in automatic mode with precision 1 for values in
  [10, 100): `to_sig(50.0, 1)` counts four passes, is classified as decimal,
  and `'{:.1g}'` writes "5e+01". The padding loop then counts the exponent
  digits as significant, and that text has five, so it is returned
  unchanged. The model treats the `'{:.Ng}'` text as an arbitrary input
  string.

## Model

| member | source | states |
|---|---|---|
| `Superscript.Raise` | precision_format/func.py:26-50 | each of `0-9` and `-` becomes exactly one superscript glyph, which lowers back to that character; every other character becomes nothing |
| `Superscript.Encode` | precision_format/func.py:25-50 | the character loop of `to_super` emits only the eleven superscript glyphs and never more characters than it reads |
| `Superscript.DecodeEncode` | precision_format/func.py:25-50 | lowering the encoded string gives back exactly the digits and '-' of the input, in order: nothing encodable is lost, reordered or invented |
| `Superscript.ToSuper` | precision_format/func.py:18-52 | the result holds only superscript glyphs and is no longer than the input (strictly shorter when index 1 is '0'); it lowers to the encodable characters of the input after the one index-1 zero is removed; needs at least two characters, as `number[1]` does |
| `Superscript.Index10` | precision_format/func.py:56-57 | the suffix begins with the literal "⨯10", and the rest is the `to_super` encoding of the exponent, which holds only superscript glyphs |
| `Superscript.ToSuperPreservesValue` | precision_format/func.py:22-52 | for an exponent text written as a sign and at least two digits, the superscript string lowers to an optional '-' and digits that denote the same integer (dropping '+' and the redundant zero keeps the value) |
| `Superscript.LeadingZeroValue` | precision_format/func.py:22-23 | removing a leading '0' from a digit string does not change its decimal value |
| `Superscript.ToSuperExamples` | precision_format/func.py:18-52 | "+08" gives "⁸", "-08" gives "⁻⁸", "+10" gives "¹⁰" and "-12" gives "⁻¹²" |
| `SignificantDigits.RemoveCharContents` | precision_format/func.py:87-88 | `replace(c, '')` leaves no occurrence of `c`, and every other character occurs in the result exactly when it occurs in the input |
| `SignificantDigits.RemoveCharAppend` | precision_format/func.py:87-88 | deleting a character distributes over concatenation |
| `SignificantDigits.StripLeadingZerosShape` | precision_format/func.py:91-92 | the result is a suffix of the input, everything removed is '0', and the result does not start with '0' |
| `SignificantDigits.CountPrecision` | precision_format/func.py:84-94 | defined exactly when some character other than '-', '.' and '0' is present (otherwise line 91 indexes an empty string); the count is then between 1 and the input length |
| `SignificantDigits.CountPrecisionFromFirstSignificant` | precision_format/func.py:84-94 | the count equals the number of characters other than '-' and '.' from the first significant character to the end |
| `SignificantDigits.CountPrecisionAppend` | precision_format/func.py:84-94 | after a significant digit, each appended character other than '-' and '.' adds exactly one to the count |
| `SignificantDigits.CountPrecisionSkip` | precision_format/func.py:87-92 | a leading '-', '.' or '0' adds nothing to the count |
| `SignificantDigits.CountPrecisionLead` | precision_format/func.py:87-94 | from a significant first character on, every character other than '-' and '.' counts |
| `SignificantDigits.IsPeriod` | precision_format/func.py:97-106 | true exactly when some position of the string holds '.'; false only after the whole string has been scanned |
| `SignificantDigits.IsPeriodAppend` | precision_format/func.py:97-106 | a concatenation contains a '.' exactly when one of its parts does |
| `Magnitude.DropDigit` | precision_format/func.py:152 | one `num // 10` pass on a non-negative value yields a non-negative integral value with a strictly smaller ceiling, so the loop terminates |
| `Magnitude.PassesBelow` | precision_format/func.py:149-152 | the number of passes is at most `k` (k ≥ 1) exactly when the value is below 10^k; this is the decimal digit count of the floor, and 1 for a positive value below 1 |
| `Magnitude.CountDigits` | precision_format/func.py:147-152 | the loop terminates; the count is 0 exactly for 0, and for every k ≥ 1 it is at most k exactly when the value is below 10^k |
| `Magnitude.IsOneTenthToHundred` | precision_format/func.py:135-161 | the rounded value is returned unchanged; the flag (count 2, 3 or 4) is true exactly when 0.1 ≤ \|rounded\| < 100, so it does not depend on the sign and zero is classified false |
| `Magnitude.DecimalRangeBounds` | precision_format/func.py:154-161 | 0.1 and -99.9 are in the decimal range; 100, 0 and 0.09 are not |
| `Renderers.PaddedMantissaShape` | precision_format/func.py:75-76 | the mantissa is a prefix of the result, only '0's are appended, the width without '-' ends at max(width, precision + 1), and a mantissa already that wide is unchanged |
| `Renderers.ToSigIn` | precision_format/func.py:75-81 | the padding loop terminates and yields the padded mantissa followed by the `index10` suffix of the exponent |
| `Renderers.RoundedMantissaShape` | precision_format/func.py:71-73 | a mantissa [-]d.f with d in 1-9 has two more characters other than '-' than f has digits, and one more significant digit, whatever its sign |
| `Renderers.MantissaCarriesPrecision` | precision_format/func.py:71-76 | a mantissa of the form [-]d.f with d in 1-9 and at most precision - 1 fraction digits is padded to exactly precision - 1 fraction digits and exactly `precision` significant digits |
| `Renderers.PrecisionOneMantissa` | precision_format/func.py:72-76 | with precision 1, the mantissa "2.0" is left unchanged and carries two significant digits |
| `Renderers.PaddedSignificantShape` | precision_format/func.py:125-129 | the input is a prefix of the result, the count ends at max(count, precision), a string already at or above the precision is unchanged, a '.' is appended at most once and only when none was present, and every other appended character is '0' |
| `Renderers.PadStepCount` | precision_format/func.py:125-129 | each pass of the loop, whether it appends '0' or '.0', raises the significant-digit count by exactly one |
| `Renderers.PadStepExtends` | precision_format/func.py:126-129 | one more pass turns the closed form after `k` passes into the closed form after `k + 1`: '0' after an existing point, '.0' the first time there is none |
| `Renderers.PadIterCount` | precision_format/func.py:125-129 | after `k` passes the string carries exactly `k` more significant digits than the input |
| `Renderers.PadIterIsPadding` | precision_format/func.py:125-129 | the string after `k` passes is the input followed by `k` '0's, with a '.' in front of them when the input had no decimal point |
| `Renderers.PaddingAfterFacts` | precision_format/func.py:125-129 | the closed form after `k` passes extends the input, carries exactly `k` more significant digits, has a decimal point exactly when the input did or `k > 0`, and differs from the input exactly when `k > 0` |
| `Renderers.PaddingIntroducesPeriod` | precision_format/func.py:126-129 | after at least one pass the string contains a decimal point |
| `Renderers.SigFloat` | precision_format/func.py:125-132 | the padding loop terminates after exactly max(0, precision - count) passes of its body, the number `PaddedSignificant` prescribes, whose shape `PaddedSignificantShape` states |
| `Formatter.ToSig` | precision_format/func.py:164-180 | forced scientific wins over forced decimal, which wins over the automatic choice; automatic mode renders decimal exactly when the rounded value is in [0.1, 100); the chosen renderer is always given the rounded value |
| `Formatter.StylesAreDistinguishable` | precision_format/func.py:78-81 | a scientific text has "⨯10" right after the padded mantissa, followed only by superscript glyphs; a decimal text built from a text without '⨯' never contains '⨯' |

## Left out

- Python's floating-point formatting and parsing: `'{:e}'.format`
  (lines 65, 139), `float()` (71, 143), `round()` (72, 141), `str(float)`
  (73, 141) and `'{:.Ng}'.format` (119). These are IEEE-754 behaviours with
  round-half-even on binary values. `FloatOps` gives them as functions, and
  the renderers' preconditions state the shapes they need.
- The end-to-end examples of the module docstring (lines 1-14), such as
  99.99 → "1.00⨯10²". They depend on float rounding. Only the boundary is
  proved: a rounded value of exactly 100 is classified as scientific.
- Zero input: `count_precision` raises IndexError when only '-', '.' and '0'
  are present. This is the precondition of `CountPrecision`, not an error
  result.
- `to_super` on a string shorter than two characters raises IndexError.
  This is the precondition `|s| >= 2`.
- Negative precision makes `'{:.Ng}'` raise. Precision is a `nat` here.
  Precision 0 is allowed, because the padding loops accept it.
- Infinity and NaN are not modelled; the values are finite reals.
- The default arguments `precision=3` of `to_sig_in`, `sig_float` and
  `to_sig` (lines 61, 110, 164) and `index_format=False`,
  `decimal_point=False` of `to_sig` (line 164): Dafny has no default
  parameters here, so every caller passes all arguments explicitly.
- `IsOneTenthToHundred`: `|rounded| * 100` and `num // 10` are exact real
  operations here, so boundary values the float product rounds across are
  classified by their exact value.
