/** Significant-digit counting on decimal strings: `count_precision` and
    `is_period`.

    `count_precision` deletes every '-' and every '.', strips the leading
    '0's of what is left and returns its length. The stripping loop reads
    the first character of an empty string when nothing but zeros is left
    (an input denoting zero), so such inputs are excluded by precondition.
 */
module SignificantDigits {

  /** `str.replace(c, '')`: every occurrence of `c` deleted. */
  function RemoveChar(s: string, c: char): (r: string)
    ensures |r| <= |s|
  {
    if |s| == 0 then ""
    else (if s[0] == c then "" else [s[0]]) + RemoveChar(s[1..], c)
  }

  /** Every `c` is gone and every other character that occurs stays. */
  lemma {:induction false} RemoveCharContents(s: string, c: char)
    ensures c !in RemoveChar(s, c)
    ensures forall x :: x != c ==> (x in RemoveChar(s, c) <==> x in s)
  {
    if |s| > 0 {
      RemoveCharContents(s[1..], c);
      assert s == [s[0]] + s[1..];
    }
  }

  lemma {:induction false} RemoveCharAppend(a: string, b: string, c: char)
    ensures RemoveChar(a + b, c) == RemoveChar(a, c) + RemoveChar(b, c)
  {
    if |a| == 0 {
      assert a + b == b;
    } else {
      assert (a + b)[0] == a[0];
      assert (a + b)[1..] == a[1..] + b;
      RemoveCharAppend(a[1..], b, c);
    }
  }

  /** Deleting a character that does not occur changes nothing. */
  lemma {:induction false} RemoveCharAbsent(t: string, c: char)
    requires c !in t
    ensures RemoveChar(t, c) == t
  {
    if |t| > 0 {
      assert t[1..] == t[1..];
      assert c !in t[1..];
      RemoveCharAbsent(t[1..], c);
      assert t == [t[0]] + t[1..];
    }
  }

  /** The digits `count_precision` looks at: sign and decimal point deleted. */
  function Digits(s: string): string {
    RemoveChar(RemoveChar(s, '-'), '.')
  }

  lemma DigitsAppend(a: string, b: string)
    ensures Digits(a + b) == Digits(a) + Digits(b)
  {
    RemoveCharAppend(a, b, '-');
    RemoveCharAppend(RemoveChar(a, '-'), RemoveChar(b, '-'), '.');
  }

  /** The `while rounded_sig[0] == '0'` loop, on a string where it stops. */
  function StripLeadingZeros(s: string): (r: string)
    ensures |r| <= |s|
  {
    if |s| > 0 && s[0] == '0' then StripLeadingZeros(s[1..]) else s
  }

  /** The result is a suffix, everything removed is '0', and what is left
      does not start with '0'. */
  lemma {:induction false} StripLeadingZerosShape(s: string)
    ensures var r := StripLeadingZeros(s);
      && r == s[|s| - |r|..]
      && (forall i :: 0 <= i < |s| - |r| ==> s[i] == '0')
      && (|r| > 0 ==> r[0] != '0')
  {
    if |s| > 0 && s[0] == '0' {
      StripLeadingZerosShape(s[1..]);
      var r := StripLeadingZeros(s[1..]);
      assert s[1..][|s| - 1 - |r|..] == s[|s| - |r|..];
      forall i | 0 <= i < |s| - |r|
        ensures s[i] == '0'
      {
        if i > 0 {
          assert s[i] == s[1..][i - 1];
        }
      }
    } else {
      assert s[0..] == s;
    }
  }

  /** A string with a non-'0' character keeps at least one character. */
  lemma StripLeadingZerosNonEmpty(s: string)
    requires exists j :: 0 <= j < |s| && s[j] != '0'
    ensures |StripLeadingZeros(s)| > 0
  {
    StripLeadingZerosShape(s);
  }

  /** Stripping a prefix that already holds a non-'0' character never
      reaches the appended part. */
  lemma {:induction false} StripLeadingZerosAppend(a: string, b: string)
    requires exists i :: 0 <= i < |a| && a[i] != '0'
    ensures StripLeadingZeros(a + b) == StripLeadingZeros(a) + b
  {
    assert (a + b)[0] == a[0];
    if a[0] == '0' {
      assert (a + b)[1..] == a[1..] + b;
      var i :| 0 <= i < |a| && a[i] != '0';
      assert a[1..][i - 1] != '0';
      StripLeadingZerosAppend(a[1..], b);
    }
  }

  /** A character that survives both deletion and zero stripping. */
  predicate IsSignificant(c: char) {
    c != '-' && c != '.' && c != '0'
  }

  /** Inputs on which `count_precision` returns: something other than a sign,
      a point or a zero is present. */
  predicate HasSignificantDigit(s: string) {
    exists i :: 0 <= i < |s| && IsSignificant(s[i])
  }

  lemma DigitsKeepSignificant(s: string)
    requires HasSignificantDigit(s)
    ensures exists j :: 0 <= j < |Digits(s)| && Digits(s)[j] != '0'
  {
    var i :| 0 <= i < |s| && IsSignificant(s[i]);
    assert s == s[..i] + [s[i]] + s[i + 1..];
    DigitsAppend(s[..i] + [s[i]], s[i + 1..]);
    DigitsAppend(s[..i], [s[i]]);
    assert Digits(s)[|Digits(s[..i])|] == s[i];
  }

  /** `count_precision`: the number of significant digits written in `s`. */
  function CountPrecision(s: string): (n: nat)
    requires HasSignificantDigit(s)
    ensures 1 <= n <= |s|
  {
    DigitsKeepSignificant(s);
    StripLeadingZerosNonEmpty(Digits(s));
    |StripLeadingZeros(Digits(s))|
  }

  /** Appending to a string that already has a significant digit adds one
      significant digit per appended character that is not '-' or '.'. */
  lemma CountPrecisionAppend(s: string, t: string)
    requires HasSignificantDigit(s)
    ensures HasSignificantDigit(s + t)
    ensures CountPrecision(s + t) == CountPrecision(s) + |Digits(t)|
  {
    var i :| 0 <= i < |s| && IsSignificant(s[i]);
    assert (s + t)[i] == s[i];
    DigitsAppend(s, t);
    DigitsKeepSignificant(s);
    StripLeadingZerosAppend(Digits(s), Digits(t));
  }

  /** Index of the first significant character. */
  function FirstSignificant(s: string): (k: nat)
    requires HasSignificantDigit(s)
    ensures k < |s| && IsSignificant(s[k])
    ensures forall j :: 0 <= j < k ==> !IsSignificant(s[j])
  {
    if IsSignificant(s[0]) then 0
    else
      var i :| 0 <= i < |s| && IsSignificant(s[i]);
      assert s[1..][i - 1] == s[i];
      1 + FirstSignificant(s[1..])
  }

  lemma DigitsCons(c: char, t: string)
    ensures Digits([c] + t) == (if c == '-' || c == '.' then "" else [c]) + Digits(t)
  {
    DigitsAppend([c], t);
  }

  /** A sign, point or zero in front adds no significant digit. */
  lemma CountPrecisionSkip(c: char, t: string)
    requires !IsSignificant(c) && HasSignificantDigit(t)
    ensures HasSignificantDigit([c] + t)
    ensures CountPrecision([c] + t) == CountPrecision(t)
  {
    var i :| 0 <= i < |t| && IsSignificant(t[i]);
    assert ([c] + t)[i + 1] == t[i];
    DigitsCons(c, t);
    if c == '0' {
      assert Digits([c] + t) == "0" + Digits(t);
      assert ("0" + Digits(t))[1..] == Digits(t);
      assert StripLeadingZeros("0" + Digits(t)) == StripLeadingZeros(Digits(t));
    } else {
      assert Digits([c] + t) == Digits(t);
    }
  }

  /** From a significant first character on, every digit counts. */
  lemma CountPrecisionLead(s: string)
    requires |s| > 0 && IsSignificant(s[0])
    ensures HasSignificantDigit(s)
    ensures CountPrecision(s) == |Digits(s)|
  {
    assert s == [s[0]] + s[1..];
    DigitsCons(s[0], s[1..]);
    assert Digits(s)[0] == s[0];
  }

  /** Skipping an insignificant first character moves the first
      significant position one step left in the tail. */
  lemma FirstSignificantSkip(s: string)
    requires HasSignificantDigit(s) && !IsSignificant(s[0])
    ensures HasSignificantDigit(s[1..])
    ensures s[FirstSignificant(s)..] == s[1..][FirstSignificant(s[1..])..]
  {
    var i :| 0 <= i < |s| && IsSignificant(s[i]);
    assert s[1..][i - 1] == s[i];
  }

  /** Reference reading of `count_precision`: the characters other than '-'
      and '.' from the first significant character to the end. */
  lemma {:induction false} CountPrecisionFromFirstSignificant(s: string)
    requires HasSignificantDigit(s)
    ensures CountPrecision(s) == |Digits(s[FirstSignificant(s)..])|
  {
    if IsSignificant(s[0]) {
      CountPrecisionLead(s);
      assert s[0..] == s;
    } else {
      var tail := s[1..];
      FirstSignificantSkip(s);
      CountPrecisionFromFirstSignificant(tail);
      assert CountPrecision(s) == CountPrecision(tail) by {
        assert s == [s[0]] + tail;
        CountPrecisionSkip(s[0], tail);
      }
    }
  }

  /** `is_period`: the for-else scan for a decimal point. */
  function IsPeriod(s: string): (b: bool)
    ensures b <==> exists i :: 0 <= i < |s| && s[i] == '.'
  {
    if |s| == 0 then false
    else if s[0] == '.' then true
    else
      assert forall i :: 1 <= i < |s| ==> s[i] == s[1..][i - 1];
      IsPeriod(s[1..])
  }

  lemma IsPeriodAppend(a: string, b: string)
    ensures IsPeriod(a + b) <==> IsPeriod(a) || IsPeriod(b)
  {
    if IsPeriod(b) {
      var i :| 0 <= i < |b| && b[i] == '.';
      assert (a + b)[|a| + i] == '.';
    }
    if IsPeriod(a) {
      var i :| 0 <= i < |a| && a[i] == '.';
      assert (a + b)[i] == '.';
    }
    if IsPeriod(a + b) {
      var i :| 0 <= i < |a + b| && (a + b)[i] == '.';
      if i < |a| { assert a[i] == '.'; } else { assert b[i - |a|] == '.'; }
    }
  }
}
