/** strtol undoes what the integer conversions print. */
module RoundTrip {
  import opened Bits
  import opened Numerals
  import opened Printing

  ghost predicate NulFree(s: string) { forall k :: 0 <= k < |s| ==> s[k] != '\0' }

  /** The number that the word stands for. */
  function Meant(num: nat, isSigned: bool): int
    requires num < TWO64
  {
    if Negative(num, isSigned) then num - TWO64 else num
  }

  lemma ZerosAndDigits(zeros: int, n: nat, base: nat, upper: bool)
    requires 2 <= base <= 16
    ensures var s := Fill('0', zeros) + Digits(n, base, upper);
            s != "" && AreDigits(s, base) && Value(s, base) == n && NulFree(s)
  {
    var digits := Digits(n, base, upper);
    DigitsDenote(n, base, upper);
    LeadingZeros(zeros, digits, base);
    var s := Fill('0', zeros) + digits;
    forall k | 0 <= k < |s|
      ensures IsDigit(s[k], base) && s[k] != '\0'
    {
      if k >= |Fill('0', zeros)| { assert IsDigit(digits[k - |Fill('0', zeros)|], base); }
    }
  }

  /** A blank in the sign's place is one more blank in front. */
  lemma BlankSign(blanks: int)
    ensures Fill(' ', blanks) + " " == Fill(' ', |Fill(' ', blanks)| + 1)
  {
    var s, t := Fill(' ', blanks) + " ", Fill(' ', |Fill(' ', blanks)| + 1);
    assert forall k :: 0 <= k < |s| ==> s[k] == t[k];
  }

  lemma LayoutFree(blanks: int, lead: string, zeros: int, digits: string)
    requires NulFree(lead) && NulFree(Fill('0', zeros) + digits)
    ensures NulFree(Layout(blanks, lead, zeros, digits))
  {
    var tail := Fill('0', zeros) + digits;
    var s := Fill(' ', blanks) + lead + tail;
    forall k | 0 <= k < |s|
      ensures s[k] != '\0'
    {
      var a := |Fill(' ', blanks)|;
      if k >= a + |lead| { assert s[k] == tail[k - a - |lead|]; }
    }
  }

  lemma TextReadsBack(s: CString, blanks: int, sign: string, digits: string, base: int)
    requires base != 0 && digits != "" && AreDigits(digits, base) && s == Fill(' ', blanks) + sign + digits
    requires sign == "" || sign == " " || sign == "-" || sign == "+"
    ensures Parse(s, 0, base) == Parsed(if sign == "-" then -Value(digits, base) else Value(digits, base), |s|)
  {
    assert s[0..] == s;
    if sign == " " {
      BlankSign(blanks);
      assert s == NumberText(|Fill(' ', blanks)| + 1, "", digits) + "";
      ParseNumber(s, 0, |Fill(' ', blanks)| + 1, "", digits, "", base);
    } else {
      assert s == NumberText(blanks, sign, digits) + "";
      ParseNumber(s, 0, blanks, sign, digits, "", base);
    }
  }

  /** A signed numeral in any layout is read back whole. */
  lemma LayoutReadsBack(blanks: int, sign: string, zeros: int, n: nat, base: nat, upper: bool)
    requires 2 <= base <= 16 && (sign == "" || sign == " " || sign == "-" || sign == "+")
    ensures var s := Layout(blanks, sign, zeros, Digits(n, base, upper));
            NulFree(s) && Parse(s, 0, base) == Parsed(if sign == "-" then 0 - n else n, |s|)
  {
    ZerosAndDigits(zeros, n, base, upper);
    LayoutFree(blanks, sign, zeros, Digits(n, base, upper));
    TextReadsBack(Layout(blanks, sign, zeros, Digits(n, base, upper)), blanks, sign, Fill('0', zeros) + Digits(n, base, upper), base);
  }

  /** For every signed 64-bit value but the least, and every setting of flags,
      width and precision, strtol in base 10 reads the decimal output back,
      all of it. Unsigned values must fit a long. */
  lemma DecReadsBack(num: nat, isSigned: bool, f: Flags)
    requires num < TWO64 && (if isSigned then num != TWO63 else num < TWO63)
    ensures var s := DecText(num, isSigned, f);
            NulFree(s) && Parse(s, 0, 10) == Parsed(Meant(num, isSigned), |s|)
  {
    if f.prec == 0 && num == 0 {
      assert DecText(num, isSigned, f) == "";
      assert Value("", 10) == 0;
    } else {
      var m, sign, p := Magnitude(num, isSigned), SignText(num, isSigned, f), DecPrec(f);
      var digits := Digits(m, 10, false);
      assert DecText(num, isSigned, f) == DecLayout(f.width, p, sign, digits);
      assert sign == "-" <==> Negative(num, isSigned);
      LayoutReadsBack(f.width - Max(|digits|, p) - |sign|, sign, p - |sign| - |digits|, m, 10, false);
    }
  }

  /** Hexadecimal output without a mark is read back in base 16. */
  lemma HexReadsBack(num: nat, c: char, f: Flags)
    requires num < TWO63 && (c == 'x' || c == 'X') && HexMark(num, c, f) == ""
    ensures var s := HexText(num, c, f);
            NulFree(s) && Parse(s, 0, 16) == Parsed(num, |s|)
  {
    if f.prec == 0 && num == 0 {
      assert HexText(num, c, f) == "";
      assert Value("", 16) == 0;
    } else {
      var digits, p := Digits(num, 16, c == 'X'), HexPrec(num, c, f);
      LayoutReadsBack(f.width - |""| - Max(|digits|, p), "", p - |digits|, num, 16, c == 'X');
    }
  }

  /** With a mark, 0x or 0X, it is read back in base 0; in base 16 strtol stops
      at the mark's letter. */
  lemma MarkedHexReadsBack(num: nat, c: char, f: Flags)
    requires num < TWO63 && (c == 'x' || c == 'X' || c == 'p') && HexMark(num, c, f) != ""
    ensures var s := HexText(num, c, f);
            NulFree(s) && Parse(s, 0, 0) == Parsed(num, |s|) && Parse(s, 0, 16).value == 0 && Parse(s, 0, 16).end < |s|
  {
    var mark, digits, p := HexMark(num, c, f), Digits(num, 16, c == 'X'), HexPrec(num, c, f);
    var blanks, zeros := f.width - |mark| - Max(|digits|, p), p - |digits|;
    ZerosAndDigits(zeros, num, 16, c == 'X');
    LayoutFree(blanks, mark, zeros, digits);
    ParseMarked(Layout(blanks, mark, zeros, digits), Fill(' ', blanks), mark, Fill('0', zeros) + digits);
    MisreadMarked(Layout(blanks, mark, zeros, digits), Fill(' ', blanks), mark, Fill('0', zeros) + digits);
  }

  lemma ParseMarked(s: CString, blanks: string, mark: string, tail: string)
    requires s == blanks + mark + tail && (mark == "0x" || mark == "0X") && tail != "" && AreDigits(tail, 16)
    requires forall k :: 0 <= k < |blanks| ==> blanks[k] == ' '
    ensures Parse(s, 0, 0) == Parsed(Value(tail, 16), |s|)
  {
    var a := |blanks|;
    MarkParts(s, blanks, mark, tail);
    assert forall k :: 0 <= k < |tail| ==> IsDigit(tail[k], 16);
    SpacesSkipped(s, 0, a);
    assert Prefix(s, a, 0) == (16, a + 2);
    DigitsTaken(s, a + 2, |s|, 16);
    assert s[a + 2..|s|] == tail;
  }

  lemma MisreadMarked(s: CString, blanks: string, mark: string, tail: string)
    requires s == blanks + mark + tail && (mark == "0x" || mark == "0X") && tail != ""
    requires forall k :: 0 <= k < |blanks| ==> blanks[k] == ' '
    ensures Parse(s, 0, 16) == Parsed(0, |blanks| + 1)
  {
    var a := |blanks|;
    MarkParts(s, blanks, mark, tail);
    SpacesSkipped(s, 0, a);
    DigitsTaken(s, a, a + 1, 16);
    ValueSnoc("", '0', 16);
    assert s[a..a + 1] == "" + ['0'];
  }

  lemma MarkParts(s: CString, blanks: string, mark: string, tail: string)
    requires s == blanks + mark + tail && |mark| == 2 && tail != ""
    ensures var a := |blanks|;
            && |s| == a + 2 + |tail| && s[a + 2..] == tail
            && (forall k :: 0 <= k < a ==> s[k] == blanks[k])
            && At(s, a) == mark[0] && At(s, a + 1) == mark[1]
            && (forall k :: a + 2 <= k < |s| ==> s[k] == tail[k - a - 2])
  {
  }
}
