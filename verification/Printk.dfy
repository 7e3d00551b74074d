/** The kernel's printf: integer conversions, and the format loop. */
module Printing {
  import opened Bits
  import opened Options
  import opened Numerals

  /** putch's far end: every character ever written. */
  class Console {
    var out: string

    constructor ()
      ensures out == ""
    {
      out := "";
    }

    method Putch(c: char)
      modifies this
      ensures out == old(out) + [c]
    {
      out := out + [c];
    }
  }

  /** struct fmt_flags */
  datatype Flags = Flags(inFormat: bool, longflag: bool, sharp: bool, zero: bool, space: bool, sign: bool, width: int, prec: int)

  function Max(a: int, b: int): int { if a > b then a else b }

  // ----------------------------------------------------------- what is printed

  const LEAST: string := "-9223372036854775808"

  function Negative(num: nat, isSigned: bool): bool { isSigned && num >= TWO63 }

  function Magnitude(num: nat, isSigned: bool): nat
    requires num < TWO64
  {
    if Negative(num, isSigned) then TWO64 - num else num
  }

  function SignChars(neg: bool, isSigned: bool, f: Flags): string {
    if !isSigned then ""
    else if neg then "-"
    else if f.sign then "+"
    else if f.space then " "
    else ""
  }

  function SignText(num: nat, isSigned: bool, f: Flags): string { SignChars(Negative(num, isSigned), isSigned, f) }

  /** Blanks, a sign or mark, zeros, digits. */
  function Layout(blanks: int, lead: string, zeros: int, digits: string): (s: string)
    ensures |s| == |Fill(' ', blanks)| + |lead| + |Fill('0', zeros)| + |digits|
  {
    Fill(' ', blanks) + lead + (Fill('0', zeros) + digits)
  }

  /** A decimal number's sign counts towards its precision, */
  function DecLayout(width: int, prec: int, sign: string, digits: string): string {
    Layout(width - Max(|digits|, prec) - |sign|, sign, prec - |sign| - |digits|, digits)
  }

  /** a hexadecimal number's mark does not. */
  function HexLayout(width: int, prec: int, mark: string, digits: string): string {
    Layout(width - |mark| - Max(|digits|, prec), mark, prec - |digits|, digits)
  }

  /** The zero flag acts as a precision of the whole width. */
  function DecPrec(f: Flags): int { if f.prec == -1 && f.zero then f.width else f.prec }

  /** print_dec_int's output */
  function DecText(num: nat, isSigned: bool, f: Flags): string
    requires num < TWO64
  {
    if isSigned && num == TWO63 then LEAST
    else if f.prec == 0 && num == 0 then ""
    else DecLayout(f.width, DecPrec(f), SignText(num, isSigned, f), Digits(Magnitude(num, isSigned), 10, false))
  }

  function DecFlags(num: nat, isSigned: bool, f: Flags): Flags {
    if (isSigned && num == TWO63) || (f.prec == 0 && num == 0) then f else f.(prec := DecPrec(f))
  }

  function HexMark(num: nat, c: char, f: Flags): string {
    if c == 'p' || (f.sharp && num != 0) then (if c == 'X' then "0X" else "0x") else ""
  }

  function MarkedPrec(f: Flags, mark: string): int {
    if f.prec == -1 && f.zero then f.width - |mark| else f.prec
  }

  function HexPrec(num: nat, c: char, f: Flags): int { MarkedPrec(f, HexMark(num, c, f)) }

  /** The output of %x, %X and %p. */
  function HexText(num: nat, c: char, f: Flags): string {
    if f.prec == 0 && num == 0 && c != 'p' then ""
    else HexLayout(f.width, HexPrec(num, c, f), HexMark(num, c, f), Digits(num, 16, c == 'X'))
  }

  function HexFlags(num: nat, c: char, f: Flags): Flags {
    if f.prec == 0 && num == 0 && c != 'p' then f else f.(prec := HexPrec(num, c, f))
  }

  // ----------------------------------------------------------- what the output looks like

  /** s is made of so many blanks, a lead, so many zeros, and digits. */
  ghost predicate MadeOf(s: string, blanks: nat, lead: string, zeros: nat, digits: string) {
    var a, b := blanks + |lead|, blanks + |lead| + zeros;
    && |s| == b + |digits|
    && (forall k :: 0 <= k < blanks ==> s[k] == ' ') && s[blanks..a] == lead
    && (forall k :: a <= k < b ==> s[k] == '0') && s[b..] == digits
  }

  /** A digit of the base, with letters of one case. */
  predicate InCase(c: char, base: nat, upper: bool) {
    && 0 <= Digit(c) < base
    && ('0' <= c <= '9' || (if upper then 'A' <= c <= 'F' else 'a' <= c <= 'f'))
  }

  /** The numeral of n in a base, without leading zeros, in one case. */
  ghost predicate IsNumeral(digits: string, n: nat, base: nat, upper: bool) {
    var ok :=
      && digits != "" && (n > 0 ==> digits[0] != '0') && (n == 0 ==> digits == "0")
      && Value(digits, base) == n && forall k :: 0 <= k < |digits| ==> InCase(digits[k], base, upper);
    ok
  }

  /** What printf's d, i and u may print: nothing for zero at precision zero;
      otherwise blanks, at most one sign character, zeros and the numeral of the
      magnitude. The precision, which is the width if there is none and the zero
      flag is set, counts the sign too. Blanks fill up to the width; it is missed,
      by one character, exactly when there is a sign, the precision exceeds the
      numeral's length, and the width the precision. */
  ghost predicate IsDecimal(s: string, num: nat, isSigned: bool, f: Flags) {
    var neg := isSigned && num >= 0x8000_0000_0000_0000;
    var sign := if neg then "-" else if isSigned && f.sign then "+" else if isSigned && f.space then " " else "";
    var n := if neg then 0x1_0000_0000_0000_0000 - num else num;
    var p := if f.prec == -1 && f.zero then f.width else f.prec;
    if isSigned && num == 0x8000_0000_0000_0000 then s == "-9223372036854775808"
    else if f.prec == 0 && num == 0 then s == ""
    else exists blanks: nat, zeros: nat, digits: string ::
      && MadeOf(s, blanks, sign, zeros, digits) && n >= 0 && IsNumeral(digits, n, 10, false)
      && |sign| + zeros + |digits| >= p && (zeros > 0 ==> |sign| + zeros + |digits| == p)
      && (blanks > 0 ==> |s| <= f.width)
      && (|s| < f.width <==> sign != "" && |digits| < p < f.width) && |s| >= f.width - 1
  }

  /** What x, X and p may print: nothing for zero at precision zero, but for p;
      otherwise blanks, the mark for p or with a sharp for all but zero, zeros and
      the numeral, in the letters of the conversion. The precision does not count
      the mark, and blanks always fill up to the width. */
  ghost predicate IsHexadecimal(s: string, num: nat, c: char, f: Flags) {
    var mark := if c == 'p' || (f.sharp && num != 0) then (if c == 'X' then "0X" else "0x") else "";
    var p := if f.prec == -1 && f.zero then f.width - |mark| else f.prec;
    if f.prec == 0 && num == 0 && c != 'p' then s == ""
    else exists blanks: nat, zeros: nat, digits: string ::
      && MadeOf(s, blanks, mark, zeros, digits) && IsNumeral(digits, num, 16, c == 'X')
      && zeros + |digits| >= p && (zeros > 0 ==> zeros + |digits| == p)
      && |s| >= f.width && (blanks > 0 ==> |s| == f.width)
  }

  lemma DigitsAreNumeral(n: nat, base: nat, upper: bool)
    requires 2 <= base <= 16
    ensures IsNumeral(Digits(n, base, upper), n, base, upper)
  {
    DigitsDenote(n, base, upper);
    DigitsInCase(n, base, upper);
    if n > 0 { FirstNotZero(n, base, upper); } else { ZeroDigit(base, upper); }
  }

  lemma ZeroDigit(base: nat, upper: bool)
    requires 2 <= base <= 16
    ensures Digits(0, base, upper) == "0"
  {
  }

  lemma {:induction false} FirstNotZero(n: nat, base: nat, upper: bool)
    requires 2 <= base <= 16 && n > 0
    ensures Digits(n, base, upper)[0] != '0'
    decreases n
  {
    if n >= base {
      QuotientSmaller(n, base);
      QuotientPositive(n, base);
      FirstNotZero(n / base, base, upper);
    }
  }

  lemma {:induction false} DigitsInCase(n: nat, base: nat, upper: bool)
    requires 2 <= base <= 16
    ensures forall k :: 0 <= k < |Digits(n, base, upper)| ==> InCase(Digits(n, base, upper)[k], base, upper)
    decreases n
  {
    LowDigitInCase(n % base, base, upper);
    if n >= base {
      QuotientSmaller(n, base);
      DigitsInCase(n / base, base, upper);
    }
  }

  lemma LowDigitInCase(d: nat, base: nat, upper: bool)
    requires d < base <= 16
    ensures InCase(DigitChar(d, upper), base, upper)
  {
  }

  lemma LayoutMadeOf(blanks: int, lead: string, zeros: int, digits: string)
    ensures MadeOf(Layout(blanks, lead, zeros, digits), |Fill(' ', blanks)|, lead, |Fill('0', zeros)|, digits)
  {
    var b, z := Fill(' ', blanks), Fill('0', zeros);
    var s := b + lead + (z + digits);
    assert s[|b|..|b| + |lead|] == lead;
    assert s[|b| + |lead| + |z|..] == digits;
  }

  lemma DecShown(num: nat, isSigned: bool, f: Flags)
    requires num < TWO64
    ensures IsDecimal(DecText(num, isSigned, f), num, isSigned, f)
  {
    if !(isSigned && num == TWO63) && !(f.prec == 0 && num == 0) {
      DigitsAreNumeral(Magnitude(num, isSigned), 10, false);
      DecLayoutShown(num, isSigned, f, DecPrec(f), SignText(num, isSigned, f), Digits(Magnitude(num, isSigned), 10, false));
    }
  }

  lemma DecLayoutShown(num: nat, isSigned: bool, f: Flags, p: int, sign: string, digits: string)
    requires num < TWO64 && !(isSigned && num == TWO63) && !(f.prec == 0 && num == 0)
    requires p == DecPrec(f) && sign == SignText(num, isSigned, f) && IsNumeral(digits, Magnitude(num, isSigned), 10, false)
    ensures IsDecimal(DecLayout(f.width, p, sign, digits), num, isSigned, f)
  {
    var blanks, zeros := f.width - Max(|digits|, p) - |sign|, p - |sign| - |digits|;
    LayoutMadeOf(blanks, sign, zeros, digits);
    DecWitness(DecLayout(f.width, p, sign, digits), num, isSigned, f, |Fill(' ', blanks)|, sign, |Fill('0', zeros)|, digits);
  }

  lemma DecWitness(s: string, num: nat, isSigned: bool, f: Flags, blanks: nat, sign: string, zeros: nat, digits: string)
    requires num < TWO64 && !(isSigned && num == TWO63) && !(f.prec == 0 && num == 0)
    requires sign == SignText(num, isSigned, f) && IsNumeral(digits, Magnitude(num, isSigned), 10, false)
    requires var p := DecPrec(f);
             && blanks == (if f.width > Max(|digits|, p) + |sign| then f.width - Max(|digits|, p) - |sign| else 0)
             && zeros == (if p > |sign| + |digits| then p - |sign| - |digits| else 0)
    requires MadeOf(s, blanks, sign, zeros, digits)
    ensures IsDecimal(s, num, isSigned, f)
  {
  }

  lemma HexShown(num: nat, c: char, f: Flags)
    requires num < TWO64 && (c == 'x' || c == 'X' || c == 'p')
    ensures IsHexadecimal(HexText(num, c, f), num, c, f)
  {
    if !(f.prec == 0 && num == 0 && c != 'p') {
      DigitsAreNumeral(num, 16, c == 'X');
      HexLayoutShown(num, c, f, HexPrec(num, c, f), HexMark(num, c, f), Digits(num, 16, c == 'X'));
    }
  }

  lemma HexLayoutShown(num: nat, c: char, f: Flags, p: int, mark: string, digits: string)
    requires !(f.prec == 0 && num == 0 && c != 'p')
    requires p == HexPrec(num, c, f) && mark == HexMark(num, c, f) && IsNumeral(digits, num, 16, c == 'X')
    ensures IsHexadecimal(HexLayout(f.width, p, mark, digits), num, c, f)
  {
    var blanks, zeros := f.width - |mark| - Max(|digits|, p), p - |digits|;
    LayoutMadeOf(blanks, mark, zeros, digits);
    HexWitness(HexLayout(f.width, p, mark, digits), num, c, f, |Fill(' ', blanks)|, mark, |Fill('0', zeros)|, digits);
  }

  lemma HexWitness(s: string, num: nat, c: char, f: Flags, blanks: nat, mark: string, zeros: nat, digits: string)
    requires !(f.prec == 0 && num == 0 && c != 'p') && mark == HexMark(num, c, f) && IsNumeral(digits, num, 16, c == 'X')
    requires var p := HexPrec(num, c, f);
             && blanks == (if f.width > |mark| + Max(|digits|, p) then f.width - |mark| - Max(|digits|, p) else 0)
             && zeros == (if p > |digits| then p - |digits| else 0)
    requires MadeOf(s, blanks, mark, zeros, digits)
    ensures IsHexadecimal(s, num, c, f)
  {
  }

  /** %+5.3d prints 7 in four characters: the sign is counted in the precision
      when zeros are printed, but not when blanks are. */
  lemma WidthMissed(f: Flags)
    requires f == Flags(true, false, false, false, false, true, 5, 3)
    ensures DecText(7, true, f) == " +07"
  {
    assert Digits(7, 10, false) == "7";
    assert Fill(' ', 1) == " " + Fill(' ', 0) && Fill('0', 1) == "0" + Fill('0', 0);
  }

  // ----------------------------------------------------------- digit buffers

  /** A buffer read from its end. */
  function Backward(b: seq<char>): (s: string)
    ensures |s| == |b|
  {
    if b == [] then "" else [b[|b| - 1]] + Backward(b[..|b| - 1])
  }

  /** What is left to write of n's digits: none when n has become zero. */
  function Rest(n: nat, base: nat, upper: bool): string
    requires 2 <= base <= 16
  {
    if n == 0 then "" else Digits(n, base, upper)
  }

  lemma DigitsSplit(n: nat, base: nat, upper: bool)
    requires 2 <= base <= 16
    ensures Digits(n, base, upper) == Rest(n / base, base, upper) + [DigitChar(n % base, upper)]
  {
    QuotientSmaller(n, base);
    if n >= base { QuotientPositive(n, base); }
  }

  lemma QuotientPositive(n: nat, base: nat)
    requires n >= base > 0
    ensures n / base >= 1
  {
    DivLower(n, base, 1);
  }

  lemma BackwardMore(b: seq<char>, c: char)
    ensures Backward(b + [c]) == [c] + Backward(b)
  {
    assert (b + [c])[..|b|] == b;
  }

  /** A 64-bit number has at most 20 decimal and 16 hexadecimal digits. */
  lemma BuffersSuffice(num: nat)
    requires num < TWO64
    ensures |Digits(num, 10, false)| <= 20
    ensures forall upper :: |Digits(num, 16, upper)| <= 16
  {
    assert Pow(10, 20) > TWO64 by {
      assert Pow(10, 5) == 100000;
      PowAdd(10, 5, 5);
      PowAdd(10, 10, 10);
    }
    DigitsLength(num, 10, false, 20);
    assert Pow(16, 16) == TWO64 by {
      assert Pow(16, 4) == 65536;
      PowAdd(16, 4, 4);
      PowAdd(16, 8, 8);
    }
    DigitsLength(num, 16, false, 16);
    DigitsLength(num, 16, true, 16);
  }

  lemma {:induction false} PowAdd(b: nat, j: nat, k: nat)
    ensures Pow(b, j + k) == Pow(b, j) * Pow(b, k)
  {
    if j > 0 {
      PowAdd(b, j - 1, k);
      assert Pow(b, j + k) == b * Pow(b, j - 1 + k);
      MulAssoc(b, Pow(b, j - 1), Pow(b, k));
    }
  }

  lemma MulAssoc(a: nat, b: nat, c: nat)
    ensures a * (b * c) == a * b * c
  {
  }

  /** b holds the low digits of a numeral, those of num are still to come. */
  ghost predicate Holds(b: seq<char>, num: nat, base: nat, upper: bool, numeral: string) {
    2 <= base <= 16 && Rest(num, base, upper) + Backward(b) == numeral
  }

  lemma StoreDigit(b: seq<char>, num: nat, base: nat, upper: bool, numeral: string)
    requires Holds(b, num, base, upper, numeral) && num != 0
    ensures Holds(b + [DigitChar(num % base, upper)], num / base, base, upper, numeral)
    ensures |b| < |numeral|
  {
    DigitsSplit(num, base, upper);
    BackwardMore(b, DigitChar(num % base, upper));
  }

  lemma StoreFirst(num: nat, base: nat, upper: bool)
    requires 2 <= base <= 16
    ensures Holds([DigitChar(num % base, upper)], num / base, base, upper, Digits(num, base, upper))
  {
    DigitsSplit(num, base, upper);
    BackwardMore([], DigitChar(num % base, upper));
    assert [] + [DigitChar(num % base, upper)] == [DigitChar(num % base, upper)];
  }

  lemma AllHeld(b: seq<char>, base: nat, upper: bool, numeral: string)
    requires Holds(b, 0, base, upper, numeral)
    ensures Backward(b) == numeral && |b| == |numeral|
  {
  }

  /** The decimal digits, lowest first. */
  method DecDigits(num0: nat) returns (buf: array<char>, decdigits: nat)
    requires num0 < TWO64
    ensures fresh(buf) && buf.Length == 20 && decdigits <= 20 && Backward(buf[..decdigits]) == Digits(num0, 10, false)
  {
    ghost var numeral := Digits(num0, 10, false);
    BuffersSuffice(num0);
    StoreFirst(num0, 10, false);
    buf := new char[20];
    buf[0] := '0' + (num0 % 10) as char;
    decdigits := 1;
    var num: nat := num0 / 10;
    assert buf[..1] == [DigitChar(num0 % 10, false)];
    while num != 0
      invariant 1 <= decdigits <= 20 && Holds(buf[..decdigits], num, 10, false, numeral)
    {
      ghost var b := buf[..decdigits];
      StoreDigit(b, num, 10, false, numeral);
      buf[decdigits] := '0' + (num % 10) as char;
      assert buf[..decdigits + 1] == b + [DigitChar(num % 10, false)];
      decdigits := decdigits + 1;
      num := num / 10;
    }
    AllHeld(buf[..decdigits], 10, false, numeral);
  }

  function HexChars(upper: bool): (s: string)
    ensures |s| == 16
  {
    if upper then "0123456789ABCDEF" else "0123456789abcdef"
  }

  lemma HexCharsAt(upper: bool, d: nat)
    requires d < 16
    ensures HexChars(upper)[d] == DigitChar(d, upper)
  {
  }

  /** The hexadecimal digits, lowest first. */
  method HexDigits(num0: nat, upper: bool) returns (buf: array<char>, hexdigits: nat)
    requires num0 < TWO64
    ensures fresh(buf) && buf.Length == 16 && hexdigits <= 16 && Backward(buf[..hexdigits]) == Digits(num0, 16, upper)
  {
    ghost var numeral := Digits(num0, 16, upper);
    var xdigits := HexChars(upper);
    BuffersSuffice(num0);
    StoreFirst(num0, 16, upper);
    NibbleOf(num0);
    HexCharsAt(upper, num0 % 16);
    buf := new char[16];
    buf[0] := xdigits[And(num0, 0xf)];
    hexdigits := 1;
    var num: nat := Shr(num0, 4);
    assert buf[..1] == [DigitChar(num0 % 16, upper)];
    while num != 0
      invariant 1 <= hexdigits <= 16 && Holds(buf[..hexdigits], num, 16, upper, numeral)
      decreases num
    {
      ghost var b := buf[..hexdigits];
      NibbleOf(num);
      HexCharsAt(upper, num % 16);
      StoreDigit(b, num, 16, upper, numeral);
      buf[hexdigits] := xdigits[And(num, 0xf)];
      assert buf[..hexdigits + 1] == b + [DigitChar(num % 16, upper)];
      hexdigits := hexdigits + 1;
      num := Shr(num, 4);
    }
    AllHeld(buf[..hexdigits], 16, upper, numeral);
  }

  lemma NibbleOf(x: nat)
    ensures And(x, 0xf) == x % 16 && Shr(x, 4) == x / 16
  {
    assert Pow2(4) == 16;
    AndMask(x, 4);
    assert x / 2 / 2 == x / 4 && x / 4 / 2 == x / 8 && x / 8 / 2 == x / 16;
    assert Shr(x, 4) == Shr(x / 2, 3) == Shr(x / 4, 2) == Shr(x / 8, 1) == Shr(x / 16, 0);
  }

  // ----------------------------------------------------------- printing

  /** The digit buffer from its last digit down to buf[0]. */
  method PutBackward(con: Console, buf: array<char>, n: nat) returns (written: nat)
    requires n <= buf.Length
    modifies con
    ensures con.out == old(con.out) + Backward(buf[..n]) && written == n
  {
    written := 0;
    var i: int := n - 1;
    while i >= 0
      invariant -1 <= i < n && written == n - 1 - i
      invariant con.out + Backward(buf[..i + 1]) == old(con.out) + Backward(buf[..n])
      invariant |con.out| == |old(con.out)| + written
    {
      assert buf[..i + 1][..i] == buf[..i];
      con.Putch(buf[i]);
      written := written + 1;
      i := i - 1;
    }
  }

  /** A padding loop. */
  method Pad(con: Console, n: int, c: char) returns (written: nat)
    modifies con
    ensures con.out == old(con.out) + Fill(c, n) && written == |Fill(c, n)|
  {
    written := 0;
    var i := n;
    while i > 0
      invariant con.out + Fill(c, i) == old(con.out) + Fill(c, n)
      invariant written + |Fill(c, i)| == |Fill(c, n)|
    {
      con.Putch(c);
      written := written + 1;
      i := i - 1;
    }
  }

  /** The output loops that both integer conversions end with. */
  method PutNumber(con: Console, blanks: int, lead: CString, zeros: int, buf: array<char>,
          n: nat) returns (written: nat)
    requires n <= buf.Length
    modifies con
    ensures con.out == old(con.out) + Layout(blanks, lead, zeros, Backward(buf[..n]))
    ensures written == |Layout(blanks, lead, zeros, Backward(buf[..n]))|
  {
    ghost var out0 := con.out;
    var w0 := Pad(con, blanks, ' ');
    var w1 := PutsWoNl(con, Some(lead));
    var w2 := Pad(con, zeros, '0');
    var w3 := PutBackward(con, buf, n);
    assert con.out == out0 + Layout(blanks, lead, zeros, Backward(buf[..n]));
    written := w0 + w1 + w2 + w3;
  }

  /** puts_wo_nl */
  method PutsWoNl(con: Console, s: Option<CString>) returns (written: nat)
    modifies con
    ensures con.out == old(con.out) + StringText(s) && written == |StringText(s)|
    ensures con.out == old(con.out) + if s.None? then "(null)" else s.value
  {
    var text: CString := if s.None? then "(null)" else s.value;
    var p := 0;
    while At(text, p) != '\0'
      invariant 0 <= p <= |text| && con.out == old(con.out) + text[..p]
      decreases |text| - p
    {
      con.Putch(text[p]);
      p := p + 1;
    }
    assert text[..p] == text;
    written := p;
  }

  function StringText(s: Option<CString>): string { if s.None? then "(null)" else s.value }

  /** print_dec_int; the flags come back as it leaves them. */
  method PrintDecInt(con: Console, num: nat, isSigned: bool, f: Flags) returns (written: nat, f': Flags)
    requires num < TWO64
    modifies con
    ensures var text := DecText(num, isSigned, f);
            con.out == old(con.out) + text && written == |text| && IsDecimal(text, num, isSigned, f)
    ensures f' == DecFlags(num, isSigned, f)
  {
    DecShown(num, isSigned, f);
    written, f' := PrintDec(con, num, isSigned, f);
  }

  method PrintDec(con: Console, num: nat, isSigned: bool, f: Flags) returns (written: nat, f': Flags)
    requires num < TWO64
    modifies con
    ensures con.out == old(con.out) + DecText(num, isSigned, f) && written == |DecText(num, isSigned, f)|
    ensures f' == DecFlags(num, isSigned, f)
  {
    f' := f;
    if isSigned && num == TWO63 {
      written := PutsWoNl(con, Some(LEAST));
      return;
    }
    if f.prec == 0 && num == 0 {
      return 0, f;
    }
    var neg, magnitude := false, num;
    if isSigned && num >= TWO63 {
      neg, magnitude := true, TWO64 - num;
    }
    var lead := SignChar(neg, isSigned, f);
    written, f' := PrintMagnitude(con, magnitude, lead, f);
  }

  method PrintMagnitude(con: Console, magnitude: nat, lead: CString, f: Flags) returns (written: nat, f': Flags)
    requires magnitude < TWO64
    modifies con
    ensures con.out == old(con.out) + DecLayout(f.width, DecPrec(f), lead, Digits(magnitude, 10, false))
    ensures written == |DecLayout(f.width, DecPrec(f), lead, Digits(magnitude, 10, false))|
    ensures f' == f.(prec := DecPrec(f))
  {
    var buf, decdigits := DecDigits(magnitude);
    f' := f;
    if f'.prec == -1 && f'.zero {
      f' := f'.(prec := f'.width);
    }
    written := PutDec(con, f'.width, f'.prec, lead, buf, decdigits);
  }

  method SignChar(neg: bool, isSigned: bool, f: Flags) returns (lead: CString)
    requires neg ==> isSigned
    ensures lead == SignChars(neg, isSigned, f)
  {
    var hasSignChar := isSigned && (neg || f.sign || f.space);
    lead := "";
    if hasSignChar {
      if neg {
        lead := "-";
      } else if f.sign {
        lead := "+";
      } else {
        lead := " ";
      }
    }
  }

  method PutDec(con: Console, width: int, prec: int, lead: CString, buf: array<char>, n: nat) returns (written: nat)
    requires n <= buf.Length
    modifies con
    ensures con.out == old(con.out) + DecLayout(width, prec, lead, Backward(buf[..n]))
    ensures written == |DecLayout(width, prec, lead, Backward(buf[..n]))|
  {
    written := PutNumber(con, width - Max(n, prec) - |lead|, lead, prec - |lead| - n, buf, n);
  }

  /** The hexadecimal branch of vprintfmt. */
  method PrintHex(con: Console, num: nat, c: char, f: Flags) returns (written: nat, f': Flags)
    requires num < TWO64 && (c == 'x' || c == 'X' || c == 'p')
    modifies con
    ensures var text := HexText(num, c, f);
            con.out == old(con.out) + text && written == |text| && IsHexadecimal(text, num, c, f)
    ensures f' == HexFlags(num, c, f)
  {
    HexShown(num, c, f);
    written, f' := PrintHexadecimal(con, num, c, f);
  }

  method PrintHexadecimal(con: Console, num: nat, c: char, f: Flags) returns (written: nat, f': Flags)
    requires num < TWO64 && (c == 'x' || c == 'X' || c == 'p')
    modifies con
    ensures con.out == old(con.out) + HexText(num, c, f) && written == |HexText(num, c, f)|
    ensures f' == HexFlags(num, c, f)
  {
    f' := f;
    if f.prec == 0 && num == 0 && c != 'p' {
      return 0, f;
    }
    var prefix, lead := HexPrefix(num, c, f);
    written, f' := PrintMarked(con, num, c == 'X', prefix, lead, f);
  }

  method PrintMarked(con: Console, num: nat, upper: bool, prefix: nat, lead: CString, f: Flags)
    returns (written: nat, f': Flags)
    requires num < TWO64 && |lead| == 2 * prefix
    modifies con
    ensures con.out == old(con.out) + HexLayout(f.width, MarkedPrec(f, lead), lead, Digits(num, 16, upper))
    ensures written == |HexLayout(f.width, MarkedPrec(f, lead), lead, Digits(num, 16, upper))|
    ensures f' == f.(prec := MarkedPrec(f, lead))
  {
    var buf, hexdigits := HexDigits(num, upper);
    f' := f;
    if f'.prec == -1 && f'.zero {
      f' := f'.(prec := f'.width - 2 * prefix);
    }
    written := PutHex(con, f'.width, f'.prec, lead, buf, hexdigits);
  }

  method HexPrefix(num: nat, c: char, f: Flags) returns (prefix: nat, lead: CString)
    ensures lead == HexMark(num, c, f) && |lead| == 2 * prefix
  {
    prefix, lead := 0, "";
    if c == 'p' || (f.sharp && num != 0) {
      prefix := 1;
      if c == 'X' {
        lead := "0X";
      } else {
        lead := "0x";
      }
    }
  }

  method PutHex(con: Console, width: int, prec: int, lead: CString, buf: array<char>, n: nat) returns (written: nat)
    requires n <= buf.Length
    modifies con
    ensures con.out == old(con.out) + HexLayout(width, prec, lead, Backward(buf[..n]))
    ensures written == |HexLayout(width, prec, lead, Backward(buf[..n]))|
  {
    written := PutNumber(con, width - |lead| - Max(n, prec), lead, prec - n, buf, n);
  }
}
