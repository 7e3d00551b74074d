/** C strings, numerals in any base, and strtol. */
module Numerals {

  /** A string as C sees it: the terminating NUL is not among its characters. */
  type CString = s: string | forall k :: 0 <= k < |s| ==> s[k] != '\0'

  /** The character a pointer i places into s reads. */
  function At(s: CString, i: nat): char {
    if i < |s| then s[i] else '\0'
  }

  predicate IsSpace(c: char) { c == ' ' || '\t' <= c <= '\r' }

  /** The digit that a character stands for, -1 for none. */
  function Digit(c: char): int {
    if '0' <= c <= '9' then c as int - '0' as int
    else if 'a' <= c <= 'z' then c as int - 'a' as int + 10
    else if 'A' <= c <= 'Z' then c as int - 'A' as int + 10
    else -1
  }

  predicate IsDigit(c: char, base: int) { 0 <= Digit(c) < base }

  ghost predicate AreDigits(s: string, base: int) {
    forall k :: 0 <= k < |s| ==> IsDigit(s[k], base)
  }

  /** The number that a numeral denotes. */
  function Value(s: string, base: int): int {
    if s == "" then 0 else Value(s[..|s| - 1], base) * base + Digit(s[|s| - 1])
  }

  // ----------------------------------------------------------- writing numerals

  function DigitChar(d: nat, upper: bool): (c: char)
    requires d < 16
    ensures IsDigit(c, 16) && Digit(c) == d && c != '\0'
  {
    if d < 10 then '0' + d as char else (if upper then 'A' else 'a') + (d - 10) as char
  }

  /** The shortest numeral of n. */
  function Digits(n: nat, base: nat, upper: bool): (s: string)
    requires 2 <= base <= 16
    ensures s != ""
    decreases n
  {
    (if n < base then "" else Digits(n / base, base, upper)) + [DigitChar(n % base, upper)]
  }

  lemma {:induction false} DigitsDenote(n: nat, base: nat, upper: bool)
    requires 2 <= base <= 16
    ensures Value(Digits(n, base, upper), base) == n && AreDigits(Digits(n, base, upper), base)
    decreases n
  {
    var high := if n < base then "" else Digits(n / base, base, upper);
    QuotientSmaller(n, base);
    if n >= base {
      DigitsDenote(n / base, base, upper);
    }
    LastDigit(high, DigitChar(n % base, upper), base, n);
  }

  lemma QuotientSmaller(n: nat, base: nat)
    requires base >= 2
    ensures n >= base ==> n / base < n
    ensures n < base ==> n / base == 0
  {
  }

  lemma LastDigit(high: string, low: char, base: nat, n: nat)
    requires base > 0 && Value(high, base) == n / base && Digit(low) == n % base && AreDigits(high, base)
    ensures Value(high + [low], base) == n && AreDigits(high + [low], base)
  {
    ValueSnoc(high, low, base);
    assert n == n / base * base + n % base;
  }

  lemma ValueSnoc(s: string, c: char, base: int)
    ensures Value(s + [c], base) == Value(s, base) * base + Digit(c)
    ensures AreDigits(s + [c], base) <==> AreDigits(s, base) && IsDigit(c, base)
  {
    var t := s + [c];
    assert t[..|t| - 1] == s;
    assert IsDigit(t[|s|], base) <==> IsDigit(c, base);
    assert forall k :: 0 <= k < |s| ==> t[k] == s[k];
  }

  function Pow(b: nat, k: nat): nat {
    if k == 0 then 1 else b * Pow(b, k - 1)
  }

  lemma {:induction false} DigitsLength(n: nat, base: nat, upper: bool, k: nat)
    requires 2 <= base <= 16 && k >= 1 && n < Pow(base, k)
    ensures |Digits(n, base, upper)| <= k
    decreases k
  {
    assert Pow(base, 1) == base * Pow(base, 0);
    if n >= base {
      QuotientBelow(n, base, Pow(base, k - 1));
      DigitsLength(n / base, base, upper, k - 1);
    }
  }

  lemma QuotientBelow(n: nat, base: nat, p: nat)
    requires base > 0 && n < base * p
    ensures n / base < p
  {
    var q := n / base;
    assert n == q * base + n % base;
    assert q >= p ==> q * base >= p * base;
  }

  /** n times the same character. */
  function Fill(c: char, n: int): (s: string)
    ensures |s| == (if n > 0 then n else 0) && forall k :: 0 <= k < |s| ==> s[k] == c
    decreases n
  {
    if n <= 0 then "" else [c] + Fill(c, n - 1)
  }

  lemma {:induction false} LeadingZeros(n: int, s: string, base: int)
    ensures Value(Fill('0', n) + s, base) == Value(s, base)
    decreases |s|, n
  {
    var t := Fill('0', n) + s;
    if s != "" {
      LeadingZeros(n, s[..|s| - 1], base);
      assert t[..|t| - 1] == Fill('0', n) + s[..|s| - 1];
    } else if n > 0 {
      LeadingZeros(n - 1, "", base);
      assert t[..|t| - 1] == Fill('0', n - 1) + "";
    }
  }

  // ----------------------------------------------------------- reading numerals

  function SkipSpaces(s: CString, i: nat): (j: nat)
    requires i <= |s|
    ensures i <= j <= |s|
    decreases |s| - i
  {
    if IsSpace(At(s, i)) then SkipSpaces(s, i + 1) else i
  }

  /** Where the digits that start at i end. */
  function DigitsEnd(s: CString, i: nat, base: int): (j: nat)
    requires i <= |s|
    ensures i <= j <= |s|
    decreases |s| - i
  {
    if IsDigit(At(s, i), base) then DigitsEnd(s, i + 1, base) else i
  }

  datatype Parsed = Parsed(value: int, end: nat)

  /** Base 0 takes the base from the numeral's prefix. */
  function Prefix(s: CString, i: nat, base: int): (r: (int, nat))
    requires i <= |s|
    ensures i <= r.1 <= |s|
  {
    if base != 0 then (base, i)
    else if At(s, i) != '0' then (10, i)
    else if At(s, i + 1) == 'x' || At(s, i + 1) == 'X' then (16, i + 2)
    else (8, i + 1)
  }

  predicate IsSign(c: char) { c == '-' || c == '+' }

  function AfterSign(s: CString, i: nat): (j: nat)
    requires i <= |s|
    ensures i <= j <= |s|
  {
    if IsSign(At(s, i)) then i + 1 else i
  }

  /** What strtol answers for the string from position i on. */
  function Parse(s: CString, i: nat, base: int): (r: Parsed)
    requires i <= |s|
    ensures i <= r.end <= |s|
  {
    var a := SkipSpaces(s, i);
    var (b, c) := Prefix(s, AfterSign(s, a), base);
    var e := DigitsEnd(s, c, b);
    Parsed(if At(s, a) == '-' then -Value(s[c..e], b) else Value(s[c..e], b), e)
  }

  /** strtol(nptr, &endptr, base) with nptr at position start. */
  method Strtol(s: CString, start: nat, base: int) returns (value: int, end: nat)
    requires start <= |s|
    ensures Parsed(value, end) == Parse(s, start, base) && Reads(s, start, base, value, end)
  {
    ParseReads(s, start, base);
    var blank := TakeSpaces(s, start);
    var neg, unsigned := TakeSign(s, blank);
    var b, first := TakePrefix(s, unsigned, base);
    var ret, p := TakeDigits(s, first, b);
    value, end := if neg then -ret else ret, p;
  }

  method TakeSpaces(s: CString, start: nat) returns (p: nat)
    requires start <= |s|
    ensures p == SkipSpaces(s, start)
  {
    p := start;
    while IsSpace(At(s, p))
      invariant start <= p <= |s| && SkipSpaces(s, p) == SkipSpaces(s, start)
      decreases |s| - p
    {
      p := p + 1;
    }
  }

  method TakeSign(s: CString, start: nat) returns (neg: bool, p: nat)
    requires start <= |s|
    ensures neg == (At(s, start) == '-') && p == AfterSign(s, start)
  {
    neg, p := false, start;
    if At(s, p) == '-' {
      neg := true;
      p := p + 1;
    } else if At(s, p) == '+' {
      p := p + 1;
    }
  }

  method TakePrefix(s: CString, start: nat, base0: int) returns (base: int, p: nat)
    requires start <= |s|
    ensures (base, p) == Prefix(s, start, base0)
  {
    base, p := base0, start;
    if base == 0 {
      if At(s, p) == '0' {
        p := p + 1;
        if At(s, p) == 'x' || At(s, p) == 'X' {
          base := 16;
          p := p + 1;
        } else {
          base := 8;
        }
      } else {
        base := 10;
      }
    }
  }

  /** strtol's digit loop. */
  method TakeDigits(s: CString, first: nat, base: int) returns (ret: int, p: nat)
    requires first <= |s|
    ensures p == DigitsEnd(s, first, base) && ret == Value(s[first..p], base)
  {
    ret, p := 0, first;
    while true
      invariant first <= p <= |s| && DigitsEnd(s, p, base) == DigitsEnd(s, first, base)
      invariant ret == Value(s[first..p], base)
      decreases |s| - p
    {
      var digit;
      if '0' <= At(s, p) <= '9' {
        digit := At(s, p) as int - '0' as int;
      } else if 'a' <= At(s, p) <= 'z' {
        digit := At(s, p) as int - ('a' as int - 10);
      } else if 'A' <= At(s, p) <= 'Z' {
        digit := At(s, p) as int - ('A' as int - 10);
      } else {
        break;
      }
      if digit >= base {
        break;
      }
      ValueSnoc(s[first..p], s[p], base);
      assert s[first..p] + [s[p]] == s[first..p + 1];
      ret := ret * base + digit;
      p := p + 1;
    }
  }

  // ----------------------------------------------------------- what strtol accepts

  /** isspace of an ASCII code: blank, and tab to carriage return. */
  predicate Blank(c: int) { c == 32 || c == 9 || c == 10 || c == 11 || c == 12 || c == 13 }

  /** A digit of the radix by its ASCII code: decimal digits and letters of both
      cases. */
  predicate HasValue(c: int, d: int) {
    || (48 <= c <= 57 && d == c - 48)
    || (97 <= c <= 122 && d == c - 97 + 10)
    || (65 <= c <= 90 && d == c - 65 + 10)
  }

  lemma CharacterClasses(c: char, d: nat)
    ensures IsSpace(c) <==> Blank(c as int)
    ensures Digit(c) == d <==> HasValue(c as int, d)
  {
  }

  /** The radix that a numeral's prefix gives: itself, or for 0 sixteen after 0x
      or 0X, eight after another 0, else ten; and where the digits begin. */
  ghost predicate RadixAt(s: CString, i: nat, base: int, radix: int, first: nat) {
    if base != 0 then radix == base && first == i
    else if i < |s| && s[i] == '0' then
      if i + 1 < |s| && (s[i + 1] == 'x' || s[i + 1] == 'X') then radix == 16 && first == i + 2
      else radix == 8 && first == i + 1
    else radix == 10 && first == i
  }

  /** strtol reads, from position start on, all the blanks, at most one sign, the
      prefix and all the digits; the value is that of the digits, negated behind
      a minus. */
  ghost predicate Reads(s: CString, start: nat, base: int, value: int, end: nat) {
    exists a: nat, b: nat, c: nat, radix: int ::
      && start <= a <= b <= c <= end <= |s|
      && (forall k :: start <= k < a ==> Blank(s[k] as int)) && (a < |s| ==> !Blank(s[a] as int))
      && (b == if a < |s| && (s[a] == '-' || s[a] == '+') then a + 1 else a)
      && RadixAt(s, b, base, radix, c)
      && AreDigits(s[c..end], radix) && (end < |s| ==> !IsDigit(s[end], radix))
      && value == if a < |s| && s[a] == '-' then -Value(s[c..end], radix) else Value(s[c..end], radix)
  }

  lemma ParseReads(s: CString, start: nat, base: int)
    requires start <= |s|
    ensures Reads(s, start, base, Parse(s, start, base).value, Parse(s, start, base).end)
  {
    var a := SkipSpaces(s, start);
    var b := AfterSign(s, a);
    var (radix, c) := Prefix(s, b, base);
    var end := DigitsEnd(s, c, radix);
    SpacesAre(s, start);
    DigitsAre(s, c, radix);
    assert RadixAt(s, b, base, radix, c);
  }

  lemma {:induction false} SpacesAre(s: CString, i: nat)
    requires i <= |s|
    ensures var a := SkipSpaces(s, i);
            && (forall k :: i <= k < a ==> Blank(s[k] as int)) && (a < |s| ==> !Blank(s[a] as int))
    decreases |s| - i
  {
    if i < |s| { CharacterClasses(s[i], 0); }
    if IsSpace(At(s, i)) { SpacesAre(s, i + 1); }
  }

  lemma {:induction false} DigitsAre(s: CString, i: nat, base: int)
    requires i <= |s|
    ensures var end := DigitsEnd(s, i, base);
            AreDigits(s[i..end], base) && (end < |s| ==> !IsDigit(s[end], base))
    decreases |s| - i
  {
    if IsDigit(At(s, i), base) {
      DigitsAre(s, i + 1, base);
      var end := DigitsEnd(s, i, base);
      assert s[i..end] == [s[i]] + s[i + 1..end];
    }
  }

  // ----------------------------------------------------------- reading what was written

  lemma {:induction false} SpacesSkipped(s: CString, i: nat, n: nat)
    requires i + n <= |s| && (forall k :: i <= k < i + n ==> s[k] == ' ') && !IsSpace(At(s, i + n))
    ensures SkipSpaces(s, i) == i + n
    decreases n
  {
    if n > 0 {
      SpacesSkipped(s, i + 1, n - 1);
    }
  }

  lemma {:induction false} DigitsTaken(s: CString, i: nat, j: nat, base: int)
    requires i <= j <= |s| && (forall k :: i <= k < j ==> IsDigit(s[k], base)) && !IsDigit(At(s, j), base)
    ensures DigitsEnd(s, i, base) == j
    decreases j - i
  {
    if i < j {
      DigitsTaken(s, i + 1, j, base);
    }
  }

  /** The text of a signed numeral: blanks, at most one sign, digits. */
  function NumberText(blanks: int, sign: string, digits: string): string {
    Fill(' ', blanks) + sign + digits
  }

  /** strtol reads such a text back, from the middle of a string too, provided
      that what follows does not go on with a digit. */
  lemma ParseNumber(s: CString, i: nat, blanks: int, sign: string, digits: string, rest: string, base: int)
    requires i <= |s| && s[i..] == NumberText(blanks, sign, digits) + rest
    requires sign == "" || sign == "-" || sign == "+"
    requires base != 0 && digits != "" && AreDigits(digits, base) && (rest == "" || !IsDigit(rest[0], base))
    ensures Parse(s, i, base)
            == Parsed(if sign == "-" then -Value(digits, base) else Value(digits, base),
                      i + |NumberText(blanks, sign, digits)|)
  {
    var a := i + |Fill(' ', blanks)|;
    var b := a + |sign|;
    TextParts(s, i, Fill(' ', blanks), sign, digits, rest);
    assert IsDigit(digits[0], base);
    assert IsSign(At(s, a)) <==> sign != "";
    ParseParts(s, i, a, b, b + |digits|, base);
  }

  lemma ParseParts(s: CString, i: nat, a: nat, b: nat, e: nat, base: int)
    requires i <= a <= b <= e <= |s| && base != 0
    requires (forall k :: i <= k < a ==> s[k] == ' ') && !IsSpace(At(s, a)) && b == AfterSign(s, a)
    requires (forall k :: b <= k < e ==> IsDigit(s[k], base)) && !IsDigit(At(s, e), base)
    ensures Parse(s, i, base) == Parsed(if At(s, a) == '-' then -Value(s[b..e], base) else Value(s[b..e], base), e)
  {
    SpacesSkipped(s, i, a - i);
    DigitsTaken(s, b, e, base);
  }

  lemma TextParts(s: CString, i: nat, blanks: string, sign: string, digits: string, rest: string)
    requires i <= |s| && s[i..] == blanks + sign + digits + rest && |sign| <= 1 && digits != ""
    ensures var a := i + |blanks|; var b := a + |sign|; var e := b + |digits|;
            && |s| == e + |rest| && s[b..e] == digits
            && (forall k :: i <= k < a ==> s[k] == blanks[k - i])
            && (forall k :: b <= k < e ==> s[k] == digits[k - b])
            && At(s, a) == (if sign != "" then sign[0] else digits[0])
            && (rest != "" ==> At(s, e) == rest[0])
  {
    var t := s[i..];
    var a := i + |blanks|;
    var b := a + |sign|;
    var e := b + |digits|;
    assert forall k :: i <= k < |s| ==> s[k] == t[k - i];
    assert s[b..e] == digits;
  }
}
