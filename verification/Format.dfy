/** vprintfmt: the format loop, character by character, and what it makes of a
    well-formed format. */
module Formatting {
  import opened Bits
  import opened Options
  import opened Numerals
  import opened Printing

  /** One variadic argument: a word, and the string it points to if it is used
      as a string (None for a null pointer). */
  datatype Arg = Arg(word: nat, text: Option<CString>)

  type VaList = nat -> Arg

  /** Where the loop stands: position, flags, next argument, what has been
      written, and what %n has stored. */
  datatype Cursor = Cursor(pos: nat, flags: Flags, arg: nat, out: string, marks: seq<nat>)

  const NO_FLAGS: Flags := Flags(false, false, false, false, false, false, 0, 0)
  const OPEN: Flags := Flags(true, false, false, false, false, false, 0, -1)

  // ----------------------------------------------------------- C's conversions

  /** An int or a long handed on as unsigned long */
  function ToWord(x: int): (w: nat)
    ensures w < TWO64 && (x - w) % 0x1_0000_0000_0000_0000 == 0
  {
    x % TWO64
  }

  function HexArg(a: Arg, long: bool): (w: nat)
    ensures w < TWO64 && (long ==> (a.word - w) % 0x1_0000_0000_0000_0000 == 0)
    ensures !long ==> w < 0x1_0000_0000 && (a.word - w) % 0x1_0000_0000 == 0
  {
    if long then a.word % TWO64 else a.word % 0x1_0000_0000
  }

  /** Without an l the argument is sign-extended, for %u too. */
  function DecArg(a: Arg, long: bool): (w: nat)
    ensures w < TWO64
  {
    if long then ToWord(a.word) else ToWord(ToInt(a.word))
  }

  // ----------------------------------------------------------- one round of the loop

  function Closed(f: Flags): Flags { f.(inFormat := false) }

  function Emit(st: Cursor, text: string): Cursor {
    st.(out := st.out + text, flags := Closed(st.flags))
  }

  predicate IsHexKind(c: char) { c == 'x' || c == 'X' || c == 'p' }

  predicate IsDecKind(c: char) { c == 'd' || c == 'i' || c == 'u' }

  predicate IsIntKind(c: char) { IsHexKind(c) || IsDecKind(c) }

  /** The text of an integer argument under conversion c, */
  function IntText(a: Arg, c: char, f: Flags): string {
    if IsHexKind(c) then HexText(HexArg(a, c == 'p' || f.longflag), c, f) else DecText(DecArg(a, f.longflag), c != 'u', f)
  }

  /** and the flags as the conversion leaves them. */
  function IntFlags(a: Arg, c: char, f: Flags): Flags {
    if IsHexKind(c) then HexFlags(HexArg(a, c == 'p' || f.longflag), c, f) else DecFlags(DecArg(a, f.longflag), c != 'u', f)
  }

  /** The conversion character c ends a directive. */
  function Convert(vl: VaList, st: Cursor, c: char): Cursor {
    var f, a := st.flags, vl(st.arg);
    if IsIntKind(c) then Cursor(st.pos, Closed(IntFlags(a, c, f)), st.arg + 1, st.out + IntText(a, c, f), st.marks)
    else if c == 'n' then Cursor(st.pos, Closed(f), st.arg + 1, st.out, st.marks + [|st.out|])
    else if c == 's' then Emit(st, StringText(a.text)).(arg := st.arg + 1)
    else if c == 'c' then Emit(st, [(a.word % 256) as char]).(arg := st.arg + 1)
    else Emit(st, [c])
  }

  lemma ParseAdvances(s: CString, i: nat)
    requires i < |s| && '1' <= s[i] <= '9'
    ensures Parse(s, i, 10).end > i
  {
    assert SkipSpaces(s, i) == i;
    assert Prefix(s, i, 10) == (10, i);
    assert DigitsEnd(s, i, 10) == DigitsEnd(s, i + 1, 10);
  }

  function Step(fmt: CString, vl: VaList, st: Cursor): (r: Cursor)
    requires st.pos < |fmt|
    ensures st.pos < r.pos <= |fmt|
  {
    var c, f, p := fmt[st.pos], st.flags, st.pos + 1;
    if !f.inFormat then (if c == '%' then st.(pos := p, flags := OPEN) else Emit(st, [c]).(pos := p))
    else if c == '#' then st.(pos := p, flags := f.(sharp := true))
    else if c == '0' then st.(pos := p, flags := f.(zero := true))
    else if c == 'l' || c == 'z' || c == 't' || c == 'j' then st.(pos := p, flags := f.(longflag := true))
    else if c == '+' then st.(pos := p, flags := f.(sign := true))
    else if c == ' ' then st.(pos := p, flags := f.(space := true))
    else if c == '*' then st.(pos := p, flags := f.(width := ToInt(vl(st.arg).word)), arg := st.arg + 1)
    else if '1' <= c <= '9' then
      ParseAdvances(fmt, st.pos);
      var r := Parse(fmt, st.pos, 10);
      st.(pos := r.end, flags := f.(width := ToInt(r.value)))
    else if c == '.' then
      if At(fmt, p) == '*' then st.(pos := p + 1, flags := f.(prec := ToInt(vl(st.arg).word)), arg := st.arg + 1)
      else
        var r := Parse(fmt, p, 10);
        st.(pos := r.end, flags := f.(prec := ToInt(r.value)))
    else Convert(vl, st, c).(pos := p)
  }

  function Run(fmt: CString, vl: VaList, st: Cursor): Cursor
    requires st.pos <= |fmt|
    decreases |fmt| - st.pos
  {
    if st.pos == |fmt| then st else Run(fmt, vl, Step(fmt, vl, st))
  }

  const START: Cursor := Cursor(0, NO_FLAGS, 0, "", [])

  // ----------------------------------------------------------- the loop itself

  /** The branches for x, X, p and for d, i, u. */
  method PutInteger(con: Console, a: Arg, c: char, f: Flags) returns (written: nat, f': Flags)
    requires IsIntKind(c)
    modifies con
    ensures con.out == old(con.out) + IntText(a, c, f) && written == |IntText(a, c, f)| && f' == IntFlags(a, c, f)
  {
    if IsHexKind(c) {
      written, f' := PutHexArg(con, HexArg(a, c == 'p' || f.longflag), c, f);
    } else {
      written, f' := PutDecArg(con, DecArg(a, f.longflag), c != 'u', f);
    }
  }

  method PutHexArg(con: Console, num: nat, c: char, f: Flags) returns (written: nat, f': Flags)
    requires num < TWO64 && IsHexKind(c)
    modifies con
    ensures con.out == old(con.out) + HexText(num, c, f) && written == |HexText(num, c, f)| && f' == HexFlags(num, c, f)
  {
    written, f' := PrintHex(con, num, c, f);
  }

  method PutDecArg(con: Console, num: nat, isSigned: bool, f: Flags) returns (written: nat, f': Flags)
    requires num < TWO64
    modifies con
    ensures con.out == old(con.out) + DecText(num, isSigned, f) && written == |DecText(num, isSigned, f)|
    ensures f' == DecFlags(num, isSigned, f)
  {
    written, f' := PrintDecInt(con, num, isSigned, f);
  }

  /** The branches of vprintfmt that end a directive. */
  method PutConversion(con: Console, vl: VaList, c: char, f: Flags, k: nat, written0: nat, marks0: seq<nat>,
          ghost st: Cursor, ghost before: string)
    returns (written: nat, f': Flags, k': nat, marks: seq<nat>)
    requires st.flags == f && st.arg == k && |st.out| == written0 && st.marks == marks0 && con.out == before + st.out
    modifies con
    ensures con.out == before + Convert(vl, st, c).out
    ensures Convert(vl, st, c) == Cursor(st.pos, f', k', Convert(vl, st, c).out, marks) && written == |Convert(vl, st, c).out|
  {
    written, f', k', marks := written0, f, k, marks0;
    var a := vl(k);
    var n := 0;
    if IsIntKind(c) {
      n, f' := PutInteger(con, a, c, f);
      k' := k + 1;
    } else if c == 'n' {
      marks := marks + [written];
      k' := k + 1;
    } else if c == 's' {
      n := PutsWoNl(con, a.text);
      k' := k + 1;
    } else if c == 'c' {
      con.Putch((a.word % 256) as char);
      n, k' := 1, k + 1;
    } else {
      con.Putch(c);
      n := 1;
    }
    f' := f'.(inFormat := false);
    written := written + n;
  }

  /** vprintfmt: it halts on every format and returns the number of characters
      it has written. */
  method VPrintFmt(con: Console, fmt: CString, vl: VaList) returns (written: nat, marks: seq<nat>)
    modifies con
    ensures var r := Run(fmt, vl, START);
            con.out == old(con.out) + r.out && written == |r.out| && marks == r.marks
  {
    ghost var before := con.out;
    ghost var text := "";
    var f, k, i := NO_FLAGS, 0, 0;
    written, marks := 0, [];
    while At(fmt, i) != '\0'
      invariant i <= |fmt| && con.out == before + text && written == |text|
      invariant Run(fmt, vl, Cursor(i, f, k, text, marks)) == Run(fmt, vl, START)
      decreases |fmt| - i
    {
      ghost var st := Cursor(i, f, k, text, marks);
      i, f, k, written, marks := Round(con, fmt, vl, i, f, k, written, marks, st, before);
      text := Step(fmt, vl, st).out;
    }
  }

  /** The body of the loop. */
  method Round(con: Console, fmt: CString, vl: VaList, i0: nat, f0: Flags, k0: nat, written0: nat, marks0: seq<nat>,
          ghost st: Cursor, ghost before: string)
    returns (i: nat, f: Flags, k: nat, written: nat, marks: seq<nat>)
    requires i0 < |fmt| && st == Cursor(i0, f0, k0, st.out, marks0) && |st.out| == written0 && con.out == before + st.out
    modifies con
    ensures var r := Step(fmt, vl, st);
            con.out == before + r.out && r == Cursor(i, f, k, r.out, marks) && written == |r.out|
  {
    i, f, k, written, marks := i0, f0, k0, written0, marks0;
    var c := fmt[i];
    if f.inFormat {
      if c == '#' {
        f := f.(sharp := true);
      } else if c == '0' {
        f := f.(zero := true);
      } else if c == 'l' || c == 'z' || c == 't' || c == 'j' {
        f := f.(longflag := true);
      } else if c == '+' {
        f := f.(sign := true);
      } else if c == ' ' {
        f := f.(space := true);
      } else if c == '*' {
        f, k := f.(width := ToInt(vl(k).word)), k + 1;
      } else if '1' <= c <= '9' {
        ParseAdvances(fmt, i);
        var value, end := Strtol(fmt, i, 10);
        f, i := f.(width := ToInt(value)), end;
        i := i - 1;
      } else if c == '.' {
        i := i + 1;
        if At(fmt, i) == '*' {
          f, k := f.(prec := ToInt(vl(k).word)), k + 1;
        } else {
          var value, end := Strtol(fmt, i, 10);
          f, i := f.(prec := ToInt(value)), end;
          i := i - 1;
        }
      } else {
        written, f, k, marks := PutConversion(con, vl, c, f, k, written, marks, st, before);
      }
    } else if c == '%' {
      f := OPEN;
    } else {
      con.Putch(c);
      written := written + 1;
    }
    i := i + 1;
  }
}
