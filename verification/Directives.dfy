/** What a format means, piece by piece, and that the format loop prints it. */
module Directives {
  import opened Bits
  import opened Numerals
  import opened Printing
  import opened RoundTrip
  import opened Formatting

  const INT_LIMIT: nat := 0x8000_0000

  // ----------------------------------------------------------- tokens

  /** What one round of the loop consumes. */
  datatype Token =
    | Plain(c: char)
    | Open
    | Flag(c: char)
    | WidthIs(n: nat)
    | WidthArg
    | PrecIs(n: nat)
    | PrecArg
    | Length(c: char)
    | Kind(c: char)

  function Spelling(t: Token): (s: string)
    ensures s != ""
  {
    match t
    case Plain(c) => [c]
    case Open => "%"
    case Flag(c) => [c]
    case WidthIs(n) => Digits(n, 10, false)
    case WidthArg => "*"
    case PrecIs(n) => "." + Digits(n, 10, false)
    case PrecArg => ".*"
    case Length(c) => [c]
    case Kind(c) => [c]
  }

  predicate IsFlag(c: char) { c == '#' || c == '0' || c == '+' || c == ' ' }

  predicate IsLength(c: char) { c == 'l' || c == 'z' || c == 't' || c == 'j' }

  /** Every other character ends a directive; those that are no conversion print
      themselves. */
  predicate IsKind(c: char) {
    !IsFlag(c) && !IsLength(c) && !IsDigit(c, 10) && c != '*' && c != '.' && c != '\0'
  }

  function WithFlag(f: Flags, c: char): Flags {
    if c == '#' then f.(sharp := true)
    else if c == '0' then f.(zero := true)
    else if c == '+' then f.(sign := true)
    else f.(space := true)
  }

  predicate TokenOk(t: Token) {
    match t
    case Plain(c) => c != '%' && c != '\0'
    case WidthIs(n) => 1 <= n < INT_LIMIT
    case PrecIs(n) => n < INT_LIMIT
    case Flag(c) => IsFlag(c)
    case Length(c) => IsLength(c)
    case Kind(c) => IsKind(c)
    case _ => true
  }

  function Effect(vl: VaList, st: Cursor, t: Token): Cursor {
    var f := st.flags;
    match t
    case Plain(c) => Emit(st, [c])
    case Open => st.(flags := OPEN)
    case Flag(c) => st.(flags := WithFlag(f, c))
    case WidthIs(n) => st.(flags := f.(width := n))
    case WidthArg => st.(flags := f.(width := ToInt(vl(st.arg).word)), arg := st.arg + 1)
    case PrecIs(n) => st.(flags := f.(prec := n))
    case PrecArg => st.(flags := f.(prec := ToInt(vl(st.arg).word)), arg := st.arg + 1)
    case Length(_) => st.(flags := f.(longflag := true))
    case Kind(c) => Convert(vl, st, c)
  }

  /** The token can stand here: inside a directive or outside, and before
      `rest`, which must not go on with a digit after a number. */
  predicate Fits(st: Cursor, t: Token, rest: string) {
    && TokenOk(t)
    && (st.flags.inFormat <==> !t.Plain? && !t.Open?)
    && (t.WidthIs? || t.PrecIs? ==> rest == "" || !IsDigit(rest[0], 10))
  }

  lemma {:induction false} FirstDigit(n: nat)
    requires n > 0
    ensures '1' <= Digits(n, 10, false)[0] <= '9'
    decreases n
  {
    if n >= 10 {
      FirstDigit(n / 10);
    }
  }

  lemma FirstIsDigit(n: nat)
    ensures IsDigit(Digits(n, 10, false)[0], 10)
  {
    DigitsDenote(n, 10, false);
  }

  lemma ReadNumber(fmt: CString, i: nat, n: nat, rest: string)
    requires i <= |fmt| && fmt[i..] == Digits(n, 10, false) + rest && (rest == "" || !IsDigit(rest[0], 10))
    ensures Parse(fmt, i, 10) == Parsed(n, i + |Digits(n, 10, false)|)
  {
    DigitsDenote(n, 10, false);
    assert NumberText(0, "", Digits(n, 10, false)) == Digits(n, 10, false);
    ParseNumber(fmt, i, 0, "", Digits(n, 10, false), rest, 10);
  }

  lemma SmallInt(n: nat)
    requires n < INT_LIMIT
    ensures ToInt(n) == n
  {
  }

  lemma WidthStep(fmt: CString, vl: VaList, st: Cursor, n: nat, rest: string)
    requires st.pos < |fmt| && fmt[st.pos..] == Digits(n, 10, false) + rest && st.flags.inFormat
    requires 1 <= n < INT_LIMIT && (rest == "" || !IsDigit(rest[0], 10))
    ensures Step(fmt, vl, st) == st.(pos := st.pos + |Digits(n, 10, false)|, flags := st.flags.(width := n))
  {
    FirstDigit(n);
    assert fmt[st.pos] == fmt[st.pos..][0] == Digits(n, 10, false)[0];
    ReadNumber(fmt, st.pos, n, rest);
    SmallInt(n);
  }

  lemma AfterDot(fmt: CString, i: nat, digits: string, rest: string)
    requires i < |fmt| && fmt[i..] == "." + digits + rest && digits != ""
    ensures fmt[i] == '.' && fmt[i + 1..] == digits + rest && At(fmt, i + 1) == digits[0]
  {
    var tail := fmt[i..];
    assert fmt[i] == tail[0];
    assert tail[1..] == digits + rest;
    assert fmt[i + 1] == tail[1];
  }

  lemma PrecStep(fmt: CString, vl: VaList, st: Cursor, n: nat, rest: string)
    requires st.pos < |fmt| && fmt[st.pos..] == "." + Digits(n, 10, false) + rest && st.flags.inFormat
    requires n < INT_LIMIT && (rest == "" || !IsDigit(rest[0], 10))
    ensures Step(fmt, vl, st) == st.(pos := st.pos + 1 + |Digits(n, 10, false)|, flags := st.flags.(prec := n))
  {
    AfterDot(fmt, st.pos, Digits(n, 10, false), rest);
    FirstIsDigit(n);
    ReadNumber(fmt, st.pos + 1, n, rest);
    DotStep(fmt, vl, st, n);
  }

  lemma DotStep(fmt: CString, vl: VaList, st: Cursor, n: nat)
    requires st.pos < |fmt| && fmt[st.pos] == '.' && At(fmt, st.pos + 1) != '*' && st.flags.inFormat
    requires n < INT_LIMIT && Parse(fmt, st.pos + 1, 10).value == n
    ensures Step(fmt, vl, st) == st.(pos := Parse(fmt, st.pos + 1, 10).end, flags := st.flags.(prec := n))
  {
    SmallInt(n);
  }

  /** One round of the loop consumes exactly one token and has its effect. */
  lemma TokenStep(fmt: CString, vl: VaList, st: Cursor, t: Token, rest: string)
    requires st.pos < |fmt| && fmt[st.pos..] == Spelling(t) + rest && Fits(st, t, rest)
    ensures Step(fmt, vl, st) == Effect(vl, st, t).(pos := st.pos + |Spelling(t)|)
  {
    var tail := fmt[st.pos..];
    assert fmt[st.pos] == tail[0] == Spelling(t)[0];
    match t
    case WidthIs(n) => WidthStep(fmt, vl, st, n, rest);
    case PrecIs(n) => PrecStep(fmt, vl, st, n, rest);
    case PrecArg => assert At(fmt, st.pos + 1) == tail[1] == '*';
    case _ =>
  }

  // ----------------------------------------------------------- sequences of tokens

  function Spell(ts: seq<Token>): string {
    if ts == [] then "" else Spelling(ts[0]) + Spell(ts[1..])
  }

  function Effects(vl: VaList, st: Cursor, ts: seq<Token>): Cursor
    decreases |ts|
  {
    if ts == [] then st else Effects(vl, Effect(vl, st, ts[0]), ts[1..])
  }

  predicate StaysOpen(t: Token) { !t.Plain? && !t.Kind? }

  /** The tokens make a format when read inside or outside a directive. */
  predicate WellFormed(ts: seq<Token>, inFormat: bool)
    decreases |ts|
  {
    if ts == [] then !inFormat
    else
      && TokenOk(ts[0])
      && (inFormat <==> !ts[0].Plain? && !ts[0].Open?)
      && (ts[0].WidthIs? || ts[0].PrecIs? ==> |ts| > 1 && !IsDigit(Spelling(ts[1])[0], 10))
      && WellFormed(ts[1..], StaysOpen(ts[0]))
  }

  lemma EffectOpens(vl: VaList, st: Cursor, t: Token)
    requires Fits(st, t, "")
    ensures Effect(vl, st, t).flags.inFormat <==> StaysOpen(t)
    ensures Effect(vl, st, t).pos == st.pos
  {
    if t.Kind? { ConvertCloses(vl, st, t.c); }
  }

  lemma ConvertCloses(vl: VaList, st: Cursor, c: char)
    ensures !Convert(vl, st, c).flags.inFormat && Convert(vl, st, c).pos == st.pos
  {
  }

  lemma NextSpelling(ts: seq<Token>)
    requires |ts| > 1
    ensures Spell(ts[1..]) != "" && Spell(ts[1..])[0] == Spelling(ts[1])[0]
  {
    assert ts[1..][0] == ts[1];
  }

  /** The loop gives every token of a format its effect, in order. */
  lemma {:induction false} RunTokens(fmt: CString, vl: VaList, st: Cursor, ts: seq<Token>)
    requires st.pos <= |fmt| && fmt[st.pos..] == Spell(ts) && WellFormed(ts, st.flags.inFormat)
    ensures Run(fmt, vl, st) == Effects(vl, st, ts).(pos := |fmt|)
    decreases |ts|
  {
    if ts == [] {
      assert |fmt[st.pos..]| == 0;
    } else {
      var t, rest := ts[0], Spell(ts[1..]);
      if |ts| > 1 { NextSpelling(ts); }
      TokenStep(fmt, vl, st, t, rest);
      EffectOpens(vl, st, t);
      var next := Effect(vl, st, t).(pos := st.pos + |Spelling(t)|);
      assert fmt[next.pos..] == fmt[st.pos..][|Spelling(t)|..] == rest;
      RunTokens(fmt, vl, next, ts[1..]);
      EffectsAt(vl, Effect(vl, st, t), next.pos, ts[1..]);
    }
  }

  /** Effects do not depend on the position. */
  lemma {:induction false} EffectsAt(vl: VaList, st: Cursor, p: nat, ts: seq<Token>)
    ensures Effects(vl, st.(pos := p), ts) == Effects(vl, st, ts).(pos := p)
    decreases |ts|
  {
    if ts != [] {
      EffectAt(vl, st, p, ts[0]);
      EffectsAt(vl, Effect(vl, st, ts[0]), p, ts[1..]);
    }
  }

  lemma EffectAt(vl: VaList, st: Cursor, p: nat, t: Token)
    ensures Effect(vl, st.(pos := p), t) == Effect(vl, st, t).(pos := p)
  {
  }

  lemma {:induction false} EffectsAppend(vl: VaList, st: Cursor, a: seq<Token>, b: seq<Token>)
    ensures Effects(vl, st, a + b) == Effects(vl, Effects(vl, st, a), b)
    decreases |a|
  {
    if a == [] {
      assert a + b == b;
    } else {
      assert (a + b)[1..] == a[1..] + b;
      EffectsAppend(vl, Effect(vl, st, a[0]), a[1..], b);
    }
  }

  lemma {:induction false} SpellAppend(a: seq<Token>, b: seq<Token>)
    ensures Spell(a + b) == Spell(a) + Spell(b)
    decreases |a|
  {
    if a == [] {
      assert a + b == b;
    } else {
      assert (a + b)[1..] == a[1..] + b;
      SpellAppend(a[1..], b);
    }
  }

  // ----------------------------------------------------------- pieces of a format

  datatype Size = Default | Fixed(n: nat) | Star

  /** Text to be copied, or one conversion. */
  datatype Piece =
    | Text(text: string)
    | Directive(flags: string, width: Size, prec: Size, length: string, kind: char)

  predicate PieceOk(p: Piece) {
    match p
    case Text(s) => forall k :: 0 <= k < |s| ==> s[k] != '%' && s[k] != '\0'
    case Directive(flags, w, q, length, kind) =>
      && (forall k :: 0 <= k < |flags| ==> IsFlag(flags[k])) && (forall k :: 0 <= k < |length| ==> IsLength(length[k]))
      && (w.Fixed? ==> 1 <= w.n < INT_LIMIT) && (q.Fixed? ==> q.n < INT_LIMIT) && IsKind(kind)
  }

  function FlagTokens(s: string): seq<Token> {
    if s == "" then [] else [Flag(s[0])] + FlagTokens(s[1..])
  }

  function LengthTokens(s: string): seq<Token> {
    if s == "" then [] else [Length(s[0])] + LengthTokens(s[1..])
  }

  function WidthTokens(w: Size): seq<Token> {
    match w
    case Default => []
    case Fixed(n) => [WidthIs(n)]
    case Star => [WidthArg]
  }

  function PrecTokens(q: Size): seq<Token> {
    match q
    case Default => []
    case Fixed(n) => [PrecIs(n)]
    case Star => [PrecArg]
  }

  function PlainTokens(s: string): (ts: seq<Token>) {
    if s == "" then [] else [Plain(s[0])] + PlainTokens(s[1..])
  }

  /** A directive is spelled: %, flags, any of them in any order, width,
      precision, length letters, conversion. */
  function Tokens(p: Piece): seq<Token> {
    match p
    case Text(s) => PlainTokens(s)
    case Directive(flags, w, q, length, kind) =>
      [Open] + FlagTokens(flags) + WidthTokens(w) + PrecTokens(q) + LengthTokens(length) + [Kind(kind)]
  }

  function Source(ps: seq<Piece>): string {
    if ps == [] then "" else Spell(Tokens(ps[0])) + Source(ps[1..])
  }

  /** The value of a width or precision, with the arguments it takes. */
  function SizeValue(vl: VaList, k: nat, w: Size, default: int): (int, nat) {
    match w
    case Default => (default, k)
    case Fixed(n) => (n, k)
    case Star => (ToInt(vl(k).word), k + 1)
  }

  /** The flags that occur in a string. */
  function FlagsIn(s: string, long: bool, width: int, prec: int): Flags {
    Flags(true, long, '#' in s, '0' in s, ' ' in s, '+' in s, width, prec)
  }

  /** What a piece means: text stands for itself; a directive takes its width
      and precision, those given by a star from the arguments, then converts
      the next argument under the flags that occur in it, as a long if it has
      a length letter. */
  function Meaning(vl: VaList, st: Cursor, p: Piece): Cursor {
    match p
    case Text(s) => st.(out := st.out + s)
    case Directive(flags, w, q, length, kind) =>
      var (width, k) := SizeValue(vl, st.arg, w, 0);
      var (prec, k') := SizeValue(vl, k, q, -1);
      Convert(vl, st.(flags := FlagsIn(flags, length != "", width, prec), arg := k'), kind)
  }

  function Meanings(vl: VaList, st: Cursor, ps: seq<Piece>): Cursor
    decreases |ps|
  {
    if ps == [] then st else Meanings(vl, Meaning(vl, st, ps[0]), ps[1..])
  }

  function AllTokens(ps: seq<Piece>): seq<Token> {
    if ps == [] then [] else Tokens(ps[0]) + AllTokens(ps[1..])
  }

  /** Tokens that can stand behind a number. */
  predicate EndsNumber(ts: seq<Token>) {
    ts != [] && !IsDigit(Spelling(ts[0])[0], 10) && WellFormed(ts, true)
  }

  lemma Prepend(t: Token, ts: seq<Token>)
    requires TokenOk(t) && StaysOpen(t) && t != Open && WellFormed(ts, true)
    requires t.WidthIs? || t.PrecIs? ==> EndsNumber(ts)
    ensures WellFormed([t] + ts, true)
  {
    var all := [t] + ts;
    assert all[1..] == ts;
    if ts != [] { assert all[1] == ts[0]; }
  }

  lemma {:induction false} LengthWellFormed(s: string, ts: seq<Token>)
    requires (forall k :: 0 <= k < |s| ==> IsLength(s[k])) && EndsNumber(ts)
    ensures EndsNumber(LengthTokens(s) + ts)
    decreases |s|
  {
    if s == "" {
      assert LengthTokens(s) + ts == ts;
    } else {
      LengthWellFormed(s[1..], ts);
      var more := LengthTokens(s[1..]) + ts;
      Prepend(Length(s[0]), more);
      assert LengthTokens(s) + ts == [Length(s[0])] + more;
    }
  }

  lemma SizesWellFormed(w: Size, q: Size, ts: seq<Token>)
    requires (w.Fixed? ==> 1 <= w.n < INT_LIMIT) && (q.Fixed? ==> q.n < INT_LIMIT) && EndsNumber(ts)
    ensures WellFormed(WidthTokens(w) + (PrecTokens(q) + ts), true)
  {
    assert [] + ts == ts;
    match q {
      case Default =>
      case Fixed(n) => Prepend(PrecIs(n), ts);
      case Star => Prepend(PrecArg, ts);
    }
    var more := PrecTokens(q) + ts;
    assert EndsNumber(more);
    assert [] + more == more;
    match w {
      case Default =>
      case Fixed(n) => Prepend(WidthIs(n), more);
      case Star => Prepend(WidthArg, more);
    }
  }

  lemma {:induction false} FlagsWellFormed(s: string, ts: seq<Token>)
    requires (forall k :: 0 <= k < |s| ==> IsFlag(s[k])) && WellFormed(ts, true)
    ensures WellFormed(FlagTokens(s) + ts, true)
    decreases |s|
  {
    if s == "" {
      assert FlagTokens(s) + ts == ts;
    } else {
      FlagsWellFormed(s[1..], ts);
      var more := FlagTokens(s[1..]) + ts;
      Prepend(Flag(s[0]), more);
      assert FlagTokens(s) + ts == [Flag(s[0])] + more;
    }
  }

  lemma OpenWellFormed(ts: seq<Token>)
    requires WellFormed(ts, true)
    ensures WellFormed([Open] + ts, false)
  {
    assert ([Open] + ts)[1..] == ts;
  }

  lemma KindWellFormed(kind: char, ts: seq<Token>)
    requires IsKind(kind) && WellFormed(ts, false)
    ensures EndsNumber([Kind(kind)] + ts)
  {
    assert ([Kind(kind)] + ts)[1..] == ts;
  }

  /** Concatenation may be grouped from the right. */
  lemma Grouped<T>(a: seq<T>, b: seq<T>, w: seq<T>, q: seq<T>, l: seq<T>, k: seq<T>, ts: seq<T>)
    ensures (a + b + w + q + l + k) + ts == a + (b + (w + (q + (l + (k + ts)))))
  {
  }

  lemma {:induction false} PlainWellFormed(s: string, ts: seq<Token>)
    requires (forall k :: 0 <= k < |s| ==> s[k] != '%' && s[k] != '\0') && WellFormed(ts, false)
    ensures WellFormed(PlainTokens(s) + ts, false)
    decreases |s|
  {
    if s == "" {
      assert PlainTokens(s) + ts == ts;
    } else {
      PlainWellFormed(s[1..], ts);
      assert (PlainTokens(s) + ts)[1..] == PlainTokens(s[1..]) + ts;
    }
  }

  lemma PieceWellFormed(p: Piece, ts: seq<Token>)
    requires PieceOk(p) && WellFormed(ts, false)
    ensures WellFormed(Tokens(p) + ts, false)
  {
    match p
    case Text(s) => PlainWellFormed(s, ts);
    case Directive(flags, w, q, length, kind) =>
      var l := LengthTokens(length) + ([Kind(kind)] + ts);
      KindWellFormed(kind, ts);
      LengthWellFormed(length, [Kind(kind)] + ts);
      SizesWellFormed(w, q, l);
      FlagsWellFormed(flags, WidthTokens(w) + (PrecTokens(q) + l));
      OpenWellFormed(FlagTokens(flags) + (WidthTokens(w) + (PrecTokens(q) + l)));
      Grouped([Open], FlagTokens(flags), WidthTokens(w), PrecTokens(q), LengthTokens(length), [Kind(kind)], ts);
  }

  lemma {:induction false} PlainEffects(vl: VaList, st: Cursor, s: string)
    requires !st.flags.inFormat
    ensures Effects(vl, st, PlainTokens(s)) == st.(out := st.out + s)
    decreases |s|
  {
    if s == "" {
      assert st.out + s == st.out;
    } else {
      var ts, st' := PlainTokens(s), Emit(st, [s[0]]);
      assert ts[0] == Plain(s[0]) && ts[1..] == PlainTokens(s[1..]);
      assert st' == st.(out := st.out + [s[0]]);
      PlainEffects(vl, st', s[1..]);
      FirstThenRest(st.out, s);
    }
  }

  lemma FirstThenRest(out: string, s: string)
    requires s != ""
    ensures out + [s[0]] + s[1..] == out + s
  {
  }

  lemma OneEffect(vl: VaList, st: Cursor, t: Token)
    ensures Effects(vl, st, [t]) == Effect(vl, st, t) && Effects(vl, st, []) == st
  {
    assert [t][1..] == [];
  }

  lemma DirectiveEffects(vl: VaList, st: Cursor, p: Piece)
    requires p.Directive? && PieceOk(p) && !st.flags.inFormat
    ensures Effects(vl, st, Tokens(p)) == Meaning(vl, st, p)
  {
    var o, f, w, q := [Open], FlagTokens(p.flags), WidthTokens(p.width), PrecTokens(p.prec);
    var l, k := LengthTokens(p.length), [Kind(p.kind)];
    var s0 := st.(flags := OPEN);
    var s1 := st.(flags := FlagsIn(p.flags, false, 0, -1));
    var s2 := Effects(vl, s1, w);
    var s3 := Effects(vl, s2, q);
    var s4 := s3.(flags := s3.flags.(longflag := p.length != ""));
    var (width, n) := SizeValue(vl, st.arg, p.width, 0);
    var (prec, n') := SizeValue(vl, n, p.prec, -1);
    OneEffect(vl, st, Open);
    FlagEffects(vl, s0, p.flags);
    WidthEffects(vl, s1, p.width);
    PrecEffects(vl, s2, p.prec);
    LengthEffects(vl, s3, p.length);
    DirectiveAs(vl, st, p, n, n', width, prec);
    assert s4 == st.(flags := FlagsIn(p.flags, p.length != "", width, prec), arg := n');
    OneEffect(vl, s4, Kind(p.kind));
    EffectsAppend(vl, st, o, f);
    EffectsAppend(vl, st, o + f, w);
    EffectsAppend(vl, st, o + f + w, q);
    EffectsAppend(vl, st, o + f + w + q, l);
    EffectsAppend(vl, st, o + f + w + q + l, k);
  }

  /** The flags of f and those in s. */
  function Also(f: Flags, s: string): Flags {
    f.(sharp := f.sharp || '#' in s, zero := f.zero || '0' in s, sign := f.sign || '+' in s, space := f.space || ' ' in s)
  }

  lemma {:induction false} FlagEffects(vl: VaList, st: Cursor, s: string)
    requires forall k :: 0 <= k < |s| ==> IsFlag(s[k])
    ensures Effects(vl, st, FlagTokens(s)) == st.(flags := Also(st.flags, s))
    decreases |s|
  {
    if s != "" {
      var ts, st' := FlagTokens(s), st.(flags := WithFlag(st.flags, s[0]));
      assert ts[0] == Flag(s[0]) && ts[1..] == FlagTokens(s[1..]);
      FlagEffects(vl, st', s[1..]);
      AlsoMore(st.flags, s);
    }
  }

  lemma AlsoMore(f: Flags, s: string)
    requires s != "" && IsFlag(s[0])
    ensures Also(WithFlag(f, s[0]), s[1..]) == Also(f, s)
  {
    assert s == [s[0]] + s[1..];
  }

  lemma {:induction false} LengthEffects(vl: VaList, st: Cursor, s: string)
    ensures Effects(vl, st, LengthTokens(s)) == st.(flags := st.flags.(longflag := st.flags.longflag || s != ""))
    decreases |s|
  {
    if s != "" {
      var ts, st' := LengthTokens(s), st.(flags := st.flags.(longflag := true));
      assert ts[0] == Length(s[0]) && ts[1..] == LengthTokens(s[1..]);
      LengthEffects(vl, st', s[1..]);
    }
  }

  lemma WidthEffects(vl: VaList, st: Cursor, w: Size)
    requires st.flags.width == 0
    ensures var (width, k) := SizeValue(vl, st.arg, w, 0);
            Effects(vl, st, WidthTokens(w)) == st.(flags := st.flags.(width := width), arg := k)
  {
    match w
    case Default =>
    case Fixed(n) => OneEffect(vl, st, WidthIs(n));
    case Star => OneEffect(vl, st, WidthArg);
  }

  lemma PrecEffects(vl: VaList, st: Cursor, q: Size)
    requires st.flags.prec == -1
    ensures var (prec, k) := SizeValue(vl, st.arg, q, -1);
            Effects(vl, st, PrecTokens(q)) == st.(flags := st.flags.(prec := prec), arg := k)
  {
    match q
    case Default =>
    case Fixed(n) => OneEffect(vl, st, PrecIs(n));
    case Star => OneEffect(vl, st, PrecArg);
  }

  lemma {:induction false} PiecesAsTokens(vl: VaList, st: Cursor, ps: seq<Piece>)
    requires (forall k :: 0 <= k < |ps| ==> PieceOk(ps[k])) && !st.flags.inFormat
    ensures Spell(AllTokens(ps)) == Source(ps) && WellFormed(AllTokens(ps), false)
    ensures Effects(vl, st, AllTokens(ps)) == Meanings(vl, st, ps)
    decreases |ps|
  {
    if ps != [] {
      var p, ts := ps[0], AllTokens(ps[1..]);
      var st' := Meaning(vl, st, p);
      if p.Text? { PlainEffects(vl, st, p.text); } else { DirectiveEffects(vl, st, p); }
      PiecesAsTokens(vl, st', ps[1..]);
      SpellAppend(Tokens(p), ts);
      EffectsAppend(vl, st, Tokens(p), ts);
      PieceWellFormed(p, ts);
    }
  }

  /** Of every well-formed format vprintfmt prints the meaning of its pieces,
      one after the other, each conversion taking the arguments that the
      pieces before it have left. */
  lemma FormatMeans(fmt: CString, vl: VaList, ps: seq<Piece>)
    requires fmt == Source(ps) && forall k :: 0 <= k < |ps| ==> PieceOk(ps[k])
    ensures Run(fmt, vl, START) == Meanings(vl, START, ps).(pos := |fmt|)
  {
    PiecesAsTokens(vl, START, ps);
    assert fmt[0..] == fmt;
    RunTokens(fmt, vl, START, AllTokens(ps));
  }

  // ----------------------------------------------------------- formats and numbers

  /** Which argument a directive at the start of a format converts, */
  function ValueIndex(vl: VaList, d: Piece): nat
    requires d.Directive?
  {
    SizeValue(vl, SizeValue(vl, 0, d.width, 0).1, d.prec, -1).1
  }

  /** and under which flags. */
  function FlagsOf(vl: VaList, d: Piece): Flags
    requires d.Directive?
  {
    var width := SizeValue(vl, 0, d.width, 0);
    FlagsIn(d.flags, d.length != "", width.0, SizeValue(vl, width.1, d.prec, -1).0)
  }

  lemma OneDirective(fmt: CString, vl: VaList, d: Piece)
    requires d.Directive? && PieceOk(d) && IsIntKind(d.kind) && fmt == Source([d])
    ensures Run(fmt, vl, START).out == IntText(vl(ValueIndex(vl, d)), d.kind, FlagsOf(vl, d))
  {
    FormatMeans(fmt, vl, [d]);
    var st := Meaning(vl, START, d);
    assert [d][1..] == [];
    assert Meanings(vl, START, [d]) == Meanings(vl, st, []) == st;
    assert "" + IntText(vl(ValueIndex(vl, d)), d.kind, FlagsOf(vl, d)) == IntText(vl(ValueIndex(vl, d)), d.kind, FlagsOf(vl, d));
  }

  // What is printed, from the characters of the format alone.

  function WidthText(w: Size): string {
    match w
    case Default => ""
    case Fixed(n) => Digits(n, 10, false)
    case Star => "*"
  }

  function PrecText(q: Size): string {
    match q
    case Default => ""
    case Fixed(n) => "." + Digits(n, 10, false)
    case Star => ".*"
  }

  lemma {:induction false} SpellFlags(s: string)
    ensures Spell(FlagTokens(s)) == s
    decreases |s|
  {
    if s != "" {
      SpellFlags(s[1..]);
      assert FlagTokens(s)[1..] == FlagTokens(s[1..]);
    }
  }

  lemma {:induction false} SpellLength(s: string)
    ensures Spell(LengthTokens(s)) == s
    decreases |s|
  {
    if s != "" {
      SpellLength(s[1..]);
      assert LengthTokens(s)[1..] == LengthTokens(s[1..]);
    }
  }

  lemma SpellOne(t: Token)
    ensures Spell([t]) == Spelling(t) && Spell([]) == ""
  {
    assert [t][1..] == [];
  }

  lemma SpellSizes(w: Size, q: Size)
    ensures Spell(WidthTokens(w)) == WidthText(w) && Spell(PrecTokens(q)) == PrecText(q)
  {
    match w {
      case Default =>
      case Fixed(n) => SpellOne(WidthIs(n));
      case Star => SpellOne(WidthArg);
    }
    match q {
      case Default =>
      case Fixed(n) => SpellOne(PrecIs(n));
      case Star => SpellOne(PrecArg);
    }
  }

  lemma SourceOf(d: Piece)
    requires d.Directive?
    ensures Source([d]) == "%" + d.flags + WidthText(d.width) + PrecText(d.prec) + d.length + [d.kind]
  {
    var o, f, w, q := [Open], FlagTokens(d.flags), WidthTokens(d.width), PrecTokens(d.prec);
    var l, k := LengthTokens(d.length), [Kind(d.kind)];
    SpellOne(Open);
    SpellFlags(d.flags);
    SpellSizes(d.width, d.prec);
    SpellLength(d.length);
    SpellOne(Kind(d.kind));
    SpellAppend(o, f);
    SpellAppend(o + f, w);
    SpellAppend(o + f + w, q);
    SpellAppend(o + f + w + q, l);
    SpellAppend(o + f + w + q + l, k);
    assert [d][1..] == [];
    assert Spell(Tokens(d)) + "" == Spell(Tokens(d));
  }

  lemma FlagsAre(vl: VaList, d: Piece)
    requires d.Directive?
    ensures var width := match d.width case Default => 0 case Fixed(n) => n case Star => ToInt(vl(0).word);
            var k := if d.width.Star? then 1 else 0;
            var prec := match d.prec case Default => -1 case Fixed(n) => n case Star => ToInt(vl(k).word);
            && ValueIndex(vl, d) == (if d.prec.Star? then k + 1 else k)
            && FlagsOf(vl, d) ==
               Flags(true, d.length != "", '#' in d.flags, '0' in d.flags, ' ' in d.flags, '+' in d.flags, width, prec)
  {
  }

  lemma DecimalText(a: Arg, c: char, f: Flags, num: nat)
    requires IsDecKind(c) && num == DecArg(a, f.longflag)
    ensures IsDecimal(IntText(a, c, f), num, c != 'u', f)
  {
    var isSigned := c != 'u';
    assert IntText(a, c, f) == DecText(num, isSigned, f);
    DecShown(num, isSigned, f);
  }

  lemma DecArgIs(a: Arg, long: bool)
    ensures DecArg(a, long) == (if long then a.word else ToInt(a.word)) % 0x1_0000_0000_0000_0000
  {
  }

  lemma HexadecimalText(a: Arg, c: char, f: Flags, num: nat)
    requires IsHexKind(c) && num == HexArg(a, c == 'p' || f.longflag)
    ensures IsHexadecimal(IntText(a, c, f), num, c, f)
  {
    assert IntText(a, c, f) == HexText(num, c, f);
    HexShown(num, c, f);
  }

  lemma HexArgIs(a: Arg, long: bool)
    ensures HexArg(a, long) == a.word % if long then 0x1_0000_0000_0000_0000 else 0x1_0000_0000
  {
  }

  /** A directive for a decimal number, by itself: the argument behind those for
      stars, a long if there is a length letter and an int otherwise, is printed as
      IsDecimal says, under the flags that occur, with the width and precision given. */
  lemma DecimalDirective(fmt: CString, vl: VaList, d: Piece)
    requires d.Directive? && PieceOk(d) && (d.kind == 'd' || d.kind == 'i' || d.kind == 'u')
    requires fmt == "%" + d.flags + WidthText(d.width) + PrecText(d.prec) + d.length + [d.kind]
    ensures var width := match d.width case Default => 0 case Fixed(n) => n case Star => ToInt(vl(0).word);
            var k := if d.width.Star? then 1 else 0;
            var prec := match d.prec case Default => -1 case Fixed(n) => n case Star => ToInt(vl(k).word);
            var word := vl(if d.prec.Star? then k + 1 else k).word;
            var f := Flags(true, d.length != "", '#' in d.flags, '0' in d.flags, ' ' in d.flags, '+' in d.flags, width, prec);
            IsDecimal(Run(fmt, vl, START).out, (if f.longflag then word else ToInt(word)) % 0x1_0000_0000_0000_0000,
                      d.kind != 'u', f)
  {
    SourceOf(d);
    OneDirective(fmt, vl, d);
    FlagsAre(vl, d);
    var a, f := vl(ValueIndex(vl, d)), FlagsOf(vl, d);
    DecArgIs(a, f.longflag);
    DecimalText(a, d.kind, f, DecArg(a, f.longflag));
  }

  /** The same for a hexadecimal number: a long if there is a length letter, and
      for %p always, otherwise an unsigned int. */
  lemma HexadecimalDirective(fmt: CString, vl: VaList, d: Piece)
    requires d.Directive? && PieceOk(d) && (d.kind == 'x' || d.kind == 'X' || d.kind == 'p')
    requires fmt == "%" + d.flags + WidthText(d.width) + PrecText(d.prec) + d.length + [d.kind]
    ensures var width := match d.width case Default => 0 case Fixed(n) => n case Star => ToInt(vl(0).word);
            var k := if d.width.Star? then 1 else 0;
            var prec := match d.prec case Default => -1 case Fixed(n) => n case Star => ToInt(vl(k).word);
            var word := vl(if d.prec.Star? then k + 1 else k).word;
            var f := Flags(true, d.length != "", '#' in d.flags, '0' in d.flags, ' ' in d.flags, '+' in d.flags, width, prec);
            var long := d.kind == 'p' || f.longflag;
            IsHexadecimal(Run(fmt, vl, START).out, word % if long then 0x1_0000_0000_0000_0000 else 0x1_0000_0000,
                          d.kind, f)
  {
    SourceOf(d);
    OneDirective(fmt, vl, d);
    FlagsAre(vl, d);
    var a, f := vl(ValueIndex(vl, d)), FlagsOf(vl, d);
    HexArgIs(a, d.kind == 'p' || f.longflag);
    HexadecimalText(a, d.kind, f, HexArg(a, d.kind == 'p' || f.longflag));
  }

  /** Any other directive: a string or (null), a character, the number of
      characters so far stored, or its own last character. */
  lemma OtherDirective(fmt: CString, vl: VaList, d: Piece)
    requires d.Directive? && PieceOk(d) && !IsIntKind(d.kind)
    requires fmt == "%" + d.flags + WidthText(d.width) + PrecText(d.prec) + d.length + [d.kind]
    ensures var k := (if d.width.Star? then 1 else 0) + if d.prec.Star? then 1 else 0;
            var r := Run(fmt, vl, START);
            && (d.kind == 's' ==> r.out == if vl(k).text.None? then "(null)" else vl(k).text.value)
            && (d.kind == 'c' ==> r.out == [(vl(k).word % 256) as char])
            && (d.kind == 'n' ==> r.out == "" && r.marks == [0])
            && (d.kind != 's' && d.kind != 'c' && d.kind != 'n' ==> r.out == [d.kind])
  {
    SourceOf(d);
    FormatMeans(fmt, vl, [d]);
    var st := Meaning(vl, START, d);
    assert [d][1..] == [];
    assert Meanings(vl, START, [d]) == Meanings(vl, st, []) == st;
    assert forall s: string :: "" + s == s;
  }

  /** Text without a percent sign is printed as it is. */
  lemma PlainFormat(fmt: CString, vl: VaList)
    requires forall k :: 0 <= k < |fmt| ==> fmt[k] != '%'
    ensures Run(fmt, vl, START).out == fmt
  {
    var p := Text(fmt);
    PlainSpelling(fmt);
    assert [p][1..] == [] && Spell(Tokens(p)) + "" == fmt;
    FormatMeans(fmt, vl, [p]);
    assert Meanings(vl, START, [p]) == Meanings(vl, Meaning(vl, START, p), []) == Meaning(vl, START, p);
    assert "" + fmt == fmt;
  }

  lemma {:induction false} PlainSpelling(s: string)
    ensures Spell(PlainTokens(s)) == s
    decreases |s|
  {
    if s != "" {
      PlainSpelling(s[1..]);
      assert PlainTokens(s)[1..] == PlainTokens(s[1..]);
    }
  }

  /** The arguments from the n-th on. */
  function Skip(vl: VaList, n: nat): VaList { (k: nat) => vl(k + n) }

  /** Counts of characters, n characters further on. */
  function Raised(marks: seq<nat>, n: nat): seq<nat> {
    seq(|marks|, (k: nat) requires k < |marks| => n + marks[k])
  }

  lemma RaisedAppend(a: seq<nat>, b: seq<nat>, m: nat, n: nat)
    ensures Raised(a + b, n) == Raised(a, n) + Raised(b, n)
    ensures Raised(Raised(a, m), n) == Raised(a, n + m)
  {
  }

  /** `last` is what `first` becomes when it comes behind `st`. */
  ghost predicate Behind(last: Cursor, st: Cursor, first: Cursor) {
    var ok :=
      last.out == st.out + first.out && last.arg == st.arg + first.arg && last.marks == st.marks + Raised(first.marks, |st.out|);
    ok
  }

  lemma BehindTwice(st: Cursor, first: Cursor, first': Cursor, rest: Cursor, last: Cursor, last': Cursor)
    requires Behind(first', st, first) && Behind(last, first, rest) && Behind(last', first', rest)
    ensures Behind(last', st, last)
  {
    RaisedAppend(first.marks, Raised(rest.marks, |first.out|), 0, |st.out|);
    RaisedAppend(rest.marks, [], |first.out|, |st.out|);
  }

  lemma NothingBehind(st: Cursor)
    ensures Behind(st, st, START)
  {
  }

  lemma TextBehind(st: Cursor, text: string)
    ensures Behind(st.(out := st.out + text), st, START.(out := "" + text))
  {
  }

  lemma ConvertMarks(vl: VaList, st: Cursor, f: Flags, k: nat, c: char)
    ensures var r := Convert(Skip(vl, st.arg), START.(flags := f, arg := k), c);
            Convert(vl, st.(flags := f, arg := st.arg + k), c).marks == st.marks + Raised(r.marks, |st.out|)
  {
    assert Raised([], |st.out|) == [] && st.marks + [] == st.marks;
    if c == 'n' && !IsIntKind(c) { assert Raised([] + [0], |st.out|) == [|st.out|]; }
  }

  lemma ConvertShift(vl: VaList, st: Cursor, f: Flags, k: nat, c: char)
    ensures var r := Convert(Skip(vl, st.arg), START.(flags := f, arg := k), c);
            var r' := Convert(vl, st.(flags := f, arg := st.arg + k), c);
            r'.out == st.out + r.out && r'.arg == st.arg + r.arg
  {
    assert Skip(vl, st.arg)(k) == vl(st.arg + k);
    if IsIntKind(c) {
      IntShift(vl, st, f, k, c);
    }
  }

  lemma IntShift(vl: VaList, st: Cursor, f: Flags, k: nat, c: char)
    requires IsIntKind(c)
    ensures var r := Convert(Skip(vl, st.arg), START.(flags := f, arg := k), c);
            var r' := Convert(vl, st.(flags := f, arg := st.arg + k), c);
            r'.out == st.out + r.out && r'.arg == st.arg + r.arg
  {
    IntConvert(Skip(vl, st.arg), START.(flags := f, arg := k), c);
    IntConvert(vl, st.(flags := f, arg := st.arg + k), c);
    EmptyBefore(IntText(vl(st.arg + k), c, f));
  }

  lemma EmptyBefore(s: string)
    ensures "" + s == s
  {
  }

  lemma IntConvert(vl: VaList, st: Cursor, c: char)
    requires IsIntKind(c)
    ensures Convert(vl, st, c).out == st.out + IntText(vl(st.arg), c, st.flags) && Convert(vl, st, c).arg == st.arg + 1
  {
  }

  lemma ConvertBehind(vl: VaList, st: Cursor, f: Flags, k: nat, c: char)
    ensures Behind(Convert(vl, st.(flags := f, arg := st.arg + k), c), st,
                   Convert(Skip(vl, st.arg), START.(flags := f, arg := k), c))
  {
    ConvertShift(vl, st, f, k, c);
    ConvertMarks(vl, st, f, k, c);
  }

  lemma DirectiveAs(vl: VaList, st: Cursor, p: Piece, k: nat, k': nat, width: int, prec: int)
    requires p.Directive? && SizeValue(vl, st.arg, p.width, 0) == (width, k) && SizeValue(vl, k, p.prec, -1) == (prec, k')
    ensures Meaning(vl, st, p)
            == Convert(vl, st.(flags := FlagsIn(p.flags, p.length != "", width, prec), arg := k'), p.kind)
  {
  }

  lemma MeaningShift(vl: VaList, st: Cursor, p: Piece)
    ensures Behind(Meaning(vl, st, p), st, Meaning(Skip(vl, st.arg), START, p))
  {
    if p.Text? {
      TextBehind(st, p.text);
    } else {
      var skip := Skip(vl, st.arg);
      var (width, k) := SizeValue(skip, 0, p.width, 0);
      var (prec, k') := SizeValue(skip, k, p.prec, -1);
      DirectiveAs(skip, START, p, k, k', width, prec);
      DirectiveAs(vl, st, p, st.arg + k, st.arg + k', width, prec);
      ConvertBehind(vl, st, FlagsIn(p.flags, p.length != "", width, prec), k', p.kind);
    }
  }

  lemma {:induction false} MeaningsShift(vl: VaList, st: Cursor, ps: seq<Piece>)
    ensures Behind(Meanings(vl, st, ps), st, Meanings(Skip(vl, st.arg), START, ps))
    decreases |ps|
  {
    if ps == [] {
      NothingBehind(st);
    } else {
      var skip := Skip(vl, st.arg);
      var first, first' := Meaning(skip, START, ps[0]), Meaning(vl, st, ps[0]);
      var rest := Meanings(Skip(vl, first'.arg), START, ps[1..]);
      MeaningShift(vl, st, ps[0]);
      SkipTwice(vl, st.arg, first.arg, ps[1..]);
      assert rest == Meanings(Skip(skip, first.arg), START, ps[1..]);
      MeaningsShift(skip, first, ps[1..]);
      MeaningsShift(vl, first', ps[1..]);
      BehindTwice(st, first, first', rest, Meanings(skip, first, ps[1..]), Meanings(vl, first', ps[1..]));
    }
  }

  lemma SkipTwice(vl: VaList, m: nat, n: nat, ps: seq<Piece>)
    ensures Meanings(Skip(Skip(vl, m), n), START, ps) == Meanings(Skip(vl, m + n), START, ps)
  {
    SameArguments(Skip(Skip(vl, m), n), Skip(vl, m + n), START, ps);
  }

  lemma {:induction false} SameArguments(vl: VaList, vl': VaList, st: Cursor, ps: seq<Piece>)
    requires forall k: nat :: vl(k) == vl'(k)
    ensures Meanings(vl, st, ps) == Meanings(vl', st, ps)
    decreases |ps|
  {
    if ps != [] {
      SameMeaning(vl, vl', st, ps[0]);
      SameArguments(vl, vl', Meaning(vl, st, ps[0]), ps[1..]);
    }
  }

  lemma SameMeaning(vl: VaList, vl': VaList, st: Cursor, p: Piece)
    requires forall k: nat :: vl(k) == vl'(k)
    ensures Meaning(vl, st, p) == Meaning(vl', st, p)
  {
    if p.Directive? {
      var (width, k) := SizeValue(vl, st.arg, p.width, 0);
      var (prec, k') := SizeValue(vl, k, p.prec, -1);
      assert SizeValue(vl', st.arg, p.width, 0) == (width, k);
      assert SizeValue(vl', k, p.prec, -1) == (prec, k');
      SameConvert(vl, vl', st.(flags := FlagsIn(p.flags, p.length != "", width, prec), arg := k'), p.kind);
    }
  }

  lemma SameConvert(vl: VaList, vl': VaList, st: Cursor, c: char)
    requires vl(st.arg) == vl'(st.arg)
    ensures Convert(vl, st, c) == Convert(vl', st, c)
  {
  }

  lemma {:induction false} MeaningsAppend(vl: VaList, st: Cursor, ps: seq<Piece>, qs: seq<Piece>)
    ensures Meanings(vl, st, ps + qs) == Meanings(vl, Meanings(vl, st, ps), qs)
    decreases |ps|
  {
    if ps == [] {
      assert ps + qs == qs;
    } else {
      var st' := Meaning(vl, st, ps[0]);
      assert (ps + qs)[1..] == ps[1..] + qs;
      MeaningsAppend(vl, st', ps[1..], qs);
    }
  }

  lemma {:induction false} SourceAppend(ps: seq<Piece>, qs: seq<Piece>)
    ensures Source(ps + qs) == Source(ps) + Source(qs)
    decreases |ps|
  {
    if ps == [] {
      assert ps + qs == qs;
    } else {
      assert (ps + qs)[1..] == ps[1..] + qs;
      SourceAppend(ps[1..], qs);
    }
  }

  /** One format behind another prints what each prints, the second with the
      arguments that the first has left; %n counts the characters of both. */
  lemma FormatsInSequence(fmt: CString, first: CString, second: CString, vl: VaList, ps: seq<Piece>, qs: seq<Piece>)
    requires (forall k :: 0 <= k < |ps| ==> PieceOk(ps[k])) && (forall k :: 0 <= k < |qs| ==> PieceOk(qs[k]))
    requires first == Source(ps) && second == Source(qs) && fmt == first + second
    ensures var r := Run(first, vl, START);
            var r' := Run(second, Skip(vl, r.arg), START);
            && Run(fmt, vl, START).out == r.out + r'.out
            && Run(fmt, vl, START).marks == r.marks + seq(|r'.marks|, (k: nat) requires k < |r'.marks| => |r.out| + r'.marks[k])
  {
    SourceAppend(ps, qs);
    MeaningsAppend(vl, START, ps, qs);
    FormatMeans(fmt, vl, ps + qs);
    FormatMeans(first, vl, ps);
    var r := Meanings(vl, START, ps);
    FormatMeans(second, Skip(vl, r.arg), qs);
    MeaningsShift(vl, r, qs);
    WhatIsBehind(Meanings(vl, r, qs), r, Meanings(Skip(vl, r.arg), START, qs));
  }

  lemma WhatIsBehind(last: Cursor, st: Cursor, first: Cursor)
    requires Behind(last, st, first)
    ensures last.out == st.out + first.out
    ensures last.marks == st.marks + seq(|first.marks|, (k: nat) requires k < |first.marks| => |st.out| + first.marks[k])
  {
  }

  /** Printing a long with %ld, or zd, td, jd, under any flags, width and precision, then reading
      the output with strtol in base 10, gives the long back. */
  lemma LongRoundTrip(fmt: CString, vl: VaList, d: Piece)
    requires d.Directive? && PieceOk(d) && (d.kind == 'd' || d.kind == 'i') && d.length != "" && fmt == Source([d])
    requires vl(ValueIndex(vl, d)).word % TWO64 != TWO63
    ensures var out, num := Run(fmt, vl, START).out, vl(ValueIndex(vl, d)).word % TWO64;
            NulFree(out) && Parse(out, 0, 10) == Parsed(Meant(num, true), |out|)
  {
    OneDirective(fmt, vl, d);
    DecReadsBack(vl(ValueIndex(vl, d)).word % TWO64, true, FlagsOf(vl, d));
  }

  /** strtol tells apart the decimal outputs of different numbers. */
  lemma UnsignedTextsDiffer(m: nat, n: nat, f: Flags)
    requires m < TWO64 && n < TWO64 && m != n && m > 0 && n > 0
    ensures DecText(m, false, f) != DecText(n, false, f)
  {
    UnsignedReadsBack(m, f);
    UnsignedReadsBack(n, f);
  }

  lemma UnsignedReadsBack(n: nat, f: Flags)
    requires 0 < n < TWO64
    ensures NulFree(DecText(n, false, f)) && Parse(DecText(n, false, f), 0, 10).value == n
  {
    var digits, p := Digits(n, 10, false), DecPrec(f);
    LayoutReadsBack(f.width - Max(|digits|, p) - 0, "", p - 0 - |digits|, n, 10, false);
  }

  /** %u without an l prints an unsigned int as itself if and only if it is
      below 2^31, whatever the other flags: the argument is fetched as an int
      and sign-extended. */
  lemma UnsignedIntExact(a: Arg, f: Flags)
    requires !f.longflag
    ensures var n := a.word % 0x1_0000_0000;
            IntText(a, 'u', f) == DecText(n, false, f) <==> n < INT_LIMIT
  {
    var n, num := a.word % 0x1_0000_0000, DecArg(a, false);
    SignExtended(a.word);
    assert IntText(a, 'u', f) == DecText(num, false, f);
    if n >= INT_LIMIT { UnsignedTextsDiffer(num, n, f); }
  }

  lemma SignExtended(word: nat)
    ensures var n := word % 0x1_0000_0000;
            ToWord(ToInt(word)) == if n < INT_LIMIT then n else TWO64 - 0x1_0000_0000 + n
  {
  }
}
