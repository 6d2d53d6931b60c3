/** The directive scanner of `strspn-1.c`: a loop that cuts a format string at each '%',
    copies the flags that follow into a fixed buffer and moves on past the conversion
    character. It overwrites the very buffer it is scanning. */
module Scanner {
  import opened CStrings

  /** The characters of "#-+.I 0123456789". */
  predicate IsFlag(c: char) {
    c == '#' || c == '-' || c == '+' || c == '.' || c == 'I' || c == ' ' || '0' <= c <= '9'
  }

  /** The second argument of `strspn`. */
  const FLAGS := "#-+.I 0123456789"

  lemma FlagIs(c: char)
    ensures IsFlag(c) <==> c in FLAGS
  {
    assert FLAGS[6] == '0' && FLAGS[7] == '1' && FLAGS[8] == '2' && FLAGS[9] == '3' && FLAGS[10] == '4';
    assert FLAGS[11] == '5' && FLAGS[12] == '6' && FLAGS[13] == '7' && FLAGS[14] == '8' && FLAGS[15] == '9';
    assert FLAGS[0] == '#' && FLAGS[1] == '-' && FLAGS[2] == '+' && FLAGS[3] == '.' && FLAGS[4] == 'I' && FLAGS[5] == ' ';
  }

  // ---------------------------------------------------------------- reading one character at a time

  /** Where a reading of the string stands: in text, or after a '%' and its flags. */
  datatype Mode = InText | InFlags

  function Next(mode: Mode, c: char): Mode {
    if (mode.InText? && c == '%') || (mode.InFlags? && IsFlag(c)) then InFlags else InText
  }

  /** Text is kept; a directive gives '%' if its conversion character is '%' and nothing
      otherwise. */
  function Emit(mode: Mode, c: char): string {
    match mode
    case InText => if c == '%' then "" else [c]
    case InFlags => if c == '%' then "%" else ""
  }

  function ModeAt(s: string, i: nat): Mode
    requires i <= |s|
  {
    if i == 0 then InText else Next(ModeAt(s, i - 1), s[i - 1])
  }

  function PrintedTo(s: string, i: nat): string
    requires i <= |s|
  {
    if i == 0 then "" else PrintedTo(s, i - 1) + Emit(ModeAt(s, i - 1), s[i - 1])
  }

  /** The meaning of a format string, independent of any tokenizing: a string that ends
      inside a directive prints one more '%'. */
  function Printed(s: string): string {
    PrintedTo(s, |s|) + AtEnd(ModeAt(s, |s|))
  }

  function AtEnd(mode: Mode): string { if mode.InFlags? then "%" else "" }

  /** Position `i` holds a '%' that opens a directive. */
  predicate Opens(s: string, i: nat)
    requires i < |s|
  {
    s[i] == '%' && ModeAt(s, i).InText?
  }

  lemma {:induction false} ReadText(s: string, b: nat, p: nat)
    requires b <= p <= |s| && ModeAt(s, b).InText? && forall i | b <= i < p :: s[i] != '%'
    ensures ModeAt(s, p).InText? && PrintedTo(s, p) == PrintedTo(s, b) + s[b..p]
  {
    if b < p {
      ReadText(s, b, p - 1);
      Longer(PrintedTo(s, b), s, b, p);
    }
  }

  lemma Longer(t: string, s: string, b: nat, p: nat)
    requires b < p <= |s|
    ensures t + s[b..p] == t + s[b..p - 1] + [s[p - 1]]
  {
    assert s[b..p] == s[b..p - 1] + [s[p - 1]];
  }

  lemma {:induction false} ReadFlags(s: string, p: nat, q: nat)
    requires p <= q <= |s| && ModeAt(s, p).InFlags? && forall i | p <= i < q :: IsFlag(s[i])
    ensures ModeAt(s, q).InFlags? && PrintedTo(s, q) == PrintedTo(s, p)
  {
    if p < q {
      ReadFlags(s, p, q - 1);
    }
  }

  // ---------------------------------------------------------------- what is printed

  /** What the rest of a string prints, read in this mode. */
  function Shown(mode: Mode, s: string): string
    decreases |s|
  {
    if s == "" then AtEnd(mode) else Emit(mode, s[0]) + Shown(Next(mode, s[0]), s[1..])
  }

  lemma {:induction false} ShownFrom(s: string, i: nat)
    requires i <= |s|
    ensures Printed(s) == PrintedTo(s, i) + Shown(ModeAt(s, i), s[i..])
    decreases |s| - i
  {
    if i < |s| {
      ShownFrom(s, i + 1);
      ShownNext(s, i);
      Regroup(PrintedTo(s, i), Emit(ModeAt(s, i), s[i]), Shown(ModeAt(s, i + 1), s[i + 1..]));
    } else {
      assert s[i..] == "";
    }
  }

  lemma ShownNext(s: string, i: nat)
    requires i < |s|
    ensures Shown(ModeAt(s, i), s[i..]) == Emit(ModeAt(s, i), s[i]) + Shown(ModeAt(s, i + 1), s[i + 1..])
  {
    assert s[i..][0] == s[i] && s[i..][1..] == s[i + 1..];
  }

  lemma Regroup(x: string, y: string, z: string)
    ensures (x + y) + z == x + (y + z)
  {}

  lemma PrintedIsShown(s: string)
    ensures Printed(s) == Shown(InText, s)
  {
    ShownFrom(s, 0);
    assert s[0..] == s && PrintedTo(s, 0) == "";
  }

  lemma ShownCons(mode: Mode, c: char, rest: string)
    ensures Shown(mode, [c] + rest) == Emit(mode, c) + Shown(Next(mode, c), rest)
  {
    assert ([c] + rest)[1..] == rest;
  }

  lemma {:induction false} ShownText(text: string, rest: string)
    requires '%' !in text
    ensures Shown(InText, text + rest) == text + Shown(InText, rest)
  {
    if text == "" {
      assert text + rest == rest;
    } else {
      assert text[0] in text;
      ShownText(text[1..], rest);
      TextKept(text[0], text[1..] + rest, text[1..], Shown(InText, rest));
      assert text + rest == [text[0]] + (text[1..] + rest);
      assert text == [text[0]] + text[1..];
    }
  }

  lemma TextKept(c: char, rest: string, text: string, shown: string)
    requires c != '%' && Shown(InText, rest) == text + shown
    ensures Shown(InText, [c] + rest) == ([c] + text) + shown
  {
    ShownCons(InText, c, rest);
    Regroup([c], text, shown);
  }

  lemma {:induction false} ShownFlags(flags: string, rest: string)
    requires forall c | c in flags :: c in FLAGS
    ensures Shown(InFlags, flags + rest) == Shown(InFlags, rest)
  {
    if flags == "" {
      assert flags + rest == rest;
    } else {
      assert flags[0] in flags;
      ShownFlags(flags[1..], rest);
      FlagSkipped(flags[0], flags[1..] + rest);
      assert flags + rest == [flags[0]] + (flags[1..] + rest);
    }
  }

  lemma FlagSkipped(c: char, rest: string)
    requires c in FLAGS
    ensures Shown(InFlags, [c] + rest) == Shown(InFlags, rest)
  {
    FlagIs(c);
    ShownCons(InFlags, c, rest);
  }

  /** Text is printed as it is. */
  lemma PrintedText(text: string, rest: string)
    requires '%' !in text
    ensures Printed(text + rest) == text + Printed(rest)
  {
    PrintedIsShown(text + rest);
    PrintedIsShown(rest);
    ShownText(text, rest);
  }

  /** After a '%' and flags, a conversion character prints itself if it is '%', and
      nothing if not. */
  lemma PrintedDirective(flags: string, c: char, rest: string)
    requires (forall x | x in flags :: x in FLAGS) && c !in FLAGS
    ensures Printed("%" + (flags + ([c] + rest))) == (if c == '%' then "%" else "") + Printed(rest)
  {
    PrintedIsShown("%" + (flags + ([c] + rest)));
    PrintedIsShown(rest);
    ShownCons(InText, '%', flags + ([c] + rest));
    ShownFlags(flags, [c] + rest);
    FlagIs(c);
    ShownCons(InFlags, c, rest);
  }

  /** A directive that the string ends in prints '%'; the empty string prints nothing. */
  lemma PrintedTrailing(flags: string)
    requires forall x | x in flags :: x in FLAGS
    ensures Printed("%" + flags) == "%" && Printed("") == ""
  {
    PrintedIsShown("%" + flags);
    ShownCons(InText, '%', flags);
    ShownFlags(flags, "");
    assert flags + "" == flags;
  }

  // ---------------------------------------------------------------- tokens

  /** What one turn of the loop finds: text, then '%' with its flags, then a conversion
      character; the last turn finds a trailing '%' directive or text alone. */
  datatype Token =
    | Directive(literal: string, dest: string, conversion: char)
    | Trailing(literal: string, dest: string)
    | Tail(literal: string)

  /** The first '%' at or after `b`, or the end. */
  function Percent(s: string, b: nat): (p: nat)
    requires b <= |s|
    ensures b <= p <= |s| && (p < |s| ==> s[p] == '%')
    decreases |s| - b
  {
    if b == |s| || s[b] == '%' then b else Percent(s, b + 1)
  }

  lemma {:induction false} PercentIsFirst(s: string, b: nat)
    requires b <= |s|
    ensures forall i | b <= i < Percent(s, b) :: s[i] != '%'
    decreases |s| - b
  {
    if b < |s| && s[b] != '%' { PercentIsFirst(s, b + 1); }
  }

  /** The first character at or after `p` that is not a flag, or the end. */
  function FlagsEnd(s: string, p: nat): (q: nat)
    requires p <= |s|
    ensures p <= q <= |s| && (q < |s| ==> !IsFlag(s[q]))
    decreases |s| - p
  {
    if p == |s| || !IsFlag(s[p]) then p else FlagsEnd(s, p + 1)
  }

  lemma {:induction false} FlagsBeforeEnd(s: string, p: nat)
    requires p <= |s|
    ensures forall i | p <= i < FlagsEnd(s, p) :: IsFlag(s[i])
    decreases |s| - p
  {
    if p < |s| && IsFlag(s[p]) { FlagsBeforeEnd(s, p + 1); }
  }

  /** `strspn` of the string from `p` on: flags up to there, and no flag there. */
  lemma FlagsEndIsSpan(s: string, p: nat)
    requires p <= |s|
    ensures forall i | p <= i < FlagsEnd(s, p) :: s[i] in FLAGS
    ensures FlagsEnd(s, p) < |s| ==> s[FlagsEnd(s, p)] !in FLAGS
  {
    FlagsBeforeEnd(s, p);
    forall i | p <= i < |s| ensures IsFlag(s[i]) <==> s[i] in FLAGS { FlagIs(s[i]); }
  }

  /** Where the turn that finds its '%' at `p` stops reading: at a conversion character,
      or at the end. */
  function Stop(s: string, p: nat): (q: nat)
    requires p <= |s|
    ensures p <= q <= |s|
  {
    if p == |s| then p else FlagsEnd(s, p + 1)
  }

  /** The turn at `b` is not the last one: a conversion character ends it. */
  predicate Converts(s: string, b: nat)
    requires b <= |s|
  {
    Stop(s, Percent(s, b)) < |s|
  }

  function TokenOf(s: string, b: nat, p: nat, q: nat): Token
    requires b <= p <= q <= |s|
  {
    if p == |s| then Tail(s[b..p])
    else if q == |s| then Trailing(s[b..p], s[p..q])
    else Directive(s[b..p], s[p..q], s[q])
  }

  function TokenAt(s: string, b: nat): Token
    requires b <= |s|
  {
    TokenOf(s, b, Percent(s, b), Stop(s, Percent(s, b)))
  }

  function TokenEnd(s: string, b: nat): (e: nat)
    requires b <= |s|
    ensures b <= e <= |s| && (Converts(s, b) ==> b < e)
  {
    var q := Stop(s, Percent(s, b));
    if q < |s| then q + 1 else q
  }

  function Tokens(s: string, b: nat): seq<Token>
    requires b <= |s|
    decreases |s| - b
  {
    [TokenAt(s, b)] + (if Converts(s, b) then Tokens(s, TokenEnd(s, b)) else [])
  }

  function Text(t: Token): string {
    match t
    case Directive(l, d, c) => l + d + [c]
    case Trailing(l, d) => l + d
    case Tail(l) => l
  }

  function Texts(ts: seq<Token>): string {
    if ts == [] then "" else Text(ts[0]) + Texts(ts[1..])
  }

  lemma TextsCons(t: Token, ts: seq<Token>)
    ensures Texts([t] + ts) == Text(t) + Texts(ts)
  {}

  lemma SpellStep(s: string, b: nat, e: nat, t: Token, rest: seq<Token>)
    requires b <= e <= |s| && Text(t) == s[b..e] && Texts(rest) == s[e..]
    ensures Texts([t] + rest) == s[b..]
  {
    TextsCons(t, rest);
    assert s[b..e] + s[e..] == s[b..];
  }

  lemma TokenText(s: string, b: nat, p: nat, q: nat)
    requires b <= p <= q <= |s|
    ensures Text(TokenOf(s, b, p, q)) == s[b..if q < |s| then q + 1 else q]
  {
    if p < |s| { assert s[b..p] + s[p..q] == s[b..q]; }
  }

  lemma TextAt(s: string, b: nat)
    requires b <= |s|
    ensures Text(TokenAt(s, b)) == s[b..TokenEnd(s, b)]
  {
    TokenText(s, b, Percent(s, b), Stop(s, Percent(s, b)));
  }

  /** Nothing is lost: the tokens spell the string. */
  lemma {:induction false} TokensSpell(s: string, b: nat)
    requires b <= |s|
    ensures Texts(Tokens(s, b)) == s[b..]
    decreases |s| - b
  {
    var e := TokenEnd(s, b);
    TextAt(s, b);
    if Converts(s, b) {
      TokensSpell(s, e);
      SpellStep(s, b, e, TokenAt(s, b), Tokens(s, e));
    } else {
      SpellStep(s, b, e, TokenAt(s, b), []);
    }
  }

  // ---------------------------------------------------------------- the C library calls

  /** The rest of the buffer from `b` on is still the string `s` and its terminator. */
  ghost predicate Intact(a: array<char>, b: nat, s: string)
    reads a
  {
    && a.Length == |s| + 1 && b <= |s| && Clean(s) && a[|s|] == NUL
    && forall i | b <= i < |s| :: a[i] == s[i]
  }

  /** `strchr(b, '%')`, with the position of the terminator for a null result. */
  method FindPercent(a: array<char>, b: nat, ghost s: string) returns (p: nat)
    requires Intact(a, b, s)
    ensures p == Percent(s, b)
  {
    p := b;
    while a[p] != '%' && a[p] != NUL
      invariant b <= p <= |s| && Percent(s, b) == Percent(s, p)
      decreases |s| - p
    {
      p := p + 1;
    }
  }

  /** `strspn` over the flag characters. */
  method CountFlags(a: array<char>, p: nat, ghost s: string) returns (len: nat)
    requires Intact(a, p, s)
    ensures p + len == FlagsEnd(s, p)
  {
    len := 0;
    while IsFlag(a[p + len])
      invariant p + len <= |s| && FlagsEnd(s, p) == FlagsEnd(s, p + len)
      decreases |s| - p - len
    {
      len := len + 1;
    }
  }

  /** `fputs(b, stdout)` where the text of `s` up to `e` is followed by a terminator. */
  method Puts(a: array<char>, b: nat, ghost e: nat, ghost s: string) returns (out: string)
    requires b <= e < a.Length && e <= |s| && Clean(s) && a[e] == NUL
    requires forall i | b <= i < e :: a[i] == s[i]
    ensures out == s[b..e]
  {
    out := "";
    var i := b;
    while a[i] != NUL
      invariant b <= i <= e && out == s[b..i]
      decreases e - i
    {
      out := out + [a[i]];
      i := i + 1;
    }
  }

  /** `dest[0] = '%'; memcpy(dest + 1, p, len); dest[1 + len] = 0`. */
  method CopyFlags(dest: array<char>, a: array<char>, p: nat, len: nat)
    requires dest != a && p + len <= a.Length && len + 2 <= dest.Length
    modifies dest
    ensures dest[..1 + len] == "%" + a[p..p + len] && dest[1 + len] == NUL
  {
    dest[0] := '%';
    for i := 0 to len
      invariant dest[0] == '%' && dest[1..1 + i] == a[p..p + i]
    {
      dest[1 + i] := a[p + i];
    }
    dest[1 + len] := NUL;
  }

  // ---------------------------------------------------------------- the loop

  /** Every '%' with its flags, and a terminator, fits the buffer it is copied to. */
  predicate FlagsFit(s: string, capacity: nat) {
    forall i | 0 <= i < |s| && Opens(s, i) :: FlagsEnd(s, i + 1) - i + 1 <= capacity
  }

  /** The buffer after everything before `b` has been scanned. */
  ghost predicate CutTo(a: array<char>, b: nat, s: string)
    reads a
  {
    && a.Length == |s| + 1 && b <= |s|
    && forall i | 0 <= i < b :: a[i] == if Opens(s, i) then NUL else s[i]
  }

  /** Reading from `b` over text, a '%' and its flags. */
  lemma ReadOpening(s: string, b: nat, p: nat, q: nat)
    requires b <= |s| && ModeAt(s, b).InText? && p == Percent(s, b) < |s| && q == FlagsEnd(s, p + 1)
    ensures ModeAt(s, q).InFlags? && PrintedTo(s, q) == PrintedTo(s, b) + s[b..p] && Opens(s, p)
  {
    PercentIsFirst(s, b);
    ReadText(s, b, p);
    assert ModeAt(s, p + 1).InFlags?;
    FlagsBeforeEnd(s, p + 1);
    ReadFlags(s, p + 1, q);
  }

  /** And over the conversion character. */
  lemma ReadDirective(s: string, b: nat, p: nat, q: nat)
    requires b <= |s| && ModeAt(s, b).InText? && p == Percent(s, b) < |s| && q == FlagsEnd(s, p + 1) < |s|
    ensures ModeAt(s, q + 1).InText?
    ensures PrintedTo(s, q + 1) == PrintedTo(s, b) + (s[b..p] + (if s[q] == '%' then "%" else ""))
  {
    ReadOpening(s, b, p, q);
    Regroup(PrintedTo(s, b), s[b..p], if s[q] == '%' then "%" else "");
  }

  /** The first '%' opens a directive, and its conversion character does not. */
  lemma OpensAt(s: string, b: nat, p: nat)
    requires b <= |s| && ModeAt(s, b).InText? && p == Percent(s, b) < |s|
    ensures Opens(s, p) && (FlagsEnd(s, p + 1) < |s| ==> !Opens(s, FlagsEnd(s, p + 1)))
  {
    ReadOpening(s, b, p, FlagsEnd(s, p + 1));
  }

  lemma CutMore(a: array<char>, p: nat, s: string)
    requires p < |s| && CutTo(a, p, s) && a[p] == s[p] && !Opens(s, p)
    ensures CutTo(a, p + 1, s)
  {}

  /** One turn up to the switch on `*p`: cut at the '%', print the text before it and
      copy the '%' and its flags. */
  method OpenDirective(a: array<char>, dest: array<char>, b: nat, open: nat, ghost s: string)
    returns (literal: string, spec: string, p: nat)
    requires a != dest && Intact(a, b, s) && CutTo(a, b, s) && ModeAt(s, b).InText?
    requires open == Percent(s, b) < |s| && FlagsFit(s, dest.Length)
    modifies a, dest
    ensures p == FlagsEnd(s, open + 1) && literal == s[b..open] && spec == s[open..p]
    ensures Intact(a, p, s) && CutTo(a, p, s)
  {
    literal := CutText(a, b, open, s);
    spec, p := TakeFlags(a, dest, open, s);
  }

  /** Count the flags, copy them out and step over them. */
  method TakeFlags(a: array<char>, dest: array<char>, open: nat, ghost s: string) returns (spec: string, p: nat)
    requires a != dest && open < |s| && Intact(a, open + 1, s) && CutTo(a, open + 1, s)
    requires Opens(s, open) && FlagsFit(s, dest.Length)
    modifies dest
    ensures p == FlagsEnd(s, open + 1) && spec == s[open..p]
    ensures Intact(a, p, s) && CutTo(a, p, s)
  {
    var len := CountFlags(a, open + 1, s);
    spec := CopyOut(a, dest, open, len, s);
    p := open + 1 + len;
    CutFlags(a, open + 1, p, s);
  }

  /** `*p++ = '\0'; fputs (b, stdout)`. */
  method CutText(a: array<char>, b: nat, open: nat, ghost s: string) returns (literal: string)
    requires Intact(a, b, s) && CutTo(a, b, s) && ModeAt(s, b).InText? && open == Percent(s, b) < |s|
    modifies a
    ensures literal == s[b..open] && Opens(s, open)
    ensures Intact(a, open + 1, s) && CutTo(a, open + 1, s)
  {
    OpensAt(s, b, open);
    CutAt(a, b, open, s);
    literal := Puts(a, b, open, s);
  }

  method CutAt(a: array<char>, ghost b: nat, open: nat, ghost s: string)
    requires Intact(a, b, s) && CutTo(a, b, s) && open == Percent(s, b) < |s| && Opens(s, open)
    modifies a
    ensures Intact(a, open + 1, s) && CutTo(a, open + 1, s) && a[open] == NUL
    ensures forall i | b <= i < open :: a[i] == s[i]
  {
    PercentIsFirst(s, b);
    a[open] := NUL;
  }

  /** Nothing is cut among flags. */
  lemma CutFlags(a: array<char>, p: nat, q: nat, s: string)
    requires Intact(a, p, s) && CutTo(a, p, s) && q == FlagsEnd(s, p)
    ensures Intact(a, q, s) && CutTo(a, q, s)
  {
    FlagsBeforeEnd(s, p);
  }

  method CopyOut(a: array<char>, dest: array<char>, open: nat, len: nat, ghost s: string) returns (spec: string)
    requires a != dest && Intact(a, open + 1, s) && s[open] == '%'
    requires open + 1 + len <= |s| && len + 2 <= dest.Length
    modifies dest
    ensures spec == s[open..open + 1 + len]
  {
    CopyFlags(dest, a, open + 1, len);
    spec := dest[..1 + len];
    assert a[open + 1..open + 1 + len] == s[open + 1..open + 1 + len];
  }

  lemma TailMeans(s: string, b: nat)
    requires b <= |s| && ModeAt(s, b).InText? && Percent(s, b) == |s|
    ensures Printed(s) == PrintedTo(s, b) + s[b..|s|]
  {
    PercentIsFirst(s, b);
    ReadText(s, b, |s|);
  }

  lemma TrailingMeans(s: string, b: nat, p: nat)
    requires b <= |s| && ModeAt(s, b).InText? && p == Percent(s, b) < |s| && FlagsEnd(s, p + 1) == |s|
    ensures Printed(s) == PrintedTo(s, b) + (s[b..p] + "%")
  {
    ReadOpening(s, b, p, |s|);
    Regroup(PrintedTo(s, b), s[b..p], "%");
  }

  /** A turn at `b` that is not the last shows and finds this. */
  ghost predicate Shows(s: string, b: nat, shown: string, token: Token, next: nat) {
    && b < next <= |s| && ModeAt(s, next).InText? && PrintedTo(s, next) == PrintedTo(s, b) + shown
    && Converts(s, b) && token == TokenAt(s, b) && next == TokenEnd(s, b)
  }

  ghost predicate ShowsLast(s: string, b: nat, shown: string, token: Token) {
    b <= |s| && Printed(s) == PrintedTo(s, b) + shown && !Converts(s, b) && token == TokenAt(s, b)
  }

  lemma DirectiveShows(s: string, b: nat, open: nat, q: nat, literal: string, spec: string)
    requires b <= |s| && ModeAt(s, b).InText? && open == Percent(s, b) < |s| && q == FlagsEnd(s, open + 1) < |s|
    requires literal == s[b..open] && spec == s[open..q]
    ensures Shows(s, b, literal + (if s[q] == '%' then "%" else ""), Directive(literal, spec, s[q]), q + 1)
  {
    ReadDirective(s, b, open, q);
  }

  lemma TrailingShows(s: string, b: nat, open: nat, literal: string, spec: string)
    requires b <= |s| && ModeAt(s, b).InText? && open == Percent(s, b) < |s| && FlagsEnd(s, open + 1) == |s|
    requires literal == s[b..open] && spec == s[open..|s|]
    ensures ShowsLast(s, b, literal + "%", Trailing(literal, spec))
  {
    TrailingMeans(s, b, open);
  }

  /** What a turn leaves behind, the last one or another. */
  ghost predicate Continues(a: array<char>, s: string, b: nat, shown: string, token: Token, next: nat)
    reads a
  {
    Intact(a, next, s) && CutTo(a, next, s) && Shows(s, b, shown, token, next)
  }

  ghost predicate Finishes(a: array<char>, s: string, b: nat, shown: string, token: Token)
    reads a
  {
    CutTo(a, |s|, s) && a[|s|] == NUL && ShowsLast(s, b, shown, token)
  }

  /** A turn that finds a '%'. */
  method DirectiveTurn(a: array<char>, dest: array<char>, b: nat, open: nat, ghost s: string)
    returns (shown: string, token: Token, next: nat, more: bool)
    requires a != dest && Intact(a, b, s) && CutTo(a, b, s) && ModeAt(s, b).InText?
    requires FlagsFit(s, dest.Length) && open == Percent(s, b) < |s|
    modifies a, dest
    ensures more ==> Continues(a, s, b, shown, token, next)
    ensures !more ==> Finishes(a, s, b, shown, token)
  {
    var literal, spec, p := OpenDirective(a, dest, b, open, s);
    next, more := p + 1, a[p] != NUL;
    TerminatorAt(a, p, s);
    if more {
      shown, token := Convert(a, b, open, literal, spec, p, s);
    } else {
      shown, token := Trail(a, b, open, literal, spec, s);
    }
  }

  lemma TerminatorAt(a: array<char>, p: nat, s: string)
    requires Intact(a, p, s)
    ensures p < a.Length && (a[p] == NUL <==> p == |s|)
  {}

  /** The switch on the conversion character `*p`. */
  method Convert(a: array<char>, ghost b: nat, ghost open: nat, literal: string, spec: string, p: nat, ghost s: string)
    returns (shown: string, token: Token)
    requires b <= |s| && ModeAt(s, b).InText? && open == Percent(s, b) < |s| && p == FlagsEnd(s, open + 1) < |s|
    requires literal == s[b..open] && spec == s[open..p] && Intact(a, p, s) && CutTo(a, p, s)
    ensures Continues(a, s, b, shown, token, p + 1)
  {
    DirectiveShows(s, b, open, p, literal, spec);
    OpensAt(s, b, open);
    CutMore(a, p, s);
    shown, token := literal + (if a[p] == '%' then "%" else ""), Directive(literal, spec, a[p]);
  }

  /** The same switch at the end of the string. */
  method Trail(a: array<char>, ghost b: nat, ghost open: nat, literal: string, spec: string, ghost s: string)
    returns (shown: string, token: Token)
    requires b <= |s| && ModeAt(s, b).InText? && open == Percent(s, b) < |s| && FlagsEnd(s, open + 1) == |s|
    requires literal == s[b..open] && spec == s[open..|s|] && Intact(a, |s|, s) && CutTo(a, |s|, s)
    ensures Finishes(a, s, b, shown, token)
  {
    TrailingShows(s, b, open, literal, spec);
    shown, token := literal + "%", Trailing(literal, spec);
  }

  /** One whole turn of the loop at `b`; `more` says whether `b` is set again. */
  method Turn(a: array<char>, dest: array<char>, b: nat, ghost s: string)
    returns (shown: string, token: Token, next: nat, more: bool)
    requires a != dest && Intact(a, b, s) && CutTo(a, b, s) && ModeAt(s, b).InText?
    requires FlagsFit(s, dest.Length)
    modifies a, dest
    ensures more ==> Continues(a, s, b, shown, token, next)
    ensures !more ==> Finishes(a, s, b, shown, token)
  {
    var p := FindPercent(a, b, s);
    if a[p] == '%' {
      shown, token, next, more := DirectiveTurn(a, dest, b, p, s);
    } else {
      TailMeans(s, b);
      shown := Puts(a, b, p, s);
      CutTail(a, b, s);
      next, more, token := p, false, Tail(shown);
    }
  }

  lemma CutTail(a: array<char>, b: nat, s: string)
    requires Intact(a, b, s) && CutTo(a, b, s) && Percent(s, b) == |s|
    ensures CutTo(a, |s|, s)
  {
    PercentIsFirst(s, b);
  }

  lemma NextToken(s: string, b: nat, found: seq<Token>)
    requires b <= |s|
    ensures found + Tokens(s, b) ==
      found + [TokenAt(s, b)] + (if Converts(s, b) then Tokens(s, TokenEnd(s, b)) else [])
  {}

  /** The whole program. Although it cuts the buffer as it goes, it prints what the
      string it was given means, finds its tokens, and leaves every byte as it was except
      the '%'s that open directives. */
  method Scan(a: array<char>, dest: array<char>, ghost s: string) returns (out: string, found: seq<Token>)
    requires a != dest && Clean(s) && a[..] == s + [NUL] && FlagsFit(s, dest.Length)
    modifies a, dest
    ensures out == Printed(s)
    ensures found == Tokens(s, 0)
    ensures CutTo(a, |s|, s) && a[|s|] == NUL
  {
    out, found := "", [];
    var b, more := 0, true;
    while more
      invariant more ==> Intact(a, b, s) && CutTo(a, b, s) && ModeAt(s, b).InText?
      invariant more ==> out == PrintedTo(s, b) && found + Tokens(s, b) == Tokens(s, 0)
      invariant !more ==> out == Printed(s) && found == Tokens(s, 0) && CutTo(a, |s|, s) && a[|s|] == NUL
      decreases more, |s| - b
    {
      var shown, token;
      NextToken(s, b, found);
      shown, token, b, more := Turn(a, dest, b, s);
      out, found := out + shown, found + [token];
    }
  }
}
