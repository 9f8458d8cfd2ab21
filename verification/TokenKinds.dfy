/** Which token stands where in the source: the kind, the value, the extent, the string-expression flag and
    the report of every token of the stream, from the characters at its place. */
module TokenKinds {
  import opened Utf8
  import opened SourceCursor
  import opened LexerSpec
  import opened LexerModes
  import opened LexerWalks
  import opened LexerSpans

  // ---------------------------------------------------------------- the stream

  /** Whether token `i` of a stream is read inside a string expression. */
  ghost predicate FlagBefore(ts: seq<Lexed>, i: nat, str: bool)
    requires i < |ts|
  {
    if i == 0 then str else ts[i - 1].strExpr
  }

  /** Every token of the stream is read in one pass of the switch where it stands, with the flag the token
      before it left, and is of a kind the options keep. */
  lemma {:induction false} StreamToken(src: Source, o: Options, c: Cursor, str: bool, i: nat)
    requires Inside(src, c) && i < |Tokens(src, o, c, str)|
    ensures var ts := Tokens(src, o, c, str);
            && Inside(src, ts[i].from) && !Skipped(o, ts[i].kind)
            && ts[i] == RawToken(src, o, ts[i].from, FlagBefore(ts, i, str))
    decreases |src| - c.at
  {
    hide RawToken, Tokens;
    var t := RawToken(src, o, c, str);
    TokensStep(src, o, c, str, t);
    if Skipped(o, t.kind) {
      TriviaKeepsFlag(src, o, c, str);
      StreamToken(src, o, t.to, t.strExpr, i);
    } else if i > 0 {
      StreamToken(src, o, t.to, t.strExpr, i - 1);
    }
  }

  /** The stream of a source, with the token of interest and its flag. */
  ghost predicate InStream(src: Source, o: Options, f: bool, t: Lexed) {
    exists i :: 0 <= i < |Tokens(src, o, START, false)|
                && t == Tokens(src, o, START, false)[i] && f == FlagBefore(Tokens(src, o, START, false), i, false)
  }

  lemma ReadInPlace(src: Source, o: Options, f: bool, t: Lexed)
    requires InStream(src, o, f, t)
    ensures Inside(src, t.from) && t == RawToken(src, o, t.from, f) && !Skipped(o, t.kind)
  {
    hide RawToken, Tokens;
    var i :| 0 <= i < |Tokens(src, o, START, false)|
             && t == Tokens(src, o, START, false)[i] && f == FlagBefore(Tokens(src, o, START, false), i, false);
    StreamToken(src, o, START, false, i);
  }

  // ---------------------------------------------------------------- characters

  predicate AsciiLetter(cp: int) { 'a' as int <= cp <= 'z' as int || 'A' as int <= cp <= 'Z' as int }

  predicate StartsWord(o: Options, cp: int) {
    if cp < 0x80 then AsciiLetter(cp) || cp == '_' as int else o.words.startsOutsideAscii(cp)
  }

  predicate ContinuesWord(o: Options, cp: int) {
    if cp < 0x80 then AsciiLetter(cp) || AsciiDigit(cp) || cp == '_' as int else o.words.continuesOutsideAscii(cp)
  }

  /** The code point at an offset, and the offset behind it. */
  function CodePoint(src: Source, i: nat): int
    requires i <= |src|
  {
    DecodePeek(src[i..]).cp
  }

  function Behind(src: Source, i: nat): (j: nat)
    requires i <= |src|
    ensures i <= j <= |src|
  {
    i + DecodePeek(src[i..]).len
  }

  /** From `i` to `j` stands the longest run of code points with `p`. */
  ghost predicate LongestRun(src: Source, i: nat, j: nat, p: int -> bool) {
    i <= j <= |src| && RunOf(src, i, j, p) && (j < |src| ==> CodePoint(src, j) == 0 || !p(CodePoint(src, j)))
  }

  lemma {:induction false} SameRun(src: Source, i: nat, j: nat, p: int -> bool, q: int -> bool)
    requires forall cp :: p(cp) == q(cp)
    ensures RunOf(src, i, j, p) == RunOf(src, i, j, q)
    decreases j - i
  {
    if i < j <= |src| && DecodePeek(src[i..]).len > 0 && i + DecodePeek(src[i..]).len <= j {
      SameRun(src, i + DecodePeek(src[i..]).len, j, p, q);
    }
    hide DecodePeek;
  }

  function Min(a: nat, b: nat): nat { if a < b then a else b }

  /** The token has this kind, this value and this end, keeps the flag and reports nothing. */
  predicate Plain(t: Lexed, kind: Kind, value: seq<Byte>, to: Cursor, f: bool) {
    t.kind == kind && t.value == value && t.to == to && t.strExpr == f && t.diags == []
  }

  /** An ASCII character at the cursor is read as one byte. */
  lemma FirstByte(src: Source, from: Cursor)
    requires Inside(src, from) && from.at < |src| && src[from.at] < 0x80
    ensures CodePointAt(src, from) == Decoded(src[from.at], 1)
    ensures AdvanceCodePoint(src, from) == Advance(src, from) == Walk(src, from, from.at + 1)
    ensures Walks(src, from, Advance(src, from))
  {
    MovesCount(src, from, 0);
    assert src[from.at..][0] == src[from.at];
    AsciiStep(src[from.at..]);
    WalkNowhere(src, from);
    hide DecodePeek;
  }

  lemma AtTheEnd(src: Source, c: Cursor)
    requires Inside(src, c)
    ensures c.at == |src| ==> CodePointAt(src, c) == Decoded(0, 0) && AdvanceCodePoint(src, c) == c
  {
  }

  /** The cases of the switch that make neither trivia nor the end. */
  lemma OtherCase(src: Source, o: Options, from: Cursor, f: bool)
    requires Inside(src, from)
    ensures var cp, c := CodePointAt(src, from).cp, AdvanceCodePoint(src, from);
            cp != 0 && cp != '/' as int && cp != 0x20 && cp != 0x09 ==>
              && from.at < c.at
              && RawToken(src, o, from, f) == LexOther(src, o.keywords, o.words, from, c, cp, f)
  {
    hide LexOther, LexSlash, DecodePeek;
    AtTheEnd(src, from);
  }

  predicate Quoting(cp: int) {
    || cp == '}' as int || cp == '@' as int || cp == '#' as int || cp == 0x27
    || cp == '`' as int || cp == '"' as int
  }

  /** Which of these cases a code point leads to. */
  lemma OtherIs(src: Source, keywords: set<seq<Byte>>, w: Words, from: Cursor, c: Cursor, cp: int, f: bool)
    requires Inside(src, c) && from.at < c.at
    ensures var t := LexOther(src, keywords, w, from, c, cp, f);
            if Single(cp) then t == LexSymbol(src, from, c, cp, f)
            else if Quoting(cp) then t == LexQuoted(src, w, from, c, cp, f)
            else if cp == '.' as int then t == LexDot(src, from, c, f)
            else if cp == '$' as int then t == LexDollar(src, from, c, f)
            else if cp == 0x0A then t == Lexed(NewLine, [0x0A], from, c, f, [])
            else if cp == 0x0D then
              t == if ByteAt(src, c.at) == 0x0A then Lexed(NewLine, [0x0D, 0x0A], from, Advance(src, c), f, [])
                   else Lexed(NewLine, [0x0D], from, c, f, [])
            else t == LexWord(src, keywords, w, from, c, cp, f)
  {
    hide LexWord, LexQuoted, LexSymbol, LexDot, LexDollar, Advance, ByteAt, IsSymbol, Single, Quoting;
    SinglesAre(cp);
    QuotingAre(cp);
  }

  lemma SinglesAre(cp: int)
    ensures IsSymbol(cp) <==> Single(cp)
  {
  }

  lemma QuotingAre(cp: int)
    ensures cp in [RBRACE, AT_SIGN, HASH, QUOTE, BACKTICK, DOUBLE_QUOTE] <==> Quoting(cp)
    ensures Quoting(cp) ==> !Single(cp)
  {
  }

  /** The operators and the punctuation of one character that stand for themselves wherever they are. */
  predicate Single(cp: int) {
    || cp == '{' as int || cp == '(' as int || cp == ')' as int || cp == '[' as int || cp == ']' as int
    || cp == '+' as int || cp == '-' as int || cp == '*' as int || cp == '%' as int || cp == '^' as int
    || cp == '~' as int || cp == '!' as int || cp == ',' as int || cp == ';' as int || cp == '?' as int
    || cp == '<' as int || cp == '>' as int || cp == '&' as int || cp == '|' as int || cp == ':' as int
    || cp == '=' as int
  }

  // ---------------------------------------------------------------- words

  lemma WordsAre(o: Options)
    ensures forall cp :: o.words.Starts(cp) == StartsWord(o, cp)
    ensures forall cp :: o.words.InWord()(cp) == ContinuesWord(o, cp)
    ensures forall cp :: o.words.InAnnotation()(cp) == InName(o, cp)
    ensures forall cp :: IsDigit(cp) == AsciiDigit(cp)
  {
  }

  /** A character of a name behind `@` or `#`. */
  predicate InName(o: Options, cp: int) { ContinuesWord(o, cp) || cp == '.' as int || cp == ':' as int }

  /** Reading code points from `c` up to `j` or behind it. */
  function Spell(src: Source, c: Cursor, j: nat): (r: Cursor)
    requires Inside(src, c) && j <= |src|
    ensures Inside(src, r)
    decreases |src| - c.at
  {
    if c.at >= j then c else Spell(src, AdvanceCodePoint(src, c), j)
  }

  /** Over code points that are no line ends both moves count the same. */
  lemma {:induction false} SkipSpells(src: Source, c: Cursor, p: int -> bool)
    requires Inside(src, c) && !p(CR as int)
    ensures SkipCodePoints(src, c, p) == Spell(src, c, SkipCodePoints(src, c, p).at)
    decreases |src| - c.at
  {
    hide DecodePeek;
    var d := CodePointAt(src, c);
    if d.cp != 0 && p(d.cp) && c.at < |src| {
      PeekedAlike(src, c);
      SkipSpells(src, AdvancePeeked(src, c), p);
    }
  }

  lemma PeekedAlike(src: Source, c: Cursor)
    requires Inside(src, c) && c.at < |src| && CodePointAt(src, c).cp != CR
    ensures AdvancePeeked(src, c) == AdvanceCodePoint(src, c)
  {
    AdvancePeekedExact(src, c);
    if src[c.at] == CR {
      FirstByte(src, c);
    }
  }

  /** A word is the longest run of identifier characters behind an identifier start, and a keyword exactly
      if it is in the table. */
  ghost predicate WordLaw(src: Source, o: Options, f: bool, t: Lexed)
    requires t.from.at <= t.to.at <= |src|
  {
    var i, j := t.from.at, t.to.at;
    StartsWord(o, CodePoint(src, i)) ==>
      && LongestRun(src, Behind(src, i), j, cp => ContinuesWord(o, cp))
      && Plain(t, if src[i..j] in o.keywords then Keyword else Identifier, src[i..j], Spell(src, t.from, j), f)
  }

  lemma WordRaw(src: Source, o: Options, from: Cursor, f: bool)
    requires Inside(src, from)
    ensures WordLaw(src, o, f, RawToken(src, o, from, f))
  {
    hide RunOf, DecodePeek;
    var cp, c := CodePointAt(src, from).cp, AdvanceCodePoint(src, from);
    if StartsWord(o, cp) {
      WordsAre(o);
      WordCase(src, o, from, f);
      var r := SkipCodePoints(src, c, o.words.InWord());
      SameRun(src, c.at, r.at, o.words.InWord(), cp => ContinuesWord(o, cp));
      SkipSpells(src, c, o.words.InWord());
    }
  }

  lemma WordCase(src: Source, o: Options, from: Cursor, f: bool)
    requires Inside(src, from) && StartsWord(o, CodePointAt(src, from).cp)
    ensures RawToken(src, o, from, f)
            == LexWord(src, o.keywords, o.words, from, AdvanceCodePoint(src, from), CodePointAt(src, from).cp, f)
    ensures from.at < |src|
  {
    hide LexOther, RawToken, CodePointAt, AdvanceCodePoint, LexWord, LexSymbol, LexDot, LexDollar, LexQuoted;
    OtherCase(src, o, from, f);
    var c := AdvanceCodePoint(src, from);
    if from.at < c.at {
      OtherIs(src, o.keywords, o.words, from, c, CodePointAt(src, from).cp, f);
    }
  }

  lemma WordTheorem(src: Source, o: Options, f: bool, t: Lexed)
    requires InStream(src, o, f, t)
    ensures t.from.at <= t.to.at <= |src| && WordLaw(src, o, f, t)
  {
    ReadInPlace(src, o, f, t);
    hide RawToken, InStream;
    WordRaw(src, o, t.from, f);
  }

  // ---------------------------------------------------------------- numbers

  predicate AlnumAt(src: Source, i: nat, j: nat)
    requires j <= |src|
  {
    forall k :: i <= k < j ==> AsciiLetter(src[k]) || AsciiDigit(src[k])
  }

  /** `0x`, `0X`, `0o` or `0O`. */
  predicate RadixStart(src: Source, i: nat) {
    Is(src, i, '0') && (Is(src, i + 1, 'x') || Is(src, i + 1, 'X') || Is(src, i + 1, 'o') || Is(src, i + 1, 'O'))
  }

  predicate BinaryStart(src: Source, i: nat) { Is(src, i, '0') && (Is(src, i + 1, 'b') || Is(src, i + 1, 'B')) }

  /** From `i` to `j` stands the longest run of letters and digits. */
  predicate RadixDigits(src: Source, i: nat, j: nat) {
    i <= j <= |src| && AlnumAt(src, i, j) && !(j < |src| && AlnumAt(src, j, j + 1))
  }

  /** From `i` the longest run of digits up to `m`, and from there the longest suffix. */
  ghost predicate DigitsAndSuffix(src: Source, i: nat, m: nat, j: nat) {
    && i <= m <= j <= |src| && DigitsAt(src, i, m) && !(m < |src| && AsciiDigit(src[m]))
    && SuffixAt(src, m, j) && forall k :: j < k <= |src| ==> !SuffixAt(src, m, k)
  }

  ghost predicate BinaryDigits(src: Source, i: nat, j: nat) {
    exists m :: DigitsAndSuffix(src, i, m, j)
  }

  /** From a digit on stands the longest number of its form. */
  ghost predicate NumberLaw(src: Source, f: bool, t: Lexed)
    requires t.from.at <= t.to.at <= |src|
  {
    var i, j := t.from.at, t.to.at;
    i < |src| && AsciiDigit(src[i]) ==>
      && Plain(t, Number, src[i..j], Walk(src, t.from, j), f)
      && if RadixStart(src, i) then RadixDigits(src, i + 2, j)
         else if BinaryStart(src, i) then BinaryDigits(src, i + 2, j)
         else NumberAt(src, i, j) && forall k :: j < k <= |src| ==> !NumberAt(src, i, k)
  }

  lemma NumberCase(src: Source, o: Options, from: Cursor, f: bool)
    requires Inside(src, from) && AsciiDigit(CodePointAt(src, from).cp)
    ensures RawToken(src, o, from, f)
            == LexWord(src, o.keywords, o.words, from, AdvanceCodePoint(src, from), CodePointAt(src, from).cp, f)
  {
    hide LexOther, RawToken, CodePointAt, AdvanceCodePoint, LexWord, LexSymbol, LexDot, LexDollar, LexQuoted;
    OtherCase(src, o, from, f);
    var c := AdvanceCodePoint(src, from);
    if from.at < c.at {
      OtherIs(src, o.keywords, o.words, from, c, CodePointAt(src, from).cp, f);
    }
  }

  lemma RadixText(src: Source, c: Cursor)
    requires Inside(src, c)
    ensures var r := SkipWhile(src, c, LettersOrDigits());
            RadixDigits(src, c.at, r.at) && ReadNumberSuffix(src, r) == r
  {
    hide SkipWhile, ReadNumberSuffix;
    var r := SkipWhile(src, c, LettersOrDigits());
    assert forall k :: c.at <= k < r.at ==> LettersOrDigits()(src[k]);
    assert r.at < |src| ==> !LettersOrDigits()(src[r.at]);
    NoSuffix(src, r);
  }

  lemma NoSuffix(src: Source, c: Cursor)
    requires Inside(src, c) && (c.at < |src| ==> !AsciiLetter(src[c.at]))
    ensures ReadNumberSuffix(src, c) == c
  {
    hide SkipWhile, Advance;
  }

  lemma BinaryText(src: Source, c: Cursor)
    requires Inside(src, c)
    ensures var r := SkipWhile(src, c, Digits());
            BinaryDigits(src, c.at, ReadNumberSuffix(src, r).at)
  {
    hide SuffixAt, ReadNumberSuffix, DigitsAt;
    var r := SkipWhile(src, c, Digits());
    DigitsRun(src, c);
    SuffixText(src, r);
    assert DigitsAndSuffix(src, c.at, r.at, ReadNumberSuffix(src, r).at);
  }

  lemma ZeroText(src: Source, i: nat, c: Cursor)
    requires Inside(src, c) && c.at == i + 1 && Is(src, i, '0')
    ensures var j := ReadZeroNumber(src, c).at;
            if RadixStart(src, i) then RadixDigits(src, i + 2, j)
            else if BinaryStart(src, i) then BinaryDigits(src, i + 2, j)
            else NumberAt(src, i, j) && forall k :: j < k <= |src| ==> !NumberAt(src, i, k)
  {
    hide SkipWhile, ReadNumberSuffix, ReadNumber, RadixDigits, BinaryDigits, NumberAt;
    var n := Advance(src, c);
    RadixText(src, n);
    BinaryText(src, n);
    NumberText(src, c);
    BehindDigit(src, i);
  }

  lemma BehindDigit(src: Source, i: nat)
    requires i < |src| && AsciiDigit(src[i])
    ensures forall k :: i < k <= |src| ==> NumberAt(src, i, k) == NumberAt(src, i + 1, k)
  {
  }

  lemma NumberRaw(src: Source, o: Options, from: Cursor, f: bool)
    requires Inside(src, from)
    ensures NumberLaw(src, f, RawToken(src, o, from, f))
  {
    hide RawToken, ReadZeroNumber, ReadNumber, NumberAt, RadixDigits, BinaryDigits, DecodePeek, RadixStart, BinaryStart;
    var i := from.at;
    if i < |src| && AsciiDigit(src[i]) {
      FirstByte(src, from);
      NumberCase(src, o, from, f);
      var c := Advance(src, from);
      WalkNumber(src, from, c);
      if Is(src, i, '0') {
        ZeroText(src, i, c);
      } else {
        NoRadix(src, i);
        NumberText(src, c);
        BehindDigit(src, i);
      }
    }
  }

  lemma NoRadix(src: Source, i: nat)
    requires !Is(src, i, '0')
    ensures !RadixStart(src, i) && !BinaryStart(src, i)
  {
  }

  lemma NumberTheorem(src: Source, o: Options, f: bool, t: Lexed)
    requires InStream(src, o, f, t)
    ensures t.from.at <= t.to.at <= |src| && NumberLaw(src, f, t)
  {
    ReadInPlace(src, o, f, t);
    hide RawToken, InStream;
    NumberRaw(src, o, t.from, f);
  }

  // ---------------------------------------------------------------- operators

  predicate Pair(src: Source, i: nat, c: char, d: char) { Is(src, i, c) && Is(src, i + 1, d) }

  /** The operators of two characters. */
  predicate DoubleOperator(src: Source, i: nat) {
    || Pair(src, i, '+', '+') || Pair(src, i, '-', '-') || Pair(src, i, '!', '=') || Pair(src, i, '<', '=')
    || Pair(src, i, '<', '<') || Pair(src, i, '>', '=') || Pair(src, i, '>', '>') || Pair(src, i, '&', '&')
    || Pair(src, i, '|', '|') || Pair(src, i, ':', ':') || Pair(src, i, '=', '=') || Pair(src, i, '=', '>')
  }

  /** The token is the operator of the next `n` bytes. */
  predicate Operator(src: Source, t: Lexed, n: nat, f: bool)
    requires t.from.at + n <= |src|
  {
    Plain(t, Symbol, src[t.from.at..t.from.at + n], Walk(src, t.from, t.from.at + n), f)
  }

  /** The longest operator is read. */
  ghost predicate OperatorLaw(src: Source, f: bool, t: Lexed) {
    var i := t.from.at;
    && (DoubleOperator(src, i) ==> Operator(src, t, 2, f))
    && (i < |src| && Single(src[i]) && !DoubleOperator(src, i) ==> Operator(src, t, 1, f))
  }

  /** A slash that opens no comment. */
  ghost predicate SlashLaw(src: Source, f: bool, t: Lexed) {
    var i := t.from.at;
    Is(src, i, '/') && !Is(src, i + 1, '/') && !Is(src, i + 1, '*') ==> Operator(src, t, 1, f)
  }

  /** One dot or three; two are unexpected, together with the byte behind them. */
  ghost predicate DotLaw(src: Source, f: bool, t: Lexed) {
    var i := t.from.at;
    Is(src, i, '.') ==>
      if !Is(src, i + 1, '.') then Operator(src, t, 1, f)
      else if Is(src, i + 2, '.') then Operator(src, t, 3, f)
      else t == Lexed(Unexpected, [], t.from, Walk(src, t.from, Min(i + 3, |src|)), f,
                      [Diag(UnexpectedDot, t.to.pos, t.to.pos)])
  }

  /** A dollar sign; within a string expression it starts one, together with the byte behind it. */
  ghost predicate DollarLaw(src: Source, f: bool, t: Lexed) {
    var i := t.from.at;
    Is(src, i, '$') ==>
      if f then Plain(t, StringExprStart, [0x7B], Walk(src, t.from, Min(i + 2, |src|)), f)
      else Operator(src, t, 1, f)
  }

  lemma SymbolRaw(src: Source, o: Options, from: Cursor, f: bool)
    requires Inside(src, from)
    ensures OperatorLaw(src, f, RawToken(src, o, from, f))
  {
    var i := from.at;
    if i < |src| && Single(src[i]) {
      FirstByte(src, from);
      SymbolCase(src, o, from, f);
      WalkAdvance(src, from, Advance(src, from));
      SymbolText(src, from, Advance(src, from), src[i], f);
      hide RawToken, LexSymbol, DecodePeek;
    }
  }

  lemma SymbolCase(src: Source, o: Options, from: Cursor, f: bool)
    requires Inside(src, from) && from.at < |src| && Single(src[from.at]) && CodePointAt(src, from).cp == src[from.at]
    ensures RawToken(src, o, from, f)
            == LexSymbol(src, from, AdvanceCodePoint(src, from), CodePointAt(src, from).cp, f)
  {
    hide LexOther, RawToken, CodePointAt, AdvanceCodePoint, LexWord, LexSymbol, LexDot, LexDollar, LexQuoted;
    OtherCase(src, o, from, f);
    var c := AdvanceCodePoint(src, from);
    if from.at < c.at {
      OtherIs(src, o.keywords, o.words, from, c, CodePointAt(src, from).cp, f);
    }
  }

  lemma SymbolText(src: Source, from: Cursor, c: Cursor, b: Byte, f: bool)
    requires Inside(src, c) && c.at == from.at + 1 && src[from.at] == b && from.at < |src| && Single(src[from.at])
    ensures var t := LexSymbol(src, from, c, b, f);
            if DoubleOperator(src, from.at)
            then t == Lexed(Symbol, src[from.at..from.at + 2], from, Advance(src, c), f, [])
            else t == Lexed(Symbol, src[from.at..from.at + 1], from, c, f, [])
  {
    var i := from.at;
    assert src[i..i + 1] == [b];
    if c.at < |src| {
      assert src[i..i + 2] == [b, src[c.at]];
    }
  }

  /** The cases of the switch for a slash, a dot, a dollar sign, line ends and blanks. */
  lemma FixedCase(src: Source, o: Options, from: Cursor, f: bool)
    requires Inside(src, from)
    ensures var cp, c := CodePointAt(src, from).cp, AdvanceCodePoint(src, from);
            && (cp == '.' as int ==> RawToken(src, o, from, f) == LexDot(src, from, c, f))
            && (cp == '$' as int ==> RawToken(src, o, from, f) == LexDollar(src, from, c, f))
  {
    hide LexOther, RawToken, CodePointAt, AdvanceCodePoint, LexWord, LexSymbol, LexDot, LexDollar, LexQuoted;
    OtherCase(src, o, from, f);
    var c := AdvanceCodePoint(src, from);
    if from.at < c.at {
      OtherIs(src, o.keywords, o.words, from, c, CodePointAt(src, from).cp, f);
    }
  }

  lemma TriviaCase(src: Source, o: Options, from: Cursor, f: bool)
    requires Inside(src, from)
    ensures var cp, c := CodePointAt(src, from).cp, AdvanceCodePoint(src, from);
            && (cp == '/' as int ==> RawToken(src, o, from, f) == LexSlash(src, o, from, c, f))
            && (cp == 0x20 || cp == 0x09 ==>
                  var r := SkipWhile(src, c, Blanks());
                  RawToken(src, o, from, f) == Lexed(Whitespace, src[from.at..r.at], from, r, f, []))
            && (cp == 0 ==> RawToken(src, o, from, f) == Lexed(EndOfFile, [], from, c, f, []))
  {
    hide CodePointAt, AdvanceCodePoint, LexSlash, LexOther, SkipWhile, Blanks;
  }

  lemma LineEndCase(src: Source, o: Options, from: Cursor, f: bool)
    requires Inside(src, from)
    ensures var cp, c := CodePointAt(src, from).cp, AdvanceCodePoint(src, from);
            && (cp == 0x0A ==> RawToken(src, o, from, f) == Lexed(NewLine, [0x0A], from, c, f, []))
            && (cp == 0x0D ==>
                  RawToken(src, o, from, f)
                  == if ByteAt(src, c.at) == 0x0A then Lexed(NewLine, [0x0D, 0x0A], from, Advance(src, c), f, [])
                     else Lexed(NewLine, [0x0D], from, c, f, []))
  {
    hide LexOther, RawToken, CodePointAt, AdvanceCodePoint, LexWord, LexSymbol, LexDot, LexDollar, LexQuoted;
    OtherCase(src, o, from, f);
    var c := AdvanceCodePoint(src, from);
    if from.at < c.at {
      OtherIs(src, o.keywords, o.words, from, c, CodePointAt(src, from).cp, f);
    }
  }

  lemma SlashRaw(src: Source, o: Options, from: Cursor, f: bool)
    requires Inside(src, from)
    ensures SlashLaw(src, f, RawToken(src, o, from, f))
    ensures DollarLaw(src, f, RawToken(src, o, from, f))
    ensures DotLaw(src, f, RawToken(src, o, from, f))
  {
    hide RawToken, DecodePeek, Walk;
    if from.at < |src| && src[from.at] < 0x80 {
      FirstByte(src, from);
      FixedCase(src, o, from, f);
      TriviaCase(src, o, from, f);
      var c := Advance(src, from);
      WalkAdvance(src, from, c);
      WalkAdvance(src, from, Advance(src, c));
      hide Advance;
      assert src[from.at..from.at + 1] == [src[from.at]];
      if from.at + 3 <= |src| {
        assert src[from.at..from.at + 3] == [src[from.at], src[from.at + 1], src[from.at + 2]];
      }
    }
  }

  lemma SymbolTheorem(src: Source, o: Options, f: bool, t: Lexed)
    requires InStream(src, o, f, t)
    ensures OperatorLaw(src, f, t) && SlashLaw(src, f, t) && DotLaw(src, f, t) && DollarLaw(src, f, t)
  {
    ReadInPlace(src, o, f, t);
    hide *;
    SymbolRaw(src, o, t.from, f);
    SlashRaw(src, o, t.from, f);
  }

  // ---------------------------------------------------------------- ends of lines and of the text, blanks, comments

  /** LF, CR and CRLF. */
  ghost predicate LineEndLaw(src: Source, f: bool, t: Lexed) {
    var i := t.from.at;
    i < |src| && (src[i] == 0x0A || src[i] == 0x0D) ==>
      var n := if src[i] == 0x0D && i + 1 < |src| && src[i + 1] == 0x0A then 2 else 1;
      Plain(t, NewLine, src[i..i + n], Walk(src, t.from, i + n), f)
  }

  /** The end of the text is its end or a NUL byte. */
  ghost predicate EndLaw(src: Source, f: bool, t: Lexed)
    requires t.from.at <= |src|
  {
    var i := t.from.at;
    i == |src| || src[i] == 0 ==> Plain(t, EndOfFile, [], Walk(src, t.from, Min(i + 1, |src|)), f)
  }

  /** The longest run of blanks, if white space is kept. */
  ghost predicate BlankLaw(src: Source, o: Options, f: bool, t: Lexed)
    requires t.from.at <= t.to.at <= |src|
  {
    var i, j := t.from.at, t.to.at;
    i < |src| && (src[i] == 0x20 || src[i] == 0x09) ==>
      && o.lexWhitespace && BlankRun(src, i, j) && (j < |src| ==> src[j] != 0x20 && src[j] != 0x09)
      && Plain(t, Whitespace, src[i..j], Walk(src, t.from, j), f)
  }

  /** What stands in a comment up to `e`, with the comment ending at `j`: in front of the first closer, or
      up to and with a NUL byte, or up to the end. */
  ghost predicate CommentText(src: Source, i: nat, e: nat, j: nat) {
    && i <= e <= j <= |src|
    && (forall k :: i <= k < e ==> !Closer(src, k))
    && (forall k :: i <= k < e - 1 ==> src[k] != 0x00)
    && if e < j then j == e + 2 && Closer(src, e) && (e > i ==> src[e - 1] != 0x00)
       else e == |src| || (e > i && src[e - 1] == 0x00)
  }

  ghost predicate BlockCommentToken(src: Source, start: nat, f: bool, t: Lexed)
    requires t.from.at <= t.to.at <= |src|
  {
    exists e: nat :: CommentText(src, start, e, t.to.at)
                     && Plain(t, MultiLineComment, src[start..e], Walk(src, t.from, t.to.at), f)
  }

  /** Comments, if they are kept: the text behind the two slashes, or between the opener and the
      closer. */
  ghost predicate CommentLaw(src: Source, o: Options, f: bool, t: Lexed)
    requires t.from.at <= t.to.at <= |src|
  {
    var i, j := t.from.at, t.to.at;
    && (Is(src, i, '/') && Is(src, i + 1, '/') ==>
          o.keepComments && LineComment(src, i, j)
          && Plain(t, SingleLineComment, src[i + 2..j], Walk(src, t.from, j), f))
    && (Is(src, i, '/') && Is(src, i + 1, '*') ==> o.keepComments && BlockCommentToken(src, i + 2, f, t))
  }

  lemma {:induction false} CommentTextIs(src: Source, c: Cursor)
    requires Inside(src, c)
    ensures var (r, e) := ReadBlockComment(src, c); CommentText(src, c.at, e, r.at)
    decreases |src| - c.at
  {
    var b, n := ByteAt(src, c.at), Advance(src, c);
    if b == NUL || (b == STAR && ByteAt(src, n.at) == SLASH) {
    } else {
      CommentTextIs(src, n);
      assert !Closer(src, c.at);
    }
  }

  lemma BlankText(src: Source, c: Cursor)
    requires Inside(src, c)
    ensures var r := SkipWhile(src, c, Blanks());
            && (forall k :: c.at <= k < r.at ==> src[k] == 0x20 || src[k] == 0x09)
            && (r.at < |src| ==> src[r.at] != 0x20 && src[r.at] != 0x09)
  {
    var r := SkipWhile(src, c, Blanks());
    assert forall k :: c.at <= k < r.at ==> Blanks()(src[k]);
    assert r.at < |src| ==> !Blanks()(src[r.at]);
  }

  lemma LineEndRaw(src: Source, o: Options, from: Cursor, f: bool)
    requires Inside(src, from) && !Skipped(o, RawToken(src, o, from, f).kind)
    ensures LineEndLaw(src, f, RawToken(src, o, from, f)) && EndLaw(src, f, RawToken(src, o, from, f))
    ensures BlankLaw(src, o, f, RawToken(src, o, from, f))
  {
    hide RawToken, DecodePeek, Walk, SkipWhile;
    var i := from.at;
    TriviaCase(src, o, from, f);
    if i == |src| {
      WalkNowhere(src, from);
      EndOfFileCase(src, o, from, f);
      AtTheEnd(src, from);
    } else if src[i] < 0x80 {
      FirstByte(src, from);
      LineEndCase(src, o, from, f);
      var c := Advance(src, from);
      WalkAdvance(src, from, c);
      WalkWhile(src, from, c, Blanks());
      BlankText(src, c);
      hide Advance;
      assert src[i..i + 1] == [src[i]];
      if i + 2 <= |src| {
        assert src[i..i + 2] == [src[i], src[i + 1]];
      }
    }
  }

  lemma CommentRaw(src: Source, o: Options, from: Cursor, f: bool)
    requires Inside(src, from) && !Skipped(o, RawToken(src, o, from, f).kind)
    ensures CommentLaw(src, o, f, RawToken(src, o, from, f))
  {
    hide RawToken, DecodePeek, Walk, SkipWhile, ReadBlockComment, CommentText, LineComment, BlockComment;
    var i := from.at;
    if Is(src, i, '/') && i + 1 < |src| {
      FirstByte(src, from);
      TriviaCase(src, o, from, f);
      var c := Advance(src, from);
      var start := Advance(src, c);
      WalkAdvance(src, from, c);
      WalkWhile(src, from, start, InLine());
      WalkBlockComment(src, from, start);
      CommentTextIs(src, start);
      var (r, e) := ReadBlockComment(src, start);
      if IsComment(LexSlash(src, o, from, c, f).kind) {
        SlashTrivia(src, o, from, c, f);
      }
      LineNotBlock(src, i, LexSlash(src, o, from, c, f).to.at);
    }
  }

  lemma LineNotBlock(src: Source, i: nat, j: nat)
    ensures Is(src, i + 1, '/') ==> !BlockComment(src, i, j)
  {
  }

  lemma TriviaTheorem(src: Source, o: Options, f: bool, t: Lexed)
    requires InStream(src, o, f, t)
    ensures t.from.at <= t.to.at <= |src|
    ensures LineEndLaw(src, f, t) && EndLaw(src, f, t) && BlankLaw(src, o, f, t) && CommentLaw(src, o, f, t)
  {
    ReadInPlace(src, o, f, t);
    assert t.from.at <= t.to.at <= |src|;
    hide *;
    LineEndRaw(src, o, t.from, f);
    CommentRaw(src, o, t.from, f);
  }

  // ---------------------------------------------------------------- annotations and macros

  /** The sign, one code point whatever it is, and the longest run of name characters; the first has to
      start a word. */
  ghost predicate AnnotationLaw(src: Source, o: Options, f: bool, t: Lexed)
    requires t.from.at <= t.to.at <= |src|
  {
    var i, j := t.from.at, t.to.at;
    Is(src, i, '@') || Is(src, i, '#') ==>
      var first := Behind(src, i + 1);
      && LongestRun(src, first, j, cp => InName(o, cp))
      && t == Lexed(if Is(src, i, '@') then Annotation else HashMacro, src[i..j], t.from, Spell(src, t.from, j), f,
                    if StartsWord(o, CodePoint(src, i + 1)) then []
                    else [Diag(AnnotationStart, t.from.pos, Spell(src, t.from, first).pos)])
  }

  lemma QuotedCase(src: Source, o: Options, from: Cursor, f: bool)
    requires Inside(src, from) && from.at < |src| && src[from.at] < 0x80
    ensures var b, c := src[from.at], Advance(src, from);
            var t := RawToken(src, o, from, f);
            && (b == '}' as int ==> t == LexRightBrace(src, from, c, f))
            && (b == '@' as int ==> t == LexAnnotation(src, o.words, Annotation, from, c, f))
            && (b == '#' as int ==> t == LexAnnotation(src, o.words, HashMacro, from, c, f))
            && (b == 0x27 ==> t == LexQuote(src, o.words, from, c, f))
            && (b == '`' as int ==> t == LexBacktick(src, from, c, f))
            && (b == '"' as int ==> t == LexString(src, from, c, f))
  {
    hide LexOther, RawToken, CodePointAt, AdvanceCodePoint, LexQuoted, Single, Advance;
    FirstByte(src, from);
    OtherCase(src, o, from, f);
    var c, b := Advance(src, from), src[from.at];
    OtherIs(src, o.keywords, o.words, from, c, b, f);
    if Quoting(b) {
      QuotingAre(b);
      QuotedIs(src, o.words, from, c, b, f);
    }
  }

  lemma QuotedIs(src: Source, w: Words, from: Cursor, c: Cursor, b: Byte, f: bool)
    requires Inside(src, c) && from.at < c.at && b in [RBRACE, AT_SIGN, HASH, QUOTE, BACKTICK, DOUBLE_QUOTE]
    ensures var t := LexQuoted(src, w, from, c, b, f);
            && (b == '}' as int ==> t == LexRightBrace(src, from, c, f))
            && (b == '@' as int ==> t == LexAnnotation(src, w, Annotation, from, c, f))
            && (b == '#' as int ==> t == LexAnnotation(src, w, HashMacro, from, c, f))
            && (b == 0x27 ==> t == LexQuote(src, w, from, c, f))
            && (b == '`' as int ==> t == LexBacktick(src, from, c, f))
            && (b == '"' as int ==> t == LexString(src, from, c, f))
  {
    hide LexRightBrace, LexAnnotation, LexQuote, LexBacktick, LexString;
  }

  /** Spelling goes on where it has stopped. */
  lemma {:induction false} SpellOn(src: Source, c: Cursor, mid: nat, j: nat)
    requires Inside(src, c) && mid <= j <= |src| && Spell(src, c, mid).at == mid
    ensures Spell(src, c, j) == Spell(src, Spell(src, c, mid), j)
    decreases |src| - c.at
  {
    if c.at < mid {
      SpellOn(src, AdvanceCodePoint(src, c), mid, j);
    }
    hide DecodePeek;
  }

  lemma SpellOne(src: Source, c: Cursor)
    requires Inside(src, c)
    ensures var n := AdvanceCodePoint(src, c);
            n.at == Behind(src, c.at) && n == Spell(src, c, n.at)
  {
    var n := AdvanceCodePoint(src, c);
    hide DecodePeek;
    assert Spell(src, n, n.at) == n;
  }

  lemma AnnotationRaw(src: Source, o: Options, from: Cursor, f: bool)
    requires Inside(src, from)
    ensures AnnotationLaw(src, o, f, RawToken(src, o, from, f))
  {
    var i := from.at;
    if Is(src, i, '@') || Is(src, i, '#') {
      hide RawToken, DecodePeek, RunOf, AdvanceCodePoint, Words.InAnnotation, SkipCodePoints, Spell;
      FirstByte(src, from);
      QuotedCase(src, o, from, f);
      WordsAre(o);
      var c := Advance(src, from);
      var n := AdvanceCodePoint(src, c);
      var r := SkipCodePoints(src, n, o.words.InAnnotation());
      SpellOne(src, from);
      SpellOne(src, c);
      SkipSpells(src, n, o.words.InAnnotation());
      SpellOn(src, from, i + 1, n.at);
      SpellOn(src, from, n.at, r.at);
      SameRun(src, n.at, r.at, o.words.InAnnotation(), cp => InName(o, cp));
    }
  }

  lemma AnnotationTheorem(src: Source, o: Options, f: bool, t: Lexed)
    requires InStream(src, o, f, t)
    ensures t.from.at <= t.to.at <= |src| && AnnotationLaw(src, o, f, t)
  {
    ReadInPlace(src, o, f, t);
    assert t.from.at <= t.to.at <= |src|;
    hide *;
    AnnotationRaw(src, o, t.from, f);
  }

  // ---------------------------------------------------------------- what is unexpected

  /** The ASCII characters that start a token. */
  predicate Meant(cp: int) {
    || AsciiDigit(cp) || Single(cp) || Quoting(cp)
    || cp == '/' as int || cp == '.' as int || cp == '$' as int
    || cp == 0x0A || cp == 0x0D || cp == 0x20 || cp == 0x09 || cp == 0x00
  }

  /** A code point that starts nothing is unexpected, and alone. */
  ghost predicate UnexpectedLaw(src: Source, o: Options, f: bool, t: Lexed)
    requires t.from.at <= |src|
  {
    var i := t.from.at;
    i < |src| && !Meant(CodePoint(src, i)) && !StartsWord(o, CodePoint(src, i)) ==>
      t == Lexed(Unexpected, [], t.from, Spell(src, t.from, Behind(src, i)), f,
                 [Diag(UnexpectedToken, t.to.pos, t.to.pos)])
  }

  lemma UnexpectedRaw(src: Source, o: Options, from: Cursor, f: bool)
    requires Inside(src, from)
    ensures UnexpectedLaw(src, o, f, RawToken(src, o, from, f))
  {
    hide RawToken, DecodePeek, AdvanceCodePoint, Spell, LexOther, Single, Quoting;
    var cp, c := CodePointAt(src, from).cp, AdvanceCodePoint(src, from);
    if from.at < |src| && !Meant(cp) && !StartsWord(o, cp) {
      WordsAre(o);
      OtherCase(src, o, from, f);
      OtherIs(src, o.keywords, o.words, from, c, cp, f);
      SpellOne(src, from);
    }
  }

  lemma UnexpectedTheorem(src: Source, o: Options, f: bool, t: Lexed)
    requires InStream(src, o, f, t)
    ensures t.from.at <= t.to.at <= |src| && UnexpectedLaw(src, o, f, t)
  {
    ReadInPlace(src, o, f, t);
    assert t.from.at <= t.to.at <= |src|;
    hide *;
    UnexpectedRaw(src, o, t.from, f);
  }

  // ---------------------------------------------------------------- escapes

  predicate HexAt(src: Source, k: nat) {
    k < |src| && (AsciiDigit(src[k]) || 'a' as int <= src[k] <= 'f' as int || 'A' as int <= src[k] <= 'F' as int)
  }

  /** Behind at most two hexadecimal digits. */
  function HexEnd(src: Source, k: nat): nat {
    if !HexAt(src, k) then k else if !HexAt(src, k + 1) then k + 1 else k + 2
  }

  /** Behind the first closing brace, or the end of the text. */
  function BraceEnd(src: Source, k: nat): (e: nat)
    requires k <= |src|
    ensures k <= e <= |src|
    decreases |src| - k
  {
    if k == |src| then k else if Is(src, k, '}') then k + 1 else BraceEnd(src, k + 1)
  }

  /** Behind a group in braces, or four bytes. */
  function UnicodeEnd(src: Source, k: nat): (e: nat)
    requires k <= |src|
    ensures k <= e <= |src|
  {
    if Is(src, k, '{') then BraceEnd(src, k + 1) else Min(k + 4, |src|)
  }

  /** Behind the escape that starts with the backslash at `k`. */
  function EscapeEnd(src: Source, k: nat): (e: nat)
    requires k < |src|
    ensures k < e <= |src|
  {
    if k + 1 == |src| then k + 1
    else if Is(src, k + 1, 'x') then HexEnd(src, k + 2)
    else if Is(src, k + 1, 'u') then UnicodeEnd(src, k + 2)
    else k + 2
  }

  lemma HexText(src: Source, c: Cursor)
    requires Inside(src, c)
    ensures ReadHexDigits(src, c).at == HexEnd(src, c.at)
  {
  }

  lemma {:induction false} BraceText(src: Source, c: Cursor)
    requires Inside(src, c)
    ensures AdvanceIf(src, SkipWhile(src, c, InBraces()), RBRACE).at == BraceEnd(src, c.at)
    decreases |src| - c.at
  {
    if c.at < |src| && InBraces()(src[c.at]) {
      BraceText(src, Advance(src, c));
    }
  }

  lemma UnicodeText(src: Source, c: Cursor)
    requires Inside(src, c)
    ensures ReadUnicodeEscape(src, c).at == UnicodeEnd(src, c.at)
  {
    hide BraceEnd, SkipWhile;
    BraceText(src, AdvanceIf(src, c, LBRACE));
  }

  lemma EscapeText(src: Source, c: Cursor)
    requires Inside(src, c) && c.at < |src|
    ensures var n := Advance(src, c);
            ReadEscape(src, Advance(src, n), ByteAt(src, n.at)).at == EscapeEnd(src, c.at)
  {
    var e := Advance(src, Advance(src, c));
    HexText(src, e);
    UnicodeText(src, e);
    if c.at + 1 == |src| {
      assert ByteAt(src, c.at + 1) == NUL;
    }
    hide ReadHexDigits, ReadUnicodeEscape, HexEnd, UnicodeEnd;
  }

  // ---------------------------------------------------------------- strings

  /** The first end of a single-line string from `k` on that no escape covers. */
  function QuotedEnd(src: Source, k: nat): (e: nat)
    requires k <= |src|
    ensures k <= e <= |src|
    decreases |src| - k
  {
    if k == |src| || EndsQuoted(src[k]) then k
    else QuotedEnd(src, if Is(src, k, '\\') then EscapeEnd(src, k) else k + 1)
  }

  lemma {:induction false} QuotedText(src: Source, c: Cursor)
    requires Inside(src, c)
    ensures var (r, ended), e := ReadQuotedString(src, c), QuotedEnd(src, c.at);
            (ended <==> Is(src, e, '"')) && r.at == Min(e + 1, |src|)
    decreases |src| - c.at
  {
    hide EscapeEnd, ReadEscape;
    var b, n := ByteAt(src, c.at), Advance(src, c);
    if b == BACKSLASH {
      EscapeText(src, c);
      QuotedText(src, ReadEscape(src, Advance(src, n), ByteAt(src, n.at)));
    } else if c.at < |src| && !EndsQuoted(b) {
      QuotedText(src, n);
    }
  }

  /** What stands between three quotes and three quotes, or in front of the end, or up to and with a NUL. */
  ghost predicate MultilineText(src: Source, i: nat, e: nat, j: nat) {
    && i <= e <= j <= |src|
    && (forall k :: i <= k < e ==> !TripleQuote(src, k))
    && (forall k :: i <= k < e - 1 ==> src[k] != 0x00)
    && if e < j then j == e + 3 && TripleQuote(src, e) && (e > i ==> src[e - 1] != 0x00)
       else e == |src| || (e > i && src[e - 1] == 0x00)
  }

  ghost predicate MultilineToken(src: Source, start: nat, f: bool, t: Lexed)
    requires t.from.at <= t.to.at <= |src|
  {
    exists e: nat :: MultilineText(src, start, e, t.to.at)
                     && Plain(t, MultilineString, src[start..e], Walk(src, t.from, t.to.at), f)
  }

  /** Two quotes, three quotes and a multi-line string, or a single-line string up to its first end: the
      value of one that a double quote closes is what stands in front of that, of another what was read. */
  ghost predicate StringLaw(src: Source, f: bool, t: Lexed)
    requires t.from.at <= t.to.at <= |src|
  {
    var i, j := t.from.at, t.to.at;
    Is(src, i, '"') ==>
      if Is(src, i + 1, '"') then
        if Is(src, i + 2, '"') then i + 3 <= j && MultilineToken(src, i + 3, f, t)
        else Plain(t, String, [], Walk(src, t.from, i + 2), f)
      else
        var e := QuotedEnd(src, i + 1);
        var end := Walk(src, t.from, Min(e + 1, |src|));
        if Is(src, e, '"') then Plain(t, String, src[i + 1..e], end, f)
        else t == Lexed(String, src[i + 1..end.at], t.from, end, f, [Diag(OpenString, t.from.pos, end.pos)])
  }

  lemma MultilineTextIs(src: Source, c: Cursor)
    requires Inside(src, c)
    ensures var (r, e) := ReadMultilineString(src, c); MultilineText(src, c.at, e, r.at)
  {
    hide ReadMultilineString, Advance;
    var e := ReadMultilineString(src, c).1;
    if e > c.at && src[e - 1] == 0x00 {
      assert !TripleQuote(src, e - 1);
    }
    hide TripleQuote;
    MultilineStringText(src, c);
  }

  lemma SingleLineRead(src: Source, from: Cursor, c: Cursor, f: bool)
    requires Inside(src, c) && from.at <= c.at && !Is(src, c.at, '"')
    ensures var (r, ended) := ReadQuotedString(src, c);
            LexString(src, from, c, f)
            == Lexed(String, src[c.at..if ended then r.at - 1 else r.at], from, r, f,
                     if ended then [] else [Diag(OpenString, from.pos, r.pos)])
  {
    hide ReadQuotedString;
  }

  lemma SingleLine(src: Source, from: Cursor, c: Cursor, f: bool)
    requires Walks(src, from, c) && c.at == from.at + 1 && Is(src, from.at, '"') && !Is(src, c.at, '"')
    ensures var t := LexString(src, from, c, f); from.at <= t.to.at <= |src| && StringLaw(src, f, t)
  {
    hide LexString, ReadQuotedString, ReadMultilineString, MultilineToken, QuotedEnd, Walk;
    SingleLineRead(src, from, c, f);
    QuotedText(src, c);
    WalkQuoted(src, from, c);
  }

  lemma EmptyString(src: Source, from: Cursor, c: Cursor, f: bool)
    requires Walks(src, from, c) && c.at == from.at + 1 && Is(src, from.at, '"') && Is(src, c.at, '"')
    requires !Is(src, c.at + 1, '"')
    ensures var t := LexString(src, from, c, f); from.at <= t.to.at <= |src| && StringLaw(src, f, t)
  {
    hide ReadQuotedString, ReadMultilineString, MultilineToken, QuotedEnd, Walk;
    WalkAdvance(src, from, c);
    hide Advance;
  }

  lemma ThreeQuotes(src: Source, from: Cursor, c: Cursor, f: bool)
    requires Walks(src, from, c) && c.at == from.at + 1 && Is(src, from.at, '"') && Is(src, c.at, '"')
    requires Is(src, c.at + 1, '"')
    ensures var t := LexString(src, from, c, f); from.at <= t.to.at <= |src| && StringLaw(src, f, t)
  {
    hide ReadQuotedString, ReadMultilineString, MultilineText, QuotedEnd, Walk;
    var n := Advance(src, c);
    var m := Advance(src, n);
    WalkAdvance(src, from, c);
    WalkAdvance(src, from, n);
    MultilineTextIs(src, m);
    WalkMultilineString(src, from, m);
    hide Advance;
    var (r, e) := ReadMultilineString(src, m);
  }

  lemma StringRaw(src: Source, o: Options, from: Cursor, f: bool)
    requires Inside(src, from)
    ensures StringLaw(src, f, RawToken(src, o, from, f))
  {
    hide RawToken, DecodePeek, LexString, QuotedEnd, Walk, MultilineToken;
    var i := from.at;
    if Is(src, i, '"') {
      QuotedCase(src, o, from, f);
      FirstByte(src, from);
      var c := Advance(src, from);
      hide StringLaw;
      if !Is(src, i + 1, '"') {
        SingleLine(src, from, c, f);
      } else if !Is(src, i + 2, '"') {
        EmptyString(src, from, c, f);
      } else {
        ThreeQuotes(src, from, c, f);
      }
    }
  }

  lemma StringTheorem(src: Source, o: Options, f: bool, t: Lexed)
    requires InStream(src, o, f, t)
    ensures t.from.at <= t.to.at <= |src| && StringLaw(src, f, t)
  {
    ReadInPlace(src, o, f, t);
    assert t.from.at <= t.to.at <= |src|;
    hide *;
    StringRaw(src, o, t.from, f);
  }

  // ---------------------------------------------------------------- backtick strings and their expressions

  /** The first end of a backtick string from `k` on that no escape covers. */
  function BacktickEnd(src: Source, k: nat): (e: nat)
    requires k <= |src|
    ensures k <= e <= |src| && (e < |src| ==> EndsBacktick(src, e))
    decreases |src| - k
  {
    if k == |src| || EndsBacktick(src, k) then k
    else BacktickEnd(src, if Is(src, k, '\\') then EscapeEnd(src, k) else k + 1)
  }

  lemma {:induction false} BacktickText(src: Source, c: Cursor)
    requires Inside(src, c)
    ensures var (r, end), e := ReadBacktickString(src, c), BacktickEnd(src, c.at);
            && (end.Closed? <==> Is(src, e, '`')) && (end.Expression? <==> Is(src, e, '$'))
            && r.at == if end.Closed? then e + 1 else e
    decreases |src| - c.at
  {
    hide EscapeEnd, ReadEscape;
    var b, n := ByteAt(src, c.at), Advance(src, c);
    if b == BACKSLASH {
      EscapeText(src, c);
      BacktickText(src, ReadEscape(src, Advance(src, n), ByteAt(src, n.at)));
    } else if c.at < |src| && !EndsBacktick(src, c.at) {
      BacktickText(src, n);
    }
  }

  /** A string up to a backtick ends any string expression; one up to a dollar sign and a brace begins one,
      which must not be within another; one without an end is reported. */
  ghost predicate BacktickLaw(src: Source, f: bool, t: Lexed)
    requires t.from.at <= |src|
  {
    var i := t.from.at;
    Is(src, i, '`') ==>
      var e := BacktickEnd(src, i + 1);
      var end := Walk(src, t.from, if Is(src, e, '`') then e + 1 else e);
      t == Lexed(BacktickString, src[i + 1..e], t.from, end,
                 if Is(src, e, '`') then false else if Is(src, e, '$') then true else f,
                 if Is(src, e, '`') then []
                 else if !Is(src, e, '$') then [Diag(OpenBacktick, t.from.pos, end.pos)]
                 else if f then [Diag(NestedExpression, t.from.pos, end.pos)]
                 else [])
  }

  /** Within a string expression a closing brace ends the expression and reads on in the string, from the
      brace on; elsewhere it stands for itself. */
  ghost predicate RightBraceLaw(src: Source, f: bool, t: Lexed)
    requires t.from.at <= |src|
  {
    var i := t.from.at;
    Is(src, i, '}') ==>
      if !f then Operator(src, t, 1, f)
      else
        var e := BacktickEnd(src, i + 1);
        var end := Walk(src, t.from, if Is(src, e, '`') then e + 1 else e);
        t == Lexed(StringExprEnd, src[i..e], t.from, end, Is(src, e, '$'),
                   if Is(src, e, '`') || Is(src, e, '$') then [] else [Diag(OpenExpression, t.from.pos, end.pos)])
  }

  lemma BacktickIs(src: Source, from: Cursor, c: Cursor, f: bool)
    requires Walks(src, from, c) && c.at == from.at + 1
    ensures Is(src, from.at, '`') ==> BacktickLaw(src, f, LexBacktick(src, from, c, f))
    ensures Is(src, from.at, '}') ==> RightBraceLaw(src, f, LexRightBrace(src, from, c, f))
  {
    hide ReadBacktickString, BacktickEnd, Walk, Advance, EndsBacktick;
    BacktickText(src, c);
    WalkBacktick(src, from, c);
    if from.at < |src| {
      assert src[from.at..from.at + 1] == [src[from.at]];
    }
  }

  lemma BacktickRaw(src: Source, o: Options, from: Cursor, f: bool)
    requires Inside(src, from)
    ensures BacktickLaw(src, f, RawToken(src, o, from, f)) && RightBraceLaw(src, f, RawToken(src, o, from, f))
  {
    hide RawToken, DecodePeek, BacktickEnd, Walk, LexBacktick, LexRightBrace, Operator;
    var i := from.at;
    if Is(src, i, '`') || Is(src, i, '}') {
      QuotedCase(src, o, from, f);
      FirstByte(src, from);
      BacktickIs(src, from, Advance(src, from), f);
    }
  }

  lemma BacktickTheorem(src: Source, o: Options, f: bool, t: Lexed)
    requires InStream(src, o, f, t)
    ensures t.from.at <= t.to.at <= |src| && BacktickLaw(src, f, t) && RightBraceLaw(src, f, t)
  {
    ReadInPlace(src, o, f, t);
    assert t.from.at <= t.to.at <= |src|;
    hide *;
    BacktickRaw(src, o, t.from, f);
  }

  // ---------------------------------------------------------------- character literals and lifetimes

  /** Behind a quote that closes a literal, if there is one. */
  function PastQuote(src: Source, c: Cursor): Cursor
    requires Inside(src, c)
  {
    if c.at < |src| && src[c.at] == 0x27 then Walk(src, c, c.at + 1) else c
  }

  /** Behind the escape whose backslash has been read up to `n`. */
  function EscapedChar(src: Source, n: Cursor): (r: Cursor)
    requires Inside(src, n)
    ensures Inside(src, r)
  {
    var m := AdvancePeeked(src, n);
    if CodePoint(src, n.at) == 'x' as int then
      if HexEnd(src, m.at) <= |src| then Walk(src, m, HexEnd(src, m.at)) else m
    else if CodePoint(src, n.at) == 'u' as int then Walk(src, m, UnicodeEnd(src, m.at))
    else m
  }

  /** A quote and an identifier start: a literal if a quote follows the one character, and otherwise a
      lifetime of the longest run. */
  ghost predicate LifetimeLaw(src: Source, o: Options, f: bool, t: Lexed)
    requires t.from.at <= t.to.at <= |src|
  {
    var i, j := t.from.at, t.to.at;
    i < |src| && src[i] == 0x27 && StartsWord(o, CodePoint(src, i + 1)) ==>
      var m := Behind(src, i + 1);
      if m < |src| && src[m] == 0x27 then Plain(t, Char, src[i + 1..m], Spell(src, t.from, m + 1), f)
      else LongestRun(src, m, j, cp => ContinuesWord(o, cp))
           && i < j && Plain(t, Lifetime, src[i + 1..j], Spell(src, t.from, j), f)
  }

  /** Any other character behind a quote, or an escape, with the quote that may follow; another quote or the
      end make an empty literal, which is reported. */
  ghost predicate CharLaw(src: Source, o: Options, f: bool, t: Lexed)
    requires t.from.at <= |src|
  {
    var i := t.from.at;
    i < |src| && src[i] == 0x27 && !StartsWord(o, CodePoint(src, i + 1)) ==>
      var c := Walk(src, t.from, i + 1);
      var cp, n := CodePoint(src, i + 1), AdvancePeeked(src, c);
      if cp == 0 || cp == 0x27 then
        t == Lexed(Char, [], t.from, c, f, [Diag(EmptyChar, t.from.pos, c.pos)])
      else if cp != '\\' as int then Plain(t, Char, src[i + 1..n.at], PastQuote(src, n), f)
      else if CodePoint(src, n.at) == 0 then
        t == Lexed(Char, [], t.from, n, f, [Diag(EmptyChar, t.from.pos, n.pos)])
      else
        var e := EscapedChar(src, n);
        i < e.at && Plain(t, Char, src[i + 1..e.at], PastQuote(src, e), f)
  }

  lemma PastQuoteIs(src: Source, c: Cursor)
    requires Inside(src, c)
    ensures AdvanceIf(src, c, QUOTE) == PastQuote(src, c)
  {
    WalkNowhere(src, c);
    WalkAdvanceIf(src, c, c, QUOTE);
  }

  lemma HexInside(src: Source, k: nat)
    requires k <= |src|
    ensures k <= HexEnd(src, k) <= |src|
  {
  }

  lemma EscapedCharIs(src: Source, c: Cursor)
    requires Inside(src, c) && CodePoint(src, c.at) == '\\' as int
    ensures var n := AdvancePeeked(src, c);
            if CodePoint(src, n.at) == 0 then ReadCharInQuotes(src, c) == (n, false)
            else ReadCharInQuotes(src, c) == (EscapedChar(src, n), true)
  {
    hide DecodePeek, ReadHexDigits, ReadUnicodeEscape, AdvancePeeked, Walk, HexEnd, UnicodeEnd;
    var m := AdvancePeeked(src, AdvancePeeked(src, c));
    HexInside(src, m.at);
    HexText(src, m);
    UnicodeText(src, m);
    WalkNowhere(src, m);
    WalkHex(src, m, m);
    WalkUnicode(src, m, m);
  }

  lemma LifetimeIs(src: Source, o: Options, from: Cursor, c: Cursor, f: bool)
    requires Inside(src, from) && from.at < |src| && src[from.at] == 0x27 && c == Advance(src, from)
    requires StartsWord(o, CodePoint(src, c.at))
    ensures var t := LexQuote(src, o.words, from, c, f);
            from.at <= t.to.at <= |src| && LifetimeLaw(src, o, f, t)
  {
    hide DecodePeek, RunOf, AdvanceCodePoint, AdvancePeeked, SkipCodePoints, Spell, ReadCharInQuotes, Advance, Walk;
    WordsAre(o);
    FirstByte(src, from);
    WordNotAtEnd(src, o, c);
    PeekedAlike(src, c);
    var n := AdvanceCodePoint(src, c);
    var r := SkipCodePoints(src, n, o.words.InWord());
    SpellOne(src, from);
    SpellOne(src, c);
    SkipSpells(src, n, o.words.InWord());
    SpellOn(src, from, c.at, n.at);
    SpellOn(src, from, n.at, r.at);
    SameRun(src, n.at, r.at, o.words.InWord(), cp => ContinuesWord(o, cp));
    PastQuoteIs(src, n);
    if n.at < |src| && src[n.at] == 0x27 {
      FirstByte(src, n);
      SpellOne(src, n);
      SpellOn(src, from, n.at, n.at + 1);
    }
  }

  lemma WordNotAtEnd(src: Source, o: Options, c: Cursor)
    requires Inside(src, c) && StartsWord(o, CodePoint(src, c.at))
    ensures c.at < |src| && CodePointAt(src, c).cp != CR && CodePointAt(src, c).cp != 0
    ensures CodePointAt(src, c).cp != QUOTE && CodePointAt(src, c).cp != BACKSLASH
  {
    AtTheEnd(src, c);
    hide DecodePeek;
  }

  lemma CharIs(src: Source, o: Options, from: Cursor, c: Cursor, f: bool)
    requires Inside(src, from) && from.at < |src| && src[from.at] == 0x27 && c == Advance(src, from)
    requires !StartsWord(o, CodePoint(src, c.at))
    ensures CharLaw(src, o, f, LexQuote(src, o.words, from, c, f))
  {
    hide DecodePeek, AdvanceCodePoint, AdvancePeeked, SkipCodePoints, Advance, Walk, EscapedChar, PastQuote;
    WordsAre(o);
    FirstByte(src, from);
    if CodePoint(src, c.at) == '\\' as int {
      EscapedCharIs(src, c);
    }
    hide StartsWord;
    var (r, found) := ReadCharInQuotes(src, c);
    PastQuoteIs(src, r);
  }

  lemma QuoteRaw(src: Source, o: Options, from: Cursor, f: bool)
    requires Inside(src, from)
    ensures LifetimeLaw(src, o, f, RawToken(src, o, from, f)) && CharLaw(src, o, f, RawToken(src, o, from, f))
  {
    hide RawToken, DecodePeek, LexQuote, Walk, Spell, RunOf, EscapedChar, PastQuote, StartsWord;
    var i := from.at;
    if i < |src| && src[i] == 0x27 {
      QuotedCase(src, o, from, f);
      FirstByte(src, from);
      if StartsWord(o, CodePoint(src, i + 1)) {
        LifetimeIs(src, o, from, Advance(src, from), f);
      } else {
        CharIs(src, o, from, Advance(src, from), f);
      }
    }
  }

  lemma QuoteTheorem(src: Source, o: Options, f: bool, t: Lexed)
    requires InStream(src, o, f, t)
    ensures t.from.at <= t.to.at <= |src| && LifetimeLaw(src, o, f, t) && CharLaw(src, o, f, t)
  {
    ReadInPlace(src, o, f, t);
    assert t.from.at <= t.to.at <= |src|;
    hide *;
    QuoteRaw(src, o, t.from, f);
  }
}
