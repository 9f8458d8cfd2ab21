/** The positions of tokens, as an editor names them. */
module TokenPositions {
  import opened Utf8
  import opened SourceCursor
  import opened LexerSpec
  import opened LexerModes
  import opened LexerWalks
  import opened TextEdits
  import opened PositionTracking

  /** The cursor has counted like a byte-by-byte reader, only that it is `k` lines ahead. */
  ghost predicate Ahead(src: Source, k: nat, c: Cursor) {
    Inside(src, c)
    && c.pos == Position(CursorAt(src, c.at).pos.line + k, CursorAt(src, c.at).pos.character)
  }

  /** A literal that starts with a quote at `i` and has for its character the CR of a CRLF, as it stands or
      after a backslash.  There the lexer counts the CR as a line end of its own. */
  predicate CrLiteralAt(src: Source, i: nat) {
    && i < |src| && src[i] == QUOTE
    && (InsideCrlf(src, i + 2) || (i + 1 < |src| && src[i + 1] == BACKSLASH && InsideCrlf(src, i + 3)))
  }

  // ---------------------------------------------------------------- the primitives

  lemma {:induction false} WalkAhead(src: Source, k: nat, at: nat)
    requires at <= |src|
    ensures Ahead(src, k, Walk(src, Cursor(0, Position(k, 0)), at))
  {
    if at == 0 {
    } else {
      WalkAhead(src, k, at - 1);
    }
  }

  /** Reading byte by byte the cursor stays as far ahead. */
  lemma AheadOn(src: Source, k: nat, c: Cursor, r: Cursor)
    requires Ahead(src, k, c) && Walks(src, c, r)
    ensures Ahead(src, k, r)
  {
    var start := Cursor(0, Position(k, 0));
    WalkAhead(src, k, c.at);
    WalkAhead(src, k, r.at);
    WalkOn(src, start, c.at, r.at);
  }

  lemma SyncCodePoint(src: Source, k: nat, c: Cursor)
    requires Ahead(src, k, c) && SingleBytes(src)
    ensures Ahead(src, k, AdvanceCodePoint(src, c)) && AdvanceCodePoint(src, c) == Advance(src, c)
  {
    if c.at < |src| {
      assert CodePointAt(src, CursorAt(src, c.at)).len == 1;
    }
    SingleStep(src, c);
  }

  lemma SyncPeeked(src: Source, k: nat, c: Cursor)
    requires Ahead(src, k, c) && SingleBytes(src) && c.at < |src| && !InsideCrlf(src, c.at + 1)
    ensures Ahead(src, k, AdvancePeeked(src, c)) && AdvancePeeked(src, c).at == c.at + 1
  {
    SyncCodePoint(src, k, c);
    AdvancePeekedExact(src, c);
  }

  lemma CodePointOfByte(src: Source, c: Cursor)
    requires Inside(src, c) && c.at < |src| && (src[c.at] < 0x80 || CodePointAt(src, c).cp < 0x80)
    ensures CodePointAt(src, c).cp == src[c.at]
  {
    assert src[c.at..][0] == src[c.at];
    AsciiStep(src[c.at..]);
  }

  // ---------------------------------------------------------------- the readers

  lemma {:induction false} SyncCodePoints(src: Source, k: nat, c: Cursor, p: int -> bool)
    requires Ahead(src, k, c) && SingleBytes(src) && !p(CR as int)
    ensures Ahead(src, k, SkipCodePoints(src, c, p))
    decreases |src| - c.at
  {
    var d := CodePointAt(src, c);
    if d.cp == 0 || !p(d.cp) || c.at == |src| {
    } else {
      if InsideCrlf(src, c.at + 1) {
        CodePointOfByte(src, c);
      }
      SyncPeeked(src, k, c);
      SyncCodePoints(src, k, AdvancePeeked(src, c), p);
    }
  }

  lemma SyncCharInQuotes(src: Source, k: nat, c: Cursor)
    requires Ahead(src, k, c) && SingleBytes(src) && c.at > 0 && src[c.at - 1] == QUOTE
    requires !CrLiteralAt(src, c.at - 1)
    ensures Ahead(src, k, ReadCharInQuotes(src, c).0)
  {
    assert Inside(src, c);
    hide Ahead, ReadHexDigits, ReadUnicodeEscape, AdvancePeeked;
    if c.at < |src| {
      SyncPeeked(src, k, c);
      var n := AdvancePeeked(src, c);
      if CodePointAt(src, c).cp == BACKSLASH && n.at < |src| {
        CodePointOfByte(src, c);
        SyncPeeked(src, k, n);
        var e := AdvancePeeked(src, n);
        WalkNowhere(src, e);
        WalkHex(src, e, e);
        WalkUnicode(src, e, e);
        AheadOn(src, k, e, ReadHexDigits(src, e));
        AheadOn(src, k, e, ReadUnicodeEscape(src, e));
      }
    }
  }

  // ---------------------------------------------------------------- the tokens

  lemma WordsStop(w: Words)
    ensures !w.InWord()(CR as int) && !w.InAnnotation()(CR as int)
  {
  }

  lemma SyncPast(src: Source, k: nat, c: Cursor)
    requires Ahead(src, k, c)
    ensures Ahead(src, k, AdvanceIf(src, c, QUOTE))
  {
    WalkNowhere(src, c);
    WalkAdvanceIf(src, c, c, QUOTE);
    AheadOn(src, k, c, AdvanceIf(src, c, QUOTE));
  }

  lemma SyncQuote(src: Source, k: nat, w: Words, from: Cursor, c: Cursor, str: bool)
    requires Ahead(src, k, c) && SingleBytes(src) && c.at > 0 && src[c.at - 1] == QUOTE
    requires !CrLiteralAt(src, c.at - 1)
    ensures Ahead(src, k, LexQuote(src, w, from, c, str).to)
  {
    assert Inside(src, c) && SingleBytes(src);
    WordsStop(w);
    SyncCharInQuotes(src, k, c);
    SyncPast(src, k, ReadCharInQuotes(src, c).0);
    if c.at < |src| {
      SyncPeeked(src, k, c);
      SyncCodePoints(src, k, AdvancePeeked(src, c), w.InWord());
      SyncPast(src, k, AdvancePeeked(src, c));
    }
    hide Ahead, ReadCharInQuotes, SkipCodePoints, AdvancePeeked, AdvanceIf;
  }

  lemma WalkStrings(src: Source, from: Cursor, c: Cursor, str: bool)
    requires Inside(src, c) && from.at < c.at
    ensures Walks(src, c, LexString(src, from, c, str).to)
    ensures Walks(src, c, LexBacktick(src, from, c, str).to)
    ensures Walks(src, c, LexRightBrace(src, from, c, str).to)
  {
    hide Walks, ReadQuotedString, ReadMultilineString, ReadBacktickString, Advance;
    WalkNowhere(src, c);
    WalkQuoted(src, c, c);
    WalkAdvance(src, c, c);
    WalkAdvance(src, c, Advance(src, c));
    WalkMultilineString(src, c, Advance(src, Advance(src, c)));
    WalkBacktick(src, c, c);
  }

  lemma SyncStrings(src: Source, k: nat, from: Cursor, c: Cursor, str: bool)
    requires Ahead(src, k, c) && from.at < c.at
    ensures Ahead(src, k, LexString(src, from, c, str).to)
    ensures Ahead(src, k, LexBacktick(src, from, c, str).to)
    ensures Ahead(src, k, LexRightBrace(src, from, c, str).to)
  {
    assert Inside(src, c);
    hide Ahead, Walks, ReadQuotedString, ReadMultilineString, ReadBacktickString, Advance;
    WalkStrings(src, from, c, str);
    AheadOn(src, k, c, LexString(src, from, c, str).to);
    AheadOn(src, k, c, LexBacktick(src, from, c, str).to);
    AheadOn(src, k, c, LexRightBrace(src, from, c, str).to);
  }

  lemma SyncAnnotation(src: Source, k: nat, w: Words, kind: Kind, from: Cursor, c: Cursor, str: bool)
    requires Ahead(src, k, c) && from.at < c.at && SingleBytes(src)
    ensures Ahead(src, k, LexAnnotation(src, w, kind, from, c, str).to)
  {
    WordsStop(w);
    SyncCodePoint(src, k, c);
    SyncCodePoints(src, k, AdvanceCodePoint(src, c), w.InAnnotation());
  }

  lemma SyncQuotedCases(src: Source, k: nat, w: Words, from: Cursor, c: Cursor, cp: int, str: bool)
    requires Ahead(src, k, c) && from.at < c.at && SingleBytes(src) && !CrLiteralAt(src, c.at - 1)
    requires cp in [RBRACE, AT_SIGN, HASH, QUOTE, BACKTICK, DOUBLE_QUOTE]
    requires cp == src[c.at - 1]
    ensures Ahead(src, k, LexQuoted(src, w, from, c, cp, str).to)
  {
    hide LexString, LexBacktick, LexRightBrace, LexAnnotation, LexQuote;
    SyncStrings(src, k, from, c, str);
    SyncAnnotation(src, k, w, Annotation, from, c, str);
    SyncAnnotation(src, k, w, HashMacro, from, c, str);
    if cp == QUOTE {
      SyncQuote(src, k, w, from, c, str);
    }
  }

  lemma WordTo(src: Source, keywords: set<seq<Byte>>, w: Words, from: Cursor, c: Cursor, cp: int, str: bool)
    requires Inside(src, c) && from.at <= c.at
    ensures LexWord(src, keywords, w, from, c, cp, str).to
            == if IsDigit(cp) then if cp == ZERO then ReadZeroNumber(src, c) else ReadNumber(src, c)
               else if w.Starts(cp) then SkipCodePoints(src, c, w.InWord()) else c
  {
    hide ReadNumber, ReadZeroNumber, SkipCodePoints, Words.InWord, Words.Starts, IsDigit;
  }

  lemma SyncWord(src: Source, k: nat, keywords: set<seq<Byte>>, w: Words, from: Cursor, c: Cursor, cp: int, str: bool)
    requires Ahead(src, k, c) && from.at < c.at && SingleBytes(src)
    ensures Ahead(src, k, LexWord(src, keywords, w, from, c, cp, str).to)
  {
    assert Inside(src, c) && SingleBytes(src);
    hide *;
    WordsStop(w);
    WordTo(src, keywords, w, from, c, cp, str);
    SyncCodePoints(src, k, c, w.InWord());
    WalkNowhere(src, c);
    WalkNumber(src, c, c);
    AheadOn(src, k, c, ReadNumber(src, c));
    AheadOn(src, k, c, ReadZeroNumber(src, c));
  }

  lemma SyncSymbols(src: Source, k: nat, from: Cursor, c: Cursor, cp: int, str: bool)
    requires Ahead(src, k, c)
    ensures IsSymbol(cp) ==> Ahead(src, k, LexSymbol(src, from, c, cp, str).to)
    ensures Ahead(src, k, LexDot(src, from, c, str).to)
    ensures Ahead(src, k, LexDollar(src, from, c, str).to)
    ensures Ahead(src, k, Advance(src, c))
  {
    assert Inside(src, c);
    WalkNowhere(src, c);
    WalkAdvance(src, c, c);
    WalkAdvance(src, c, Advance(src, c));
    WalkAdvance(src, c, Advance(src, Advance(src, c)));
    AheadOn(src, k, c, Advance(src, c));
    AheadOn(src, k, c, Advance(src, Advance(src, c)));
    hide Ahead, Advance, Seconds, Walks;
  }

  lemma OtherTo(src: Source, keywords: set<seq<Byte>>, w: Words, from: Cursor, c: Cursor, cp: int, str: bool)
    requires Inside(src, c) && from.at < c.at
    ensures LexOther(src, keywords, w, from, c, cp, str).to
            == if IsSymbol(cp) then LexSymbol(src, from, c, cp, str).to
               else if cp in [RBRACE, AT_SIGN, HASH, QUOTE, BACKTICK, DOUBLE_QUOTE]
               then LexQuoted(src, w, from, c, cp, str).to
               else if cp == DOT then LexDot(src, from, c, str).to
               else if cp == DOLLAR then LexDollar(src, from, c, str).to
               else if cp == LF then c
               else if cp == CR then if ByteAt(src, c.at) == LF then Advance(src, c) else c
               else LexWord(src, keywords, w, from, c, cp, str).to
  {
    hide IsSymbol, LexSymbol, LexDot, LexDollar, LexQuoted, LexWord, Advance, ByteAt;
  }

  lemma SyncOther(src: Source, k: nat, keywords: set<seq<Byte>>, w: Words, from: Cursor, c: Cursor, cp: int, str: bool)
    requires Ahead(src, k, c) && from.at < c.at && SingleBytes(src) && !CrLiteralAt(src, c.at - 1)
    requires cp < 0x80 ==> cp == src[c.at - 1]
    ensures Ahead(src, k, LexOther(src, keywords, w, from, c, cp, str).to)
  {
    assert Inside(src, c);
    hide *;
    OtherTo(src, keywords, w, from, c, cp, str);
    SyncSymbols(src, k, from, c, cp, str);
    if cp in [RBRACE, AT_SIGN, HASH, QUOTE, BACKTICK, DOUBLE_QUOTE] {
      SyncQuotedCases(src, k, w, from, c, cp, str);
    }
    SyncWord(src, k, keywords, w, from, c, cp, str);
  }

  lemma SyncSlash(src: Source, k: nat, o: Options, from: Cursor, c: Cursor, str: bool)
    requires Ahead(src, k, c)
    ensures Ahead(src, k, LexSlash(src, o, from, c, str).to)
  {
    assert Inside(src, c);
    WalkNowhere(src, c);
    WalkAdvance(src, c, c);
    hide Ahead, SkipWhile, ReadBlockComment, Advance, Walks;
    var start := if o.keepComments then Advance(src, c) else c;
    WalkWhile(src, c, start, InLine());
    WalkBlockComment(src, c, start);
    AheadOn(src, k, c, SkipWhile(src, start, InLine()));
    AheadOn(src, k, c, ReadBlockComment(src, start).0);
  }

  lemma SyncBlanks(src: Source, k: nat, c: Cursor)
    requires Ahead(src, k, c)
    ensures Inside(src, c) && Ahead(src, k, SkipWhile(src, c, Blanks()))
  {
    WalkNowhere(src, c);
    WalkWhile(src, c, c, Blanks());
    AheadOn(src, k, c, SkipWhile(src, c, Blanks()));
  }

  lemma SyncRawToken(src: Source, k: nat, o: Options, from: Cursor, str: bool)
    requires Ahead(src, k, from) && SingleBytes(src) && !CrLiteralAt(src, from.at)
    ensures Ahead(src, k, RawToken(src, o, from, str).to)
  {
    hide *;
    SyncFirst(src, k, from);
    var cp, c := CodePointAt(src, from).cp, AdvanceCodePoint(src, from);
    RawTokenTo(src, o, from, str);
    if cp == 0 {
    } else if cp == SLASH {
      SyncSlash(src, k, o, from, c, str);
    } else if cp == BLANK || cp == TAB {
      SyncBlanks(src, k, c);
    } else {
      SyncOther(src, k, o.keywords, o.words, from, c, cp, str);
    }
  }

  lemma RawTokenTo(src: Source, o: Options, from: Cursor, str: bool)
    requires Inside(src, from)
    ensures var cp, c := CodePointAt(src, from).cp, AdvanceCodePoint(src, from);
            && Inside(src, c) && (cp != 0 ==> from.at < c.at)
            && RawToken(src, o, from, str).to
               == if cp == 0 then c
                  else if cp == SLASH then LexSlash(src, o, from, c, str).to
                  else if cp == BLANK || cp == TAB then SkipWhile(src, c, Blanks())
                  else LexOther(src, o.keywords, o.words, from, c, cp, str).to
  {
    hide LexOther, LexSlash, SkipWhile, AdvanceCodePoint, Blanks;
  }

  lemma SyncFirst(src: Source, k: nat, from: Cursor)
    requires Ahead(src, k, from) && SingleBytes(src)
    ensures Inside(src, from)
    ensures var cp, c := CodePointAt(src, from).cp, AdvanceCodePoint(src, from);
            && Inside(src, c) && Ahead(src, k, c)
            && (cp != 0 ==> c.at == from.at + 1 && (cp < 0x80 ==> cp == src[c.at - 1]))
  {
    SyncCodePoint(src, k, from);
    hide Ahead;
    if CodePointAt(src, from).cp != 0 && CodePointAt(src, from).cp < 0x80 {
      CodePointOfByte(src, from);
    }
  }

  // ---------------------------------------------------------------- the literal that reads a CR

  /** Moving past the CR of a CRLF as a peeked code point counts a line end. */
  lemma PeekedCr(src: Source, k: nat, c: Cursor)
    requires Ahead(src, k, c) && InsideCrlf(src, c.at + 1)
    ensures CodePointAt(src, c).cp == CR
    ensures var n := AdvancePeeked(src, c);
            n.at == c.at + 1 && n.pos == Position(CursorAt(src, n.at).pos.line + k + 1, 0)
  {
    assert src[c.at..][0] == src[c.at];
    AsciiStep(src[c.at..]);
    assert CursorAt(src, c.at + 1) == Advance(src, CursorAt(src, c.at));
  }

  lemma LiteralRead(src: Source, k: nat, c: Cursor)
    requires Ahead(src, k, c) && SingleBytes(src) && c.at > 0 && CrLiteralAt(src, c.at - 1)
    ensures Inside(src, c) && (CodePointAt(src, c).cp == CR || CodePointAt(src, c).cp == BACKSLASH)
    ensures var (r, found) := ReadCharInQuotes(src, c);
            && found && InsideCrlf(src, r.at) && r.at <= c.at + 2
            && r.pos == Position(CursorAt(src, r.at).pos.line + k + 1, 0)
  {
    assert Inside(src, c);
    hide Ahead, AdvancePeeked, CursorAt, SingleBytes, CodePointAt;
    if InsideCrlf(src, c.at + 1) {
      PeekedCr(src, k, c);
    } else {
      CodePointOfByte(src, c);
      SyncPeeked(src, k, c);
      PeekedCr(src, k, AdvancePeeked(src, c));
    }
  }

  lemma LiteralQuote(src: Source, k: nat, w: Words, from: Cursor, c: Cursor, str: bool)
    requires Ahead(src, k, c) && SingleBytes(src) && c.at > 0 && CrLiteralAt(src, c.at - 1)
    ensures Inside(src, c)
    ensures var t := LexQuote(src, w, from, c, str);
            && t.kind.Char? && InsideCrlf(src, t.to.at) && t.to.at <= c.at + 2
            && t.to.pos == Position(CursorAt(src, t.to.at).pos.line + k + 1, 0)
  {
    LiteralRead(src, k, c);
    assert !w.Starts(CR as int);
    hide Ahead, SingleBytes, CrLiteralAt, ReadCharInQuotes, CursorAt, CodePointAt, AdvancePeeked, SkipCodePoints;
  }

  lemma QuoteToken(src: Source, o: Options, from: Cursor, str: bool)
    requires Inside(src, from) && CodePointAt(src, from).cp == QUOTE
    ensures RawToken(src, o, from, str) == LexQuote(src, o.words, from, AdvanceCodePoint(src, from), str)
  {
    hide LexQuote, CodePointAt, AdvanceCodePoint;
  }

  /** Such a literal ends inside the CRLF, one more line ahead. */
  lemma LiteralToken(src: Source, k: nat, o: Options, from: Cursor, str: bool)
    requires Ahead(src, k, from) && SingleBytes(src) && CrLiteralAt(src, from.at)
    ensures var t := RawToken(src, o, from, str);
            && t.kind.Char? && InsideCrlf(src, t.to.at) && t.to.at <= from.at + 3
            && t.to.pos == Position(CursorAt(src, t.to.at).pos.line + k + 1, 0)
  {
    assert Inside(src, from) && from.at < |src| && src[from.at] == QUOTE;
    hide *;
    CodePointOfByte(src, from);
    SyncFirst(src, k, from);
    QuoteToken(src, o, from, str);
    LiteralQuote(src, k, o.words, from, AdvanceCodePoint(src, from), str);
  }

  lemma LineFeedToken(src: Source, o: Options, c: Cursor, str: bool)
    requires Inside(src, c) && c.at < |src| && src[c.at] == LF
    ensures var t := RawToken(src, o, c, str);
            t.kind == NewLine && t.to == Cursor(c.at + 1, Position(c.pos.line + 1, 0))
  {
    assert src[c.at..][0] == LF;
    AsciiStep(src[c.at..]);
    assert CodePointAt(src, c) == Decoded(LF as int, 1);
    hide CodePointAt;
  }

  /** Behind such a literal stands the line end, and behind that the cursor is one more line ahead. */
  lemma BehindLiteral(src: Source, k: nat, o: Options, c: Cursor, str: bool)
    requires InsideCrlf(src, c.at) && c.pos == Position(CursorAt(src, c.at).pos.line + k + 1, 0)
    ensures var t := RawToken(src, o, c, str); t.kind == NewLine && Ahead(src, k + 1, t.to)
  {
    LineFeedToken(src, o, c, str);
    assert CursorAt(src, c.at + 1) == Advance(src, CursorAt(src, c.at));
    hide RawToken;
  }

  // ---------------------------------------------------------------- the streams

  /** One of the tokens is such a literal and starts before `at`. */
  ghost predicate LiteralBefore(src: Source, ts: seq<Lexed>, at: nat) {
    exists u :: u in ts && u.from.at < at && CrLiteralAt(src, u.from.at)
  }

  lemma RawSteps(src: Source, o: Options, c: Cursor, str: bool, t: Lexed)
    requires Inside(src, c) && t == RawToken(src, o, c, str)
    ensures RawTokens(src, o, c, str)
            == if Last(t.kind) then [t] else [t] + RawTokens(src, o, t.to, t.strExpr)
  {
    hide RawToken;
  }

  lemma {:induction false} RawGrows(src: Source, o: Options, c: Cursor, str: bool)
    requires Inside(src, c)
    ensures forall t :: t in RawTokens(src, o, c, str) ==> c.at <= t.from.at <= |src|
    decreases |src| - c.at
  {
    hide RawToken, RawTokens;
    var t := RawToken(src, o, c, str);
    RawSteps(src, o, c, str, t);
    if Last(t.kind) {
    } else {
      RawGrows(src, o, t.to, t.strExpr);
    }
  }

  /** A token behind such a literal is more than `k` lines ahead, every other exactly `k`. */
  ghost predicate Tracked(src: Source, k: nat, ts: seq<Lexed>) {
    forall t :: t in ts ==>
      && Inside(src, t.from)
      && if LiteralBefore(src, ts, t.from.at) then t.from.pos.line > CursorAt(src, t.from.at).pos.line + k
         else Ahead(src, k, t.from)
  }

  lemma TrackedOther(src: Source, k: nat, t: Lexed, rest: seq<Lexed>)
    requires Ahead(src, k, t.from) && !CrLiteralAt(src, t.from.at) && Tracked(src, k, rest)
    requires forall u :: u in rest ==> t.from.at < u.from.at
    ensures Tracked(src, k, [t] + rest)
  {
    var ts := [t] + rest;
    assert Inside(src, t.from) && t in ts;
    hide Ahead, CrLiteralAt, CursorAt;
    assert forall v :: v in ts <==> v == t || v in rest;
    assert forall u :: u in rest ==> LiteralBefore(src, ts, u.from.at) == LiteralBefore(src, rest, u.from.at);
    assert !LiteralBefore(src, ts, t.from.at);
  }

  lemma TrackedLiteral(src: Source, k: nat, t: Lexed, e: Lexed, rest: seq<Lexed>)
    requires Ahead(src, k, t.from) && CrLiteralAt(src, t.from.at) && Inside(src, e.from) && Tracked(src, k + 1, rest)
    requires e.from.pos.line > CursorAt(src, e.from.at).pos.line + k && t.from.at < e.from.at
    requires forall u :: u in rest ==> e.from.at < u.from.at
    ensures Tracked(src, k, [t] + ([e] + rest))
  {
    var ts := [t] + ([e] + rest);
    forall u | u in ts && u != t ensures t.from.at < u.from.at && Inside(src, u.from)
                                         && u.from.pos.line > CursorAt(src, u.from.at).pos.line + k
    {
      hide CrLiteralAt, CursorAt;
      assert u == e || u in rest;
    }
    hide Ahead, CrLiteralAt, CursorAt, Tracked;
    assert t in ts;
    assert !LiteralBefore(src, ts, t.from.at);
    TrackedAll(src, k, ts, t);
  }

  lemma TrackedAll(src: Source, k: nat, ts: seq<Lexed>, t: Lexed)
    requires Ahead(src, k, t.from) && !LiteralBefore(src, ts, t.from.at)
    requires forall u :: u in ts && u != t ==>
      && Inside(src, u.from) && LiteralBefore(src, ts, u.from.at)
      && u.from.pos.line > CursorAt(src, u.from.at).pos.line + k
    ensures Tracked(src, k, ts)
  {
    assert Inside(src, t.from);
    hide Ahead, CursorAt, LiteralBefore;
  }

  lemma {:induction false} TrackRaw(src: Source, k: nat, o: Options, c: Cursor, str: bool)
    requires Ahead(src, k, c) && SingleBytes(src)
    ensures Inside(src, c) && Tracked(src, k, RawTokens(src, o, c, str))
    decreases |src| - c.at
  {
    assert Inside(src, c);
    var t := RawToken(src, o, c, str);
    hide RawToken, RawTokens, Ahead, CrLiteralAt, CursorAt, Tracked, LiteralBefore, SingleBytes;
    RawSteps(src, o, c, str, t);
    if CrLiteralAt(src, c.at) {
      LiteralToken(src, k, o, c, str);
      var e := RawToken(src, o, t.to, t.strExpr);
      RawSteps(src, o, t.to, t.strExpr, e);
      BehindLiteral(src, k, o, t.to, t.strExpr);
      TrackRaw(src, k + 1, o, e.to, e.strExpr);
      RawGrows(src, o, e.to, e.strExpr);
      TrackedLiteral(src, k, t, e, RawTokens(src, o, e.to, e.strExpr));
    } else if Last(t.kind) {
      TrackedNone(src, k);
      TrackedOther(src, k, t, []);
      assert [t] + [] == [t];
    } else {
      SyncRawToken(src, k, o, c, str);
      TrackRaw(src, k, o, t.to, t.strExpr);
      RawGrows(src, o, t.to, t.strExpr);
      TrackedOther(src, k, t, RawTokens(src, o, t.to, t.strExpr));
    }
  }

  lemma TrackedNone(src: Source, k: nat)
    ensures Tracked(src, k, [])
  {
  }

  lemma {:induction false} KeptAre(o: Options, ts: seq<Lexed>)
    ensures forall t :: t in Kept(o, ts) <==> t in ts && !Skipped(o, t.kind)
  {
    if ts == [] {
    } else {
      KeptAre(o, ts[1..]);
    }
  }

  /** No token that starts like such a literal is left out of the stream. */
  lemma {:induction false} QuotesAreKept(src: Source, o: Options, c: Cursor, str: bool, u: Lexed)
    requires Inside(src, c) && u in RawTokens(src, o, c, str) && CrLiteralAt(src, u.from.at)
    ensures !Skipped(o, u.kind)
    decreases |src| - c.at
  {
    hide RawToken, RawTokens;
    var t := RawToken(src, o, c, str);
    RawSteps(src, o, c, str, t);
    if u == t {
      CodePointOfByte(src, c);
      SkippedCase(src, o, c, str);
    } else {
      QuotesAreKept(src, o, t.to, t.strExpr, u);
    }
  }

  /** With such a literal the stream has a line end that starts inside a CRLF. */
  lemma {:induction false} LiteralShows(src: Source, k: nat, o: Options, c: Cursor, str: bool, u: Lexed)
    returns (v: Lexed)
    requires Ahead(src, k, c) && SingleBytes(src)
    requires Inside(src, c) && u in RawTokens(src, o, c, str) && CrLiteralAt(src, u.from.at)
    ensures v in RawTokens(src, o, c, str) && v.kind == NewLine && InsideCrlf(src, v.from.at)
    decreases |src| - c.at
  {
    hide RawToken, RawTokens;
    var t := RawToken(src, o, c, str);
    RawSteps(src, o, c, str, t);
    if CrLiteralAt(src, c.at) {
      LiteralToken(src, k, o, c, str);
      v := RawToken(src, o, t.to, t.strExpr);
      RawSteps(src, o, t.to, t.strExpr, v);
      BehindLiteral(src, k, o, t.to, t.strExpr);
    } else {
      SyncRawToken(src, k, o, c, str);
      v := LiteralShows(src, k, o, t.to, t.strExpr, u);
    }
  }

  lemma TokensAre(src: Source, o: Options)
    ensures var raw := RawTokens(src, o, START, false);
            forall t :: t in Tokens(src, o, START, false) <==> t in raw && !Skipped(o, t.kind)
  {
    hide RawTokens, Tokens, Kept;
    TokensAreKept(src, o, START, false);
    KeptAre(o, RawTokens(src, o, START, false));
  }

  lemma SameLiterals(src: Source, o: Options, at: nat)
    ensures LiteralBefore(src, RawTokens(src, o, START, false), at)
            <==> LiteralBefore(src, Tokens(src, o, START, false), at)
  {
    hide RawTokens, Tokens, CrLiteralAt;
    TokensAre(src, o);
    var raw := RawTokens(src, o, START, false);
    if LiteralBefore(src, raw, at) {
      var u :| u in raw && u.from.at < at && CrLiteralAt(src, u.from.at);
      QuotesAreKept(src, o, START, false, u);
    }
  }

  // ---------------------------------------------------------------- the theorems

  /** The editor finds the cursor where the lexer had it. */
  ghost predicate Found(src: Source, c: Cursor) { OffsetOf(src, c.pos) == c.at }

  lemma InsideNotFound(src: Source, c: Cursor)
    requires Ahead(src, 0, c) && NoEarlyFormFeed(src) && InsideCrlf(src, c.at)
    ensures OffsetOf(src, c.pos) == |src|
  {
    SameCount(src, c.at);
    NamedOffset(src, c.at);
  }

  lemma InStep(src: Source, c: Cursor)
    requires Ahead(src, 0, c) && NoEarlyFormFeed(src)
    ensures Found(src, c) <==> !InsideCrlf(src, c.at)
  {
    if InsideCrlf(src, c.at) {
      InsideNotFound(src, c);
    } else {
      CursorNamesOffset(src, c.at);
    }
  }

  lemma OutOfStep(src: Source, c: Cursor)
    requires Inside(src, c) && NoEarlyFormFeed(src) && c.pos.line > CursorAt(src, c.at).pos.line
    ensures Found(src, c) <==> c.at == |src|
  {
    if c.at < |src| {
      SameCount(src, c.at);
    } else {
      if src != [] {
        SameCount(src, c.at - 1);
      }
      BehindTheText(src, c.pos);
    }
  }

  /** In a source of single-byte characters without early form feeds: the editor finds a token where the
      lexer read it, exactly if the token stands at the end of the text, or does not start inside a CRLF
      and no token before it is a literal that reads the CR of a CRLF. */
  lemma TokenPositionsTheorem(src: Source, o: Options, t: Lexed)
    requires SingleBytes(src) && NoEarlyFormFeed(src) && t in Tokens(src, o, START, false)
    ensures Found(src, t.from)
            <==> t.from.at == |src|
                 || (!InsideCrlf(src, t.from.at)
                     && !LiteralBefore(src, Tokens(src, o, START, false), t.from.at))
  {
    assert Ahead(src, 0, START);
    hide Tokens, RawTokens, SingleBytes, NoEarlyFormFeed, LiteralBefore;
    TokensAre(src, o);
    TrackRaw(src, 0, o, START, false);
    SameLiterals(src, o, t.from.at);
    assert Inside(src, t.from);
    if LiteralBefore(src, Tokens(src, o, START, false), t.from.at) {
      OutOfStep(src, t.from);
    } else {
      InStep(src, t.from);
    }
  }

  /** If a token is not found, some token starts inside a CRLF. */
  lemma MisplacedShows(src: Source, o: Options, t: Lexed) returns (v: Lexed)
    requires SingleBytes(src) && NoEarlyFormFeed(src) && t in Tokens(src, o, START, false) && !Found(src, t.from)
    ensures v in Tokens(src, o, START, false) && InsideCrlf(src, v.from.at)
  {
    assert Ahead(src, 0, START);
    TokenPositionsTheorem(src, o, t);
    v := t;
    if !InsideCrlf(src, t.from.at) {
      var u :| u in Tokens(src, o, START, false) && u.from.at < t.from.at && CrLiteralAt(src, u.from.at);
      hide *;
      TokensAre(src, o);
      v := LiteralShows(src, 0, o, START, false, u);
      NewLineIsKept(o, v.kind);
    }
  }

  lemma NewLineIsKept(o: Options, kind: Kind)
    requires kind == NewLine
    ensures !Skipped(o, kind)
  {
  }

  /** Every token of such a source is found, exactly if none starts inside a CRLF. */
  lemma AllTokensTheorem(src: Source, o: Options)
    requires SingleBytes(src) && NoEarlyFormFeed(src)
    ensures (forall t :: t in Tokens(src, o, START, false) ==> Found(src, t.from))
            <==> (forall t :: t in Tokens(src, o, START, false) ==> !InsideCrlf(src, t.from.at))
  {
    assert forall at :: InsideCrlf(src, at) ==> at != |src|;
    hide *;
    forall t | t in Tokens(src, o, START, false) && InsideCrlf(src, t.from.at) ensures !Found(src, t.from) {
      TokenPositionsTheorem(src, o, t);
    }
    forall t | t in Tokens(src, o, START, false) && !Found(src, t.from)
      ensures exists v :: v in Tokens(src, o, START, false) && InsideCrlf(src, v.from.at)
    {
      var v := MisplacedShows(src, o, t);
    }
  }

  /** In a text of single-byte characters with neither early form feeds nor CRLF, every token is found. */
  lemma EveryTokenFound(src: Source, o: Options, t: Lexed)
    requires SingleBytes(src) && NoEarlyFormFeed(src) && forall i :: !InsideCrlf(src, i)
    requires t in Tokens(src, o, START, false)
    ensures OffsetOf(src, t.from.pos) == t.from.at
  {
    AllTokensTheorem(src, o);
    hide Tokens;
    assert Found(src, t.from);
  }

  // ---------------------------------------------------------------- two sources

  lemma StringToCr(src: Source, o: Options, t: Lexed)
    requires src == [DOUBLE_QUOTE, CR, LF] && t == RawToken(src, o, START, false)
    ensures t.to.at == 2 && t.kind == String
  {
    AsciiToken(src, START);
    var c := Advance(src, START);
    assert ByteAt(src, c.at) == CR;
    assert ReadQuotedString(src, c) == (Advance(src, c), false);
    hide ReadQuotedString, CodePointAt, AdvanceCodePoint;
  }

  /** The first two or three raw tokens, when none of them ends the stream. */
  lemma FirstRaw(src: Source, o: Options, t: Lexed, u: Lexed, v: Lexed)
    requires t == RawToken(src, o, START, false) && u == RawToken(src, o, t.to, t.strExpr)
    requires v == RawToken(src, o, u.to, u.strExpr)
    ensures !Last(t.kind) && !Skipped(o, u.kind) ==> u in Tokens(src, o, START, false)
    ensures !Last(t.kind) && !Last(u.kind) && !Skipped(o, v.kind) ==> v in Tokens(src, o, START, false)
  {
    assert Inside(src, START);
    hide *;
    RawSteps(src, o, START, false, t);
    RawSteps(src, o, t.to, t.strExpr, u);
    RawSteps(src, o, u.to, u.strExpr, v);
    TokensAre(src, o);
  }

  /** A double quote at the end of a line that ends with CRLF: the string ends with the CR, the token of
      the line end starts at the LF, and the editor does not find it. */
  lemma LineEndNotFound(o: Options) returns (t: Lexed)
    ensures var src := [DOUBLE_QUOTE, CR, LF];
            t in Tokens(src, o, START, false) && t.from.at == 2 && OffsetOf(src, t.from.pos) == 3
  {
    var src := [DOUBLE_QUOTE, CR, LF];
    AllAscii(src);
    assert InsideCrlf(src, 2) && NoEarlyFormFeed(src) && !CrLiteralAt(src, 0) && Ahead(src, 0, START);
    hide RawToken, Tokens, SingleBytes, NoEarlyFormFeed, CrLiteralAt, Ahead, InsideCrlf;
    var first := RawToken(src, o, START, false);
    StringToCr(src, o, first);
    t := RawToken(src, o, first.to, first.strExpr);
    LineFeedToken(src, o, first.to, first.strExpr);
    FirstRaw(src, o, first, t, RawToken(src, o, t.to, t.strExpr));
    SyncRawToken(src, 0, o, START, false);
    InsideNotFound(src, t.from);
  }

  lemma LetterToken(src: Source, o: Options, c: Cursor, str: bool)
    requires Inside(src, c) && c.at < |src| && src[c.at] == LOWER_A
    ensures !Skipped(o, RawToken(src, o, c, str).kind)
  {
    CodePointOfByte(src, c);
    SkippedCase(src, o, c, str);
    hide RawToken;
  }

  /** The third token of a source that starts with such a literal and the rest of the CRLF. */
  lemma ThirdToken(src: Source, o: Options) returns (t: Lexed)
    requires SingleBytes(src) && |src| > 3 && src[0] == QUOTE && InsideCrlf(src, 2) && src[3] == LOWER_A
    ensures t in Tokens(src, o, START, false) && t.from.at == 3
    ensures t.from.pos.line == CursorAt(src, 3).pos.line + 1
  {
    assert CrLiteralAt(src, 0) && Ahead(src, 0, START);
    assert forall i :: i <= 3 && InsideCrlf(src, i) ==> i == 2;
    hide RawToken, Tokens, SingleBytes, CrLiteralAt, InsideCrlf, CursorAt;
    var first := RawToken(src, o, START, false);
    LiteralToken(src, 0, o, START, false);
    var end := RawToken(src, o, first.to, first.strExpr);
    BehindLiteral(src, 0, o, first.to, first.strExpr);
    LineFeedToken(src, o, first.to, first.strExpr);
    t := RawToken(src, o, end.to, end.strExpr);
    LetterToken(src, o, end.to, end.strExpr);
    FirstRaw(src, o, first, end, t);
  }

  /** A quote at the end of a line that ends with CRLF: the literal reads the CR, and the token at the
      start of the next line, which is not inside the CRLF, is looked for at the end of the text. */
  lemma NextLineNotFound(o: Options) returns (t: Lexed)
    ensures var src := [QUOTE, CR, LF, LOWER_A];
            && t in Tokens(src, o, START, false) && t.from.at == 3 && !InsideCrlf(src, 3)
            && OffsetOf(src, t.from.pos) == 4
  {
    var src := [QUOTE, CR, LF, LOWER_A];
    AllAscii(src);
    assert src[1] == CR && src[2] == LF;
    t := ThirdToken(src, o);
    hide Tokens, CursorAt;
    SameCount(src, 3);
    BehindTheText(src, t.from.pos);
  }

  lemma AllAscii(src: Source)
    requires forall k :: 0 <= k < |src| ==> src[k] < 0x80
    ensures SingleBytes(src)
  {
    forall p | 0 <= p < |src| ensures CodePointAt(src, CursorAt(src, p)).len == 1 {
      assert src[p..][0] == src[p];
      AsciiStep(src[p..]);
    }
  }
}
