/** Where tokens lie in the source: what is between them, what is in them, and where the last one is. */
module LexerSpans {
  import opened Utf8
  import opened SourceCursor
  import opened LexerSpec
  import opened LexerModes

  /** The byte at `i` is the ASCII character `c`. */
  predicate Is(src: Source, i: nat, c: char) {
    i < |src| && src[i] == c as int
  }

  // ---------------------------------------------------------------- between tokens

  ghost predicate BlankRun(src: Source, i: nat, j: nat) {
    i < j <= |src| && forall k :: i <= k < j ==> src[k] == 0x20 || src[k] == 0x09
  }

  ghost predicate InSameLine(b: Byte) { b != 0x00 && b != 0x0A && b != 0x0D }

  /** Two slashes and the rest of the line. */
  ghost predicate LineComment(src: Source, i: nat, j: nat) {
    && i + 2 <= j <= |src| && Is(src, i, '/') && Is(src, i + 1, '/')
    && (forall k :: i <= k < j ==> InSameLine(src[k]))
    && (j < |src| ==> !InSameLine(src[j]))
  }

  ghost predicate Closer(src: Source, k: nat) {
    Is(src, k, '*') && Is(src, k + 1, '/')
  }

  // A slash and a star, up to the first closer, to a NUL byte or to the end.
  ghost predicate BlockComment(src: Source, i: nat, j: nat) {
    && i + 2 <= j <= |src| && Is(src, i, '/') && Is(src, i + 1, '*')
    && (forall k :: i + 2 <= k < j - 2 ==> !Closer(src, k))
    && (forall k :: i + 2 <= k < j - 1 ==> src[k] != 0x00)
    && (Closer(src, j - 2) || src[j - 1] == 0x00 || j == |src|)
  }

  /** A run of blanks and comments. */
  ghost predicate Trivia(src: Source, i: nat, j: nat)
    decreases j - i
  {
    i == j
    || exists m :: i < m <= j && (BlankRun(src, i, m) || LineComment(src, i, m) || BlockComment(src, i, m))
                   && Trivia(src, m, j)
  }

  /** From `at` on: tokens in order, disjoint and not empty but for the last, with only trivia between. */
  ghost predicate Covered(src: Source, at: nat, ts: seq<Lexed>)
    decreases |ts|
  {
    if ts == [] then true
    else
      var t := ts[0];
      && at <= t.from.at <= t.to.at <= |src|
      && Trivia(src, at, t.from.at)
      && (t.kind.EndOfFile? || t.from.at < t.to.at)
      && Covered(src, t.to.at, ts[1..])
  }

  lemma {:induction false} BlockCommentText(src: Source, c: Cursor)
    requires Inside(src, c)
    ensures var j := ReadBlockComment(src, c).0.at;
            && (forall k :: c.at <= k < j - 2 ==> !Closer(src, k))
            && (forall k :: c.at <= k < j - 1 ==> src[k] != NUL)
            && ((j >= c.at + 2 && Closer(src, j - 2)) || (j > c.at && src[j - 1] == NUL) || j == |src|)
    decreases |src| - c.at
  {
    var b, n := ByteAt(src, c.at), Advance(src, c);
    if b == NUL || (b == STAR && ByteAt(src, n.at) == SLASH) {
    } else {
      BlockCommentText(src, n);
      assert !Closer(src, c.at);
    }
  }

  lemma SlashTrivia(src: Source, o: Options, from: Cursor, c: Cursor, str: bool)
    requires Inside(src, from) && Inside(src, c) && c.at == from.at + 1 && src[from.at] == SLASH
    requires IsComment(LexSlash(src, o, from, c, str).kind)
    ensures var t := LexSlash(src, o, from, c, str);
            LineComment(src, from.at, t.to.at) || BlockComment(src, from.at, t.to.at)
  {
    var start := if o.keepComments then Advance(src, c) else c;
    if ByteAt(src, c.at) == SLASH {
      var r := SkipWhile(src, start, InLine());
      assert InLine()(src[c.at]);
      assert forall k :: start.at <= k < r.at ==> InLine()(src[k]);
      assert LineComment(src, from.at, r.at);
    } else {
      BlockCommentText(src, start);
      if !o.keepComments {
        BlockCommentText(src, Advance(src, c));
      }
      assert BlockComment(src, from.at, ReadBlockComment(src, start).0.at);
    }
  }

  /** What the lexer skips is a run of blanks or one comment. */
  lemma SkippedIsTrivia(src: Source, o: Options, c: Cursor, str: bool)
    requires Inside(src, c)
    ensures var t := RawToken(src, o, c, str);
            && (t.kind.Whitespace? ==> BlankRun(src, c.at, t.to.at))
            && (IsComment(t.kind) ==> LineComment(src, c.at, t.to.at) || BlockComment(src, c.at, t.to.at))
  {
    hide RawToken, LexSlash, LineComment, BlockComment;
    SkippedCase(src, o, c, str);
    var t := RawToken(src, o, c, str);
    if t.kind.Whitespace? || IsComment(t.kind) {
      AsciiStep(src[c.at..]);
      assert src[c.at] == CodePointAt(src, c).cp;
      if IsComment(t.kind) {
        SlashTrivia(src, o, c, AdvanceCodePoint(src, c), str);
      } else {
        BlanksFollow(src, AdvanceCodePoint(src, c));
      }
    }
  }

  lemma BlanksFollow(src: Source, c: Cursor)
    requires Inside(src, c)
    ensures forall k :: c.at <= k < SkipWhile(src, c, Blanks()).at ==> src[k] == BLANK || src[k] == TAB
  {
    assert forall k :: c.at <= k < SkipWhile(src, c, Blanks()).at ==> Blanks()(src[k]);
  }

  lemma {:induction false} NextTokenTrivia(src: Source, o: Options, c: Cursor, str: bool)
    requires Inside(src, c)
    ensures Trivia(src, c.at, NextToken(src, o, c, str).from.at)
    decreases |src| - c.at
  {
    hide RawToken;
    var t := RawToken(src, o, c, str);
    if !Skipped(o, t.kind) {
    } else {
      SkippedIsTrivia(src, o, c, str);
      NextTokenTrivia(src, o, t.to, t.strExpr);
    }
  }

  /** Whatever the flags, the tokens are in order and disjoint, and between them there are only blanks
      and comments. */
  lemma {:induction false} TokensCover(src: Source, o: Options, c: Cursor, str: bool)
    requires Inside(src, c)
    ensures Covered(src, c.at, Tokens(src, o, c, str))
    decreases |src| - c.at
  {
    hide RawToken, NextToken, Trivia;
    var t := NextToken(src, o, c, str);
    NextTokenTrivia(src, o, c, str);
    if Last(t.kind) {
      assert [t][1..] == [];
    } else {
      TokensCover(src, o, t.to, t.strExpr);
      var rest := Tokens(src, o, t.to, t.strExpr);
      assert ([t] + rest)[1..] == rest;
    }
  }

  /** From `c` on the tokens follow one another without a gap, in offset, line and character. */
  ghost predicate Contiguous(c: Cursor, ts: seq<Lexed>)
    decreases |ts|
  {
    if ts == [] then true else ts[0].from == c && Contiguous(ts[0].to, ts[1..])
  }

  /** The end of the text is found at its end or at a NUL byte. */
  lemma EndOfFileAt(src: Source, o: Options, c: Cursor, str: bool)
    requires Inside(src, c)
    ensures var t := RawToken(src, o, c, str);
            t.kind.EndOfFile? <==> c.at == |src| || src[c.at] == NUL
  {
    EndOfFileCase(src, o, c, str);
    hide RawToken;
    if c.at < |src| && (CodePointAt(src, c).cp == 0 || src[c.at] == NUL) {
      assert src[c.at..][0] == src[c.at];
      AsciiStep(src[c.at..]);
    }
  }

  lemma EndOfFileCase(src: Source, o: Options, c: Cursor, str: bool)
    requires Inside(src, c)
    ensures RawToken(src, o, c, str).kind.EndOfFile? <==> CodePointAt(src, c).cp == 0
    ensures c.at == |src| ==> CodePointAt(src, c).cp == 0
  {
    hide LexOther;
  }

  /** With both flags on nothing is left out: the tokens partition the source up to where lexing stops,
      which is its end, a NUL byte, or an unexpected token. */
  lemma {:induction false} TokensPartition(src: Source, o: Options, c: Cursor, str: bool)
    requires Inside(src, c) && o.keepComments && o.lexWhitespace
    ensures var ts := Tokens(src, o, c, str);
            Contiguous(c, ts) && ts != [] && EndsLexing(src, ts[|ts| - 1])
    decreases |src| - c.at
  {
    hide RawToken;
    var t := RawToken(src, o, c, str);
    TokensStep(src, o, c, str, t);
    EndOfFileAt(src, o, c, str);
    if Last(t.kind) {
      assert [t][1..] == [];
    } else {
      TokensPartition(src, o, t.to, t.strExpr);
      var rest := Tokens(src, o, t.to, t.strExpr);
      assert ([t] + rest)[1..] == rest;
    }
  }

  /** The tokens a stream ends with, and where they stand. */
  ghost predicate EndsLexing(src: Source, t: Lexed) {
    t.kind.Unexpected? || (t.kind.EndOfFile? && (t.from.at == |src| || (t.from.at < |src| && src[t.from.at] == 0x00)))
  }

  /** Whatever the flags, the stream ends with the end of the text, with a NUL byte or with an unexpected
      token, and none of these comes earlier. */
  lemma {:induction false} TokensEnd(src: Source, o: Options, c: Cursor, str: bool)
    requires Inside(src, c)
    ensures var ts := Tokens(src, o, c, str);
            && ts != [] && EndsLexing(src, ts[|ts| - 1])
            && forall k :: 0 <= k < |ts| - 1 ==> !Last(ts[k].kind)
    decreases |src| - c.at
  {
    hide RawToken;
    var t := RawToken(src, o, c, str);
    TokensStep(src, o, c, str, t);
    EndOfFileAt(src, o, c, str);
    if !Skipped(o, t.kind) && Last(t.kind) {
    } else {
      TokensEnd(src, o, t.to, t.strExpr);
    }
  }

  // ---------------------------------------------------------------- the text of strings

  predicate TripleQuote(src: Source, k: nat) {
    Is(src, k, '"') && Is(src, k + 1, '"') && Is(src, k + 2, '"')
  }

  /** A multi-line string ends at the first three double quotes in a row, though the reader looks at two
      quotes that are not followed by a third only once; without any it ends behind a NUL or at the end. */
  lemma {:induction false} MultilineStringText(src: Source, c: Cursor)
    requires Inside(src, c)
    ensures var (r, end) := ReadMultilineString(src, c);
            || (TripleQuote(src, end) && r.at == end + 3
                && forall k :: c.at <= k < end ==> !TripleQuote(src, k) && src[k] != NUL)
            || (end == r.at > c.at && src[r.at - 1] == NUL
                && forall k :: c.at <= k < r.at - 1 ==> !TripleQuote(src, k) && src[k] != NUL)
            || (end == r.at == |src| && forall k :: c.at <= k < |src| ==> !TripleQuote(src, k) && src[k] != NUL)
    decreases |src| - c.at
  {
    var b, n := ByteAt(src, c.at), Advance(src, c);
    if b == NUL {
    } else {
      if b == DOUBLE_QUOTE && ByteAt(src, n.at) == DOUBLE_QUOTE {
        var n2 := Advance(src, n);
        if ByteAt(src, n2.at) != DOUBLE_QUOTE {
          assert !TripleQuote(src, c.at) && !TripleQuote(src, n.at);
          hide TripleQuote;
          MultilineStringText(src, n2);
        }
      } else {
        assert !TripleQuote(src, c.at);
        hide TripleQuote;
        MultilineStringText(src, n);
      }
    }
  }

  predicate EndsQuoted(b: Byte) { b == '"' as int || b == 0x0A || b == 0x0D || b == 0x00 }

  /** A single-line string ends behind a double quote, and otherwise behind a line end or a NUL or at the
      end of the text; without escapes that is the first of them. */
  lemma {:induction false} QuotedStringText(src: Source, c: Cursor)
    requires Inside(src, c)
    ensures var (r, ended) := ReadQuotedString(src, c);
            && (ended ==> r.at > c.at && src[r.at - 1] == DOUBLE_QUOTE)
            && (!ended ==> r.at == |src| || (r.at > c.at && EndsQuoted(src[r.at - 1]) && src[r.at - 1] != DOUBLE_QUOTE))
            && ((forall k :: c.at <= k < r.at ==> src[k] != BACKSLASH)
                  ==> forall k :: c.at <= k < r.at - 1 ==> !EndsQuoted(src[k]))
    decreases |src| - c.at
  {
    var b, n := ByteAt(src, c.at), Advance(src, c);
    if b == BACKSLASH {
      QuotedStringText(src, ReadEscape(src, Advance(src, n), ByteAt(src, n.at)));
    } else if !EndsQuoted(b) {
      QuotedStringText(src, n);
    }
  }

  predicate EndsBacktick(src: Source, k: nat)
    requires k < |src|
  {
    Is(src, k, '`') || src[k] == 0x00 || (Is(src, k, '$') && Is(src, k + 1, '{'))
  }

  /** A backtick string ends behind a backtick, in front of a dollar sign and a brace, or in front of a
      NUL or at the end of the text; without escapes that is the first of them. */
  lemma {:induction false} BacktickStringText(src: Source, c: Cursor)
    requires Inside(src, c)
    ensures var (r, end) := ReadBacktickString(src, c); var stop := if end.Closed? then r.at - 1 else r.at;
            && c.at <= stop
            && (end.Closed? ==> src[stop] == BACKTICK)
            && (end.Expression? ==> stop + 1 < |src| && src[stop] == DOLLAR && src[stop + 1] == LBRACE)
            && (end.Open? ==> stop == |src| || src[stop] == NUL)
            && ((forall k :: c.at <= k < stop ==> src[k] != BACKSLASH)
                  ==> forall k :: c.at <= k < stop ==> !EndsBacktick(src, k))
    decreases |src| - c.at
  {
    var b, n := ByteAt(src, c.at), Advance(src, c);
    if b == BACKSLASH {
      BacktickStringText(src, ReadEscape(src, Advance(src, n), ByteAt(src, n.at)));
    } else if c.at < |src| && !EndsBacktick(src, c.at) {
      BacktickStringText(src, n);
    }
  }

  // ---------------------------------------------------------------- the text of numbers

  predicate AsciiDigit(cp: int) { '0' as int <= cp <= '9' as int }

  predicate DigitsAt(src: Source, i: nat, j: nat)
    requires j <= |src|
  {
    forall k :: i <= k < j ==> AsciiDigit(src[k])
  }

  /** From `i` to `j`: `l`, `L`, `f`, `U`, `UL` or `ul`; or `i`, `u` or `ui` with digits; or nothing. */
  predicate SuffixAt(src: Source, i: nat, j: nat)
    requires i <= j <= |src|
  {
    || i == j
    || (j == i + 1 && (Is(src, i, 'l') || Is(src, i, 'L') || Is(src, i, 'f') || Is(src, i, 'U')))
    || (j == i + 2 && ((Is(src, i, 'U') && Is(src, i + 1, 'L')) || (Is(src, i, 'u') && Is(src, i + 1, 'l'))))
    || (j > i && (Is(src, i, 'i') || Is(src, i, 'u')) && DigitsAt(src, i + 1, j))
    || (j > i + 1 && Is(src, i, 'u') && Is(src, i + 1, 'i') && DigitsAt(src, i + 2, j))
  }

  lemma DigitsRun(src: Source, c: Cursor)
    requires Inside(src, c)
    ensures var n := SkipWhile(src, c, Digits());
            DigitsAt(src, c.at, n.at) && (n.at < |src| ==> !AsciiDigit(src[n.at]))
  {
    var n := SkipWhile(src, c, Digits());
    assert forall k :: c.at <= k < n.at ==> Digits()(src[k]);
    assert n.at < |src| ==> !Digits()(src[n.at]);
  }

  /** The suffix reader moves behind the longest suffix that starts at the cursor. */
  lemma SuffixText(src: Source, c: Cursor)
    requires Inside(src, c)
    ensures var r := ReadNumberSuffix(src, c);
            SuffixAt(src, c.at, r.at) && forall j :: r.at < j <= |src| ==> !SuffixAt(src, c.at, j)
  {
    var n := Advance(src, c);
    DigitsRun(src, n);
    DigitsRun(src, Advance(src, n));
    hide SkipWhile;
  }

  /** From `i` to `j`: digits, a dot, digits and perhaps an `f`; or digits and a suffix. */
  predicate NumberAt(src: Source, i: nat, j: nat)
    requires i <= j <= |src|
    decreases j - i
  {
    if i < j && AsciiDigit(src[i]) then NumberAt(src, i + 1, j)
    else (i < j && Is(src, i, '.') && FractionAt(src, i + 1, j)) || SuffixAt(src, i, j)
  }

  predicate FractionAt(src: Source, i: nat, j: nat)
    requires i <= j <= |src|
    decreases j - i
  {
    if i < j && AsciiDigit(src[i]) then FractionAt(src, i + 1, j)
    else i == j || (j == i + 1 && Is(src, i, 'f'))
  }

  lemma {:induction false} BehindDigits(src: Source, i: nat, n: nat, j: nat)
    requires i <= n <= j <= |src| && DigitsAt(src, i, n)
    ensures NumberAt(src, i, j) == NumberAt(src, n, j) && FractionAt(src, i, j) == FractionAt(src, n, j)
    decreases n - i
  {
    if i == n {
    } else {
      BehindDigits(src, i + 1, n, j);
    }
  }

  /** The number reader moves behind the longest number that starts at the cursor. */
  lemma NumberText(src: Source, c: Cursor)
    requires Inside(src, c)
    ensures var r := ReadNumber(src, c);
            NumberAt(src, c.at, r.at) && forall j :: r.at < j <= |src| ==> !NumberAt(src, c.at, j)
  {
    var n, r := SkipWhile(src, c, Digits()), ReadNumber(src, c);
    DigitsRun(src, c);
    BehindDigits(src, c.at, n.at, r.at);
    if ByteAt(src, n.at) == DOT {
      var dot := AdvanceIf(src, n, DOT);
      var f := SkipWhile(src, dot, Digits());
      DigitsRun(src, dot);
      BehindDigits(src, dot.at, f.at, r.at);
      forall j | r.at < j <= |src| ensures !NumberAt(src, c.at, j) {
        BehindDigits(src, c.at, n.at, j);
        BehindDigits(src, dot.at, f.at, j);
      }
    } else {
      SuffixText(src, n);
      forall j | r.at < j <= |src| ensures !NumberAt(src, c.at, j) {
        BehindDigits(src, c.at, n.at, j);
      }
    }
  }
}
