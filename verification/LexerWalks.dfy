/** The readers of the lexer that move byte by byte: all but those of identifiers and of the character of a
    literal. */
module LexerWalks {
  import opened Utf8
  import opened SourceCursor
  import opened LexerSpec

  /** Reading byte by byte from `c` up to `at`. */
  function Walk(src: Source, c: Cursor, at: nat): (r: Cursor)
    requires c.at <= at <= |src|
    ensures r.at == at
    decreases at - c.at
  {
    if c.at == at then c else Advance(src, Walk(src, c, at - 1))
  }

  /** Reading byte by byte from `b` comes to `c`. */
  ghost predicate Walks(src: Source, b: Cursor, c: Cursor) {
    b.at <= c.at <= |src| && c == Walk(src, b, c.at)
  }

  lemma WalkNowhere(src: Source, c: Cursor)
    requires Inside(src, c)
    ensures Walk(src, c, c.at) == c && Walks(src, c, c)
  {
  }

  lemma {:induction false} WalkOn(src: Source, c: Cursor, mid: nat, at: nat)
    requires c.at <= mid <= at <= |src|
    ensures Walk(src, Walk(src, c, mid), at) == Walk(src, c, at)
    decreases at - mid
  {
    if at == mid {
    } else {
      WalkOn(src, c, mid, at - 1);
    }
  }

  /** Positions grow along a walk. */
  lemma {:induction false} WalkGrows(src: Source, c: Cursor, at: nat)
    requires c.at < at <= |src|
    ensures Before(c.pos, Walk(src, c, at).pos)
    decreases at - c.at
  {
    if c.at == at - 1 {
    } else {
      WalkGrows(src, c, at - 1);
    }
  }

  /** So different offsets on a walk have different positions. */
  lemma WalkApart(src: Source, c: Cursor, a: nat, b: nat)
    requires c.at <= a < b <= |src|
    ensures Walk(src, c, a).pos != Walk(src, c, b).pos
  {
    WalkOn(src, c, a, b);
    WalkGrows(src, Walk(src, c, a), b);
  }

  lemma WalkAdvance(src: Source, b: Cursor, c: Cursor)
    requires Walks(src, b, c)
    ensures Walks(src, b, Advance(src, c))
  {
  }

  lemma WalkAdvanceIf(src: Source, b: Cursor, c: Cursor, x: Byte)
    requires Walks(src, b, c) && x != CR
    ensures Walks(src, b, AdvanceIf(src, c, x))
  {
    assert AdvanceIf(src, c, x) == c || AdvanceIf(src, c, x) == Advance(src, c);
  }

  lemma {:induction false} WalkWhile(src: Source, b: Cursor, c: Cursor, p: Byte -> bool)
    requires Walks(src, b, c)
    ensures Walks(src, b, SkipWhile(src, c, p))
    decreases |src| - c.at
  {
    if c.at == |src| || !p(src[c.at]) {
    } else {
      WalkWhile(src, b, Advance(src, c), p);
    }
  }

  lemma WalkSuffix(src: Source, b: Cursor, c: Cursor)
    requires Walks(src, b, c)
    ensures Walks(src, b, ReadNumberSuffix(src, c))
  {
    var n := Advance(src, c);
    WalkWhile(src, b, n, Digits());
    WalkWhile(src, b, Advance(src, n), Digits());
  }

  lemma WalkDecimal(src: Source, b: Cursor, c: Cursor)
    requires Walks(src, b, c)
    ensures Walks(src, b, ReadNumber(src, c))
  {
    var n := SkipWhile(src, c, Digits());
    WalkWhile(src, b, c, Digits());
    WalkAdvanceIf(src, b, n, DOT);
    WalkWhile(src, b, AdvanceIf(src, n, DOT), Digits());
    WalkSuffix(src, b, n);
  }

  lemma WalkNumber(src: Source, b: Cursor, c: Cursor)
    requires Walks(src, b, c)
    ensures Walks(src, b, ReadNumberSuffix(src, c))
    ensures Walks(src, b, ReadNumber(src, c)) && Walks(src, b, ReadZeroNumber(src, c))
  {
    assert Inside(src, c);
    hide Walks, ReadNumberSuffix, ReadNumber, SkipWhile, Advance;
    WalkAdvance(src, b, c);
    WalkSuffix(src, b, c);
    WalkDecimal(src, b, c);
    var n := Advance(src, c);
    WalkWhile(src, b, n, Digits());
    WalkWhile(src, b, n, LettersOrDigits());
    WalkSuffix(src, b, SkipWhile(src, n, Digits()));
    WalkSuffix(src, b, SkipWhile(src, n, LettersOrDigits()));
  }

  lemma {:induction false} WalkBlockComment(src: Source, b: Cursor, c: Cursor)
    requires Walks(src, b, c)
    ensures Walks(src, b, ReadBlockComment(src, c).0)
    decreases |src| - c.at
  {
    var x, n := ByteAt(src, c.at), Advance(src, c);
    if x == NUL || (x == STAR && ByteAt(src, n.at) == SLASH) {
    } else {
      WalkBlockComment(src, b, n);
    }
  }

  lemma {:induction false} WalkMultilineString(src: Source, b: Cursor, c: Cursor)
    requires Walks(src, b, c)
    ensures Walks(src, b, ReadMultilineString(src, c).0)
    decreases |src| - c.at
  {
    var x, n := ByteAt(src, c.at), Advance(src, c);
    if x == NUL {
    } else {
      WalkMultilineString(src, b, n);
      if x == DOUBLE_QUOTE && ByteAt(src, n.at) == DOUBLE_QUOTE {
        WalkMultilineString(src, b, Advance(src, n));
      }
    }
  }

  lemma WalkHex(src: Source, b: Cursor, c: Cursor)
    requires Walks(src, b, c)
    ensures Walks(src, b, ReadHexDigits(src, c))
  {
  }

  lemma WalkUnicode(src: Source, b: Cursor, c: Cursor)
    requires Walks(src, b, c)
    ensures Walks(src, b, ReadUnicodeEscape(src, c))
  {
    assert Inside(src, c);
    hide Walks, Advance, AdvanceIf, SkipWhile;
    var o := AdvanceIf(src, c, LBRACE);
    WalkAdvanceIf(src, b, c, LBRACE);
    WalkWhile(src, b, o, InBraces());
    WalkAdvanceIf(src, b, SkipWhile(src, o, InBraces()), RBRACE);
    var n := Advance(src, c);
    WalkAdvance(src, b, c);
    WalkAdvance(src, b, n);
    WalkAdvance(src, b, Advance(src, n));
    WalkAdvance(src, b, Advance(src, Advance(src, n)));
  }

  lemma WalkEscape(src: Source, b: Cursor, c: Cursor, x: Byte)
    requires Walks(src, b, c)
    ensures Walks(src, b, ReadEscape(src, c, x))
  {
    assert Inside(src, c);
    hide Walks, ReadHexDigits, ReadUnicodeEscape;
    WalkHex(src, b, c);
    WalkUnicode(src, b, c);
  }

  lemma {:induction false} WalkBacktick(src: Source, b: Cursor, c: Cursor)
    requires Walks(src, b, c)
    ensures Walks(src, b, ReadBacktickString(src, c).0)
    decreases |src| - c.at
  {
    var x, n := ByteAt(src, c.at), Advance(src, c);
    WalkAdvance(src, b, c);
    WalkAdvance(src, b, n);
    if x == BACKSLASH {
      WalkEscape(src, b, Advance(src, n), ByteAt(src, n.at));
      WalkBacktick(src, b, ReadEscape(src, Advance(src, n), ByteAt(src, n.at)));
    } else if x != BACKTICK && x != NUL {
      WalkBacktick(src, b, n);
    }
  }

  lemma {:induction false} WalkQuoted(src: Source, b: Cursor, c: Cursor)
    requires Walks(src, b, c)
    ensures Walks(src, b, ReadQuotedString(src, c).0)
    decreases |src| - c.at
  {
    var x, n := ByteAt(src, c.at), Advance(src, c);
    WalkAdvance(src, b, c);
    WalkAdvance(src, b, n);
    if x == BACKSLASH {
      WalkEscape(src, b, Advance(src, n), ByteAt(src, n.at));
      WalkQuoted(src, b, ReadEscape(src, Advance(src, n), ByteAt(src, n.at)));
    } else if x != DOUBLE_QUOTE && x != LF && x != CR && x != NUL {
      WalkQuoted(src, b, n);
    }
  }
}
