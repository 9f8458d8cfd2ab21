/** The token stream with and without comments and white space. */
module LexerModes {
  import opened Utf8
  import opened SourceCursor
  import opened LexerSpec
  import opened LexerWalks

  // ---------------------------------------------------------------- the stream with nothing left out

  /** Every token up to the end or to the first unexpected one, comments and white space included. */
  function RawTokens(src: Source, o: Options, c: Cursor, str: bool): seq<Lexed>
    requires Inside(src, c)
    decreases |src| - c.at
  {
    var t := RawToken(src, o, c, str);
    if Last(t.kind) then [t] else [t] + RawTokens(src, o, t.to, t.strExpr)
  }

  /** Without the comments and the white space that the options leave out. */
  function Kept(o: Options, ts: seq<Lexed>): seq<Lexed> {
    if ts == [] then []
    else
      var kind := ts[0].kind;
      var comment := kind.SingleLineComment? || kind.MultiLineComment?;
      (if (comment && !o.keepComments) || (kind.Whitespace? && !o.lexWhitespace) then [] else [ts[0]])
      + Kept(o, ts[1..])
  }

  lemma TokensStep(src: Source, o: Options, c: Cursor, str: bool, t: Lexed)
    requires Inside(src, c) && t == RawToken(src, o, c, str)
    ensures Tokens(src, o, c, str)
            == if Skipped(o, t.kind) then Tokens(src, o, t.to, t.strExpr)
               else if Last(t.kind) then [t]
               else [t] + Tokens(src, o, t.to, t.strExpr)
  {
    hide RawToken;
  }

  /** The stream of `getTokens` is the raw stream without the kinds the options leave out. */
  lemma {:induction false} TokensAreKept(src: Source, o: Options, c: Cursor, str: bool)
    requires Inside(src, c)
    ensures Tokens(src, o, c, str) == Kept(o, RawTokens(src, o, c, str))
    decreases |src| - c.at
  {
    hide RawToken, Tokens;
    var t := RawToken(src, o, c, str);
    TokensStep(src, o, c, str, t);
    if Last(t.kind) {
      assert Kept(o, [t]) == [t] + Kept(o, []);
    } else {
      TokensAreKept(src, o, t.to, t.strExpr);
      var rest := RawTokens(src, o, t.to, t.strExpr);
      assert ([t] + rest)[1..] == rest;
    }
  }

  // ---------------------------------------------------------------- the two comment modes

  function Without(o: Options): Options { o.(keepComments := false, lexWhitespace := false) }

  function WithComments(o: Options): Options { o.(keepComments := true) }

  function NoComments(o: Options): Options { o.(keepComments := false) }

  lemma {:induction false} CommentMoves(src: Source, c: Cursor)
    requires Inside(src, c) && c.at < |src|
    ensures c.at < ReadBlockComment(src, c).0.at
  {
  }

  /** A comment opened at a `/` before `c` ends at the same byte in both modes, exactly if the byte after
      the `*` is no `/` or is the last byte of the source. */
  lemma CommentModes(src: Source, c: Cursor)
    requires Inside(src, c) && ByteAt(src, c.at) == STAR
    ensures ReadBlockComment(src, Advance(src, c)).0 == ReadBlockComment(src, c).0
            <==> !(ByteAt(src, c.at + 1) == SLASH && c.at + 2 < |src|)
  {
    var n := Advance(src, c);
    if ByteAt(src, n.at) == SLASH {
      var n2 := Advance(src, n);
      if n2.at < |src| {
        CommentMoves(src, n2);
      }
    }
  }

  // The block comment token `t` opens with a slash, a star and another slash, and something follows these.
  predicate Ambiguous(src: Source, t: Lexed) {
    t.kind.MultiLineComment? && ByteAt(src, t.from.at + 2) == SLASH && t.from.at + 3 < |src|
  }

  predicate SameToken(a: Lexed, b: Lexed) {
    a == b || (IsComment(a.kind) && a == b.(value := a.value))
  }

  lemma SlashModes(src: Source, o: Options, from: Cursor, c: Cursor, str: bool)
    requires Inside(src, c) && c.at == from.at + 1
    ensures var kept := LexSlash(src, WithComments(o), from, c, str);
            var dropped := LexSlash(src, NoComments(o), from, c, str);
            && Ambiguous(src, kept) == Ambiguous(src, dropped)
            && (if Ambiguous(src, dropped) then kept.to != dropped.to else SameToken(kept, dropped))
  {
    var b := ByteAt(src, c.at);
    if b == STAR {
      CommentModes(src, c);
    } else if b == SLASH {
      assert InLine()(src[c.at]);
    }
  }

  /** One raw token in the two modes. */
  lemma RawModes(src: Source, o: Options, c: Cursor, str: bool)
    requires Inside(src, c)
    ensures var kept, dropped := RawToken(src, WithComments(o), c, str), RawToken(src, NoComments(o), c, str);
            && Ambiguous(src, kept) == Ambiguous(src, dropped)
            && (if Ambiguous(src, dropped) then kept.to != dropped.to else SameToken(kept, dropped))
  {
    var d := CodePointAt(src, c);
    if d.cp == SLASH {
      SlashIsOneByte(src, c);
      SlashModes(src, o, c, AdvanceCodePoint(src, c), str);
    } else {
      OtherModes(src, o, c, str);
    }
  }

  lemma SlashIsOneByte(src: Source, c: Cursor)
    requires Inside(src, c) && CodePointAt(src, c).cp == SLASH
    ensures AdvanceCodePoint(src, c).at == c.at + 1
  {
    AsciiStep(src[c.at..]);
  }

  lemma OtherModes(src: Source, o: Options, c: Cursor, str: bool)
    requires Inside(src, c) && CodePointAt(src, c).cp != SLASH
    ensures RawToken(src, WithComments(o), c, str) == RawToken(src, NoComments(o), c, str)
    ensures !Ambiguous(src, RawToken(src, NoComments(o), c, str))
  {
    hide LexOther;
  }

  /** The two raw streams read the same stretches of the source. */
  ghost predicate SameSpans(a: seq<Lexed>, b: seq<Lexed>) {
    if a == [] || b == [] then a == b
    else a[0].from == b[0].from && a[0].to == b[0].to && SameSpans(a[1..], b[1..])
  }

  ghost predicate NoneAmbiguous(src: Source, ts: seq<Lexed>) {
    if ts == [] then true else !Ambiguous(src, ts[0]) && NoneAmbiguous(src, ts[1..])
  }

  ghost predicate SameTokens(a: seq<Lexed>, b: seq<Lexed>) {
    if a == [] || b == [] then a == b else SameToken(a[0], b[0]) && SameTokens(a[1..], b[1..])
  }

  lemma {:induction false} StreamsAgree(src: Source, o: Options, c: Cursor, str: bool)
    requires Inside(src, c)
    ensures var kept, dropped := RawTokens(src, WithComments(o), c, str), RawTokens(src, NoComments(o), c, str);
            if NoneAmbiguous(src, dropped) then SameTokens(kept, dropped) else !SameSpans(kept, dropped)
    decreases |src| - c.at
  {
    hide RawToken;
    var k, d := RawToken(src, WithComments(o), c, str), RawToken(src, NoComments(o), c, str);
    RawModes(src, o, c, str);
    assert RawTokens(src, WithComments(o), c, str)[0] == k && RawTokens(src, NoComments(o), c, str)[0] == d;
    if !Ambiguous(src, d) && !Last(d.kind) {
      StreamsAgree(src, o, d.to, d.strExpr);
      var ks, ds := RawTokens(src, WithComments(o), d.to, d.strExpr), RawTokens(src, NoComments(o), d.to, d.strExpr);
      assert ([k] + ks)[1..] == ks && ([d] + ds)[1..] == ds;
    } else if !Ambiguous(src, d) {
      assert RawTokens(src, WithComments(o), c, str) == [k] && RawTokens(src, NoComments(o), c, str) == [d];
      assert [k][1..] == [] && [d][1..] == [];
      assert SameTokens([k], [d]);
      assert NoneAmbiguous(src, []);
      assert NoneAmbiguous(src, [d]);
    }
  }

  lemma {:induction false} SameTokensSameSpans(a: seq<Lexed>, b: seq<Lexed>)
    requires SameTokens(a, b)
    ensures SameSpans(a, b)
  {
    if a == [] {
    } else {
      SameTokensSameSpans(a[1..], b[1..]);
    }
  }

  /** The two comment modes divide a source into the same stretches, exactly if no comment the lexer
      meets is ambiguous. */
  lemma CommentModesTheorem(src: Source, o: Options)
    ensures SameSpans(RawTokens(src, WithComments(o), START, false), RawTokens(src, NoComments(o), START, false))
            <==> NoneAmbiguous(src, RawTokens(src, NoComments(o), START, false))
  {
    hide RawTokens;
    var kept, dropped := RawTokens(src, WithComments(o), START, false), RawTokens(src, NoComments(o), START, false);
    StreamsAgree(src, o, START, false);
    if NoneAmbiguous(src, dropped) {
      SameTokensSameSpans(kept, dropped);
    }
  }

  // ---------------------------------------------------------------- dropping comments afterwards

  /** The filter in front of the parser. */
  function CleanTokens(ts: seq<Lexed>): seq<Lexed> {
    if ts == [] then []
    else (if IsComment(ts[0].kind) || ts[0].kind.Whitespace? then [] else [ts[0]]) + CleanTokens(ts[1..])
  }

  lemma {:induction false} CleanKept(o: Options, ts: seq<Lexed>)
    ensures CleanTokens(Kept(o, ts)) == Kept(Without(o), ts)
  {
    if ts == [] {
    } else {
      CleanKept(o, ts[1..]);
      assert ([ts[0]] + Kept(o, ts[1..]))[1..] == Kept(o, ts[1..]);
      assert [] + Kept(o, ts[1..]) == Kept(o, ts[1..]);
      assert [] + CleanTokens(Kept(o, ts[1..])) == CleanTokens(Kept(o, ts[1..]));
    }
  }

  lemma {:induction false} KeptAgree(o: Options, a: seq<Lexed>, b: seq<Lexed>)
    requires SameTokens(a, b)
    ensures Kept(Without(o), a) == Kept(Without(o), b)
  {
    if a == [] {
    } else {
      KeptAgree(o, a[1..], b[1..]);
    }
  }

  lemma RawTokenIgnoresWhitespaceFlag(src: Source, o: Options, p: Options, c: Cursor, str: bool)
    requires Inside(src, c) && p == o.(lexWhitespace := p.lexWhitespace)
    ensures RawToken(src, o, c, str) == RawToken(src, p, c, str)
  {
    hide LexOther;
  }

  /** The raw stream does not depend on the white-space flag. */
  lemma {:induction false} RawIgnoresWhitespaceFlag(src: Source, o: Options, p: Options, c: Cursor, str: bool)
    requires Inside(src, c) && p == o.(lexWhitespace := p.lexWhitespace)
    ensures RawTokens(src, o, c, str) == RawTokens(src, p, c, str)
    decreases |src| - c.at
  {
    RawTokenIgnoresWhitespaceFlag(src, o, p, c, str);
    hide RawToken;
    var t := RawToken(src, o, c, str);
    if Last(t.kind) {
    } else {
      RawIgnoresWhitespaceFlag(src, o, p, t.to, t.strExpr);
    }
  }

  /** Lexing with any flags and dropping comments and white space gives the token stream of the lexer
      that leaves them out: types, values, positions and reports. */
  lemma CleanTokensTheorem(src: Source, o: Options)
    requires o.keepComments ==> NoneAmbiguous(src, RawTokens(src, NoComments(o), START, false))
    ensures CleanTokens(Tokens(src, o, START, false)) == Tokens(src, Without(o), START, false)
  {
    TokensAreKept(src, o, START, false);
    CleanKept(o, RawTokens(src, o, START, false));
    TokensAreKept(src, Without(o), START, false);
    RawIgnoresWhitespaceFlag(src, NoComments(o), Without(o), START, false);
    if o.keepComments {
      StreamsAgree(src, o, START, false);
      KeptAgree(o, RawTokens(src, o, START, false), RawTokens(src, NoComments(o), START, false));
    }
  }

  // A source in which a slash, a star and a slash never stand in a row, except at its end.
  ghost predicate NoAmbiguousOpener(src: Source) {
    forall i :: 0 <= i < |src| - 3 ==> !(src[i] == SLASH && src[i + 1] == STAR && src[i + 2] == SLASH)
  }

  lemma CommentStart(src: Source, o: Options, c: Cursor, str: bool)
    requires Inside(src, c) && RawToken(src, o, c, str).kind.MultiLineComment?
    ensures c.at + 1 < |src| && src[c.at] == SLASH && src[c.at + 1] == STAR
  {
    CommentCase(src, o, c, str);
    hide RawToken;
    SlashIsOneByte(src, c);
    AsciiStep(src[c.at..]);
  }

  lemma CommentCase(src: Source, o: Options, c: Cursor, str: bool)
    requires Inside(src, c) && RawToken(src, o, c, str).kind.MultiLineComment?
    ensures CodePointAt(src, c).cp == SLASH && ByteAt(src, AdvanceCodePoint(src, c).at) == STAR
  {
    hide LexOther;
  }

  lemma {:induction false} NoOpenerNoneAmbiguous(src: Source, o: Options, c: Cursor, str: bool)
    requires Inside(src, c) && NoAmbiguousOpener(src)
    ensures NoneAmbiguous(src, RawTokens(src, o, c, str))
    decreases |src| - c.at
  {
    hide RawToken;
    var t := RawToken(src, o, c, str);
    if t.kind.MultiLineComment? {
      CommentStart(src, o, c, str);
    }
    assert !Ambiguous(src, t);
    if !Last(t.kind) {
      NoOpenerNoneAmbiguous(src, o, t.to, t.strExpr);
      var rest := RawTokens(src, o, t.to, t.strExpr);
      assert ([t] + rest)[1..] == rest;
    }
  }

  /** The same for every source without such a sequence, wherever it would stand. */
  lemma CleanTokensCorollary(src: Source, o: Options)
    requires NoAmbiguousOpener(src)
    ensures CleanTokens(Tokens(src, o, START, false)) == Tokens(src, Without(o), START, false)
  {
    NoOpenerNoneAmbiguous(src, NoComments(o), START, false);
    CleanTokensTheorem(src, o);
  }

  // ---------------------------------------------------------------- when dropping comments afterwards is the same

  /** Which case of the switch makes comments and white space. */
  lemma SkippedCase(src: Source, o: Options, c: Cursor, str: bool)
    requires Inside(src, c)
    ensures var t, cp, n := RawToken(src, o, c, str), CodePointAt(src, c).cp, AdvanceCodePoint(src, c);
            && (t.kind.Whitespace? ==> (cp == BLANK || cp == TAB) && t.to == SkipWhile(src, n, Blanks()))
            && (IsComment(t.kind) ==> cp == SLASH && t == LexSlash(src, o, c, n, str))
  {
    hide LexOther;
  }

  predicate IsTrivia(k: Kind) { IsComment(k) || k.Whitespace? }

  /** Behind the comments and the white space from `c` on. */
  function SkipTrivia(src: Source, o: Options, c: Cursor, str: bool): (r: Cursor)
    requires Inside(src, c)
    ensures Inside(src, r) && c.at <= r.at
    decreases |src| - c.at
  {
    var t := RawToken(src, o, c, str);
    if IsTrivia(t.kind) then SkipTrivia(src, o, t.to, str) else c
  }

  /** The tokens from `c` on that are neither comments nor white space. */
  ghost function Clean(src: Source, o: Options, c: Cursor, str: bool): seq<Lexed>
    requires Inside(src, c)
  {
    Kept(Without(o), RawTokens(src, o, c, str))
  }

  /** What the parser has of a token. */
  datatype Token = Token(kind: Kind, value: seq<Byte>, position: Position)

  ghost function AsTokens(ts: seq<Lexed>): seq<Token> {
    if ts == [] then [] else [Token(ts[0].kind, ts[0].value, ts[0].from.pos)] + AsTokens(ts[1..])
  }

  /** What the two modes have in common from `c` on: they skip to the same offset behind every ambiguous
      comment that the lexer without comments meets. */
  ghost predicate Harmless(src: Source, o: Options, c: Cursor, str: bool)
    requires Inside(src, c)
    decreases |src| - c.at
  {
    var t := RawToken(src, NoComments(o), c, str);
    if Ambiguous(src, t) then
      var kept := SkipTrivia(src, WithComments(o), RawToken(src, WithComments(o), c, str).to, str);
      var dropped := SkipTrivia(src, NoComments(o), t.to, str);
      kept.at == dropped.at && Harmless(src, o, dropped, str)
    else Last(t.kind) || Harmless(src, o, t.to, t.strExpr)
  }

  lemma CleanStep(src: Source, o: Options, c: Cursor, str: bool, t: Lexed)
    requires Inside(src, c) && t == RawToken(src, o, c, str)
    ensures Clean(src, o, c, str)
            == if IsTrivia(t.kind) then Clean(src, o, t.to, t.strExpr)
               else if Last(t.kind) then [t]
               else [t] + Clean(src, o, t.to, t.strExpr)
  {
    hide RawToken;
    var ts := RawTokens(src, o, c, str);
    if Last(t.kind) {
      assert ts == [t] && [t][1..] == [];
      assert Kept(Without(o), [t]) == [t] + Kept(Without(o), []);
    } else {
      var rest := RawTokens(src, o, t.to, t.strExpr);
      assert ts == [t] + rest && ([t] + rest)[1..] == rest;
      assert [] + Kept(Without(o), rest) == Kept(Without(o), rest);
    }
  }

  /** Comments and white space leave the string-expression flag alone. */
  lemma TriviaKeepsFlag(src: Source, o: Options, c: Cursor, str: bool)
    requires Inside(src, c)
    ensures var t := RawToken(src, o, c, str); IsTrivia(t.kind) ==> t.strExpr == str
  {
    hide LexOther;
  }

  lemma {:induction false} CleanSkips(src: Source, o: Options, c: Cursor, str: bool)
    requires Inside(src, c)
    ensures var n := SkipTrivia(src, o, c, str);
            && Clean(src, o, c, str) == Clean(src, o, n, str)
            && Clean(src, o, c, str) != [] && Clean(src, o, c, str)[0].from == n
    decreases |src| - c.at
  {
    hide RawToken, Clean;
    var t := RawToken(src, o, c, str);
    CleanStep(src, o, c, str, t);
    TriviaKeepsFlag(src, o, c, str);
    if !IsTrivia(t.kind) {
    } else {
      CleanSkips(src, o, t.to, str);
    }
  }

  // Trivia hold no code point of more than one byte that matters.

  lemma SlashWalks(src: Source, o: Options, from: Cursor, c: Cursor, str: bool)
    requires Inside(src, c)
    ensures var t := LexSlash(src, o, from, c, str);
            IsComment(t.kind) ==> c.at <= t.to.at <= |src| && t.to == Walk(src, c, t.to.at)
  {
    var start := if o.keepComments then Advance(src, c) else c;
    WalkAdvance(src, c, c);
    WalkWhile(src, c, start, InLine());
    WalkBlockComment(src, c, start);
    hide SkipWhile, ReadBlockComment, Walk;
  }

  lemma TriviaWalks(src: Source, o: Options, c: Cursor, str: bool)
    requires Inside(src, c)
    ensures var t := RawToken(src, o, c, str);
            IsTrivia(t.kind) ==> c.at < t.to.at && t.to == Walk(src, c, t.to.at)
  {
    SkippedCase(src, o, c, str);
    hide RawToken, LexSlash, SkipWhile;
    var t := RawToken(src, o, c, str);
    if IsTrivia(t.kind) {
      assert src[c.at..][0] == src[c.at];
      AsciiStep(src[c.at..]);
      AsciiToken(src, c);
      var n := Advance(src, c);
      SlashWalks(src, o, c, n, str);
      WalkAdvance(src, c, c);
      WalkWhile(src, c, n, Blanks());
      if IsComment(t.kind) {
        WalkOn(src, c, n.at, t.to.at);
      }
    }
  }

  lemma {:induction false} SkipWalks(src: Source, o: Options, c: Cursor, str: bool)
    requires Inside(src, c)
    ensures SkipTrivia(src, o, c, str) == Walk(src, c, SkipTrivia(src, o, c, str).at)
    decreases |src| - c.at
  {
    hide RawToken, Walk;
    var t, n := RawToken(src, o, c, str), SkipTrivia(src, o, c, str);
    if IsTrivia(t.kind) {
      TriviaWalks(src, o, c, str);
      SkipWalks(src, o, t.to, str);
      WalkOn(src, c, t.to.at, n.at);
    } else {
      WalkNowhere(src, c);
    }
  }

  /** An ambiguous comment ends at once when comments are dropped, and later when they are kept. */
  lemma AmbiguousEnds(src: Source, o: Options, c: Cursor, str: bool)
    requires Inside(src, c) && Ambiguous(src, RawToken(src, NoComments(o), c, str))
    ensures var kept, dropped := RawToken(src, WithComments(o), c, str), RawToken(src, NoComments(o), c, str);
            && IsTrivia(kept.kind) && IsTrivia(dropped.kind)
            && dropped.to.at == c.at + 3 < kept.to.at
  {
    SkippedCase(src, NoComments(o), c, str);
    assert CodePointAt(src, c).cp == SLASH;
    SlashIsOneByte(src, c);
    var n := AdvanceCodePoint(src, c);
    AmbiguousSlash(src, o, c, n, str);
    SlashToken(src, WithComments(o), c, str);
  }

  lemma SlashToken(src: Source, o: Options, c: Cursor, str: bool)
    requires Inside(src, c) && CodePointAt(src, c).cp == SLASH
    ensures RawToken(src, o, c, str) == LexSlash(src, o, c, AdvanceCodePoint(src, c), str)
  {
    hide LexSlash, LexOther;
  }

  lemma AmbiguousSlash(src: Source, o: Options, from: Cursor, c: Cursor, str: bool)
    requires Inside(src, c) && c.at == from.at + 1 && Ambiguous(src, LexSlash(src, NoComments(o), from, c, str))
    ensures var kept := LexSlash(src, WithComments(o), from, c, str);
            var dropped := LexSlash(src, NoComments(o), from, c, str);
            && kept.kind.MultiLineComment? && dropped.to.at == from.at + 3 < kept.to.at
  {
    var n := Advance(src, c);
    var n2 := Advance(src, n);
    CommentMoves(src, n2);
  }

  /** Skipping to the same offset is skipping to the same cursor, to another offset to another position. */
  lemma SameSkip(src: Source, o: Options, c: Cursor, str: bool)
    requires Inside(src, c) && Ambiguous(src, RawToken(src, NoComments(o), c, str))
    ensures var kept := SkipTrivia(src, WithComments(o), RawToken(src, WithComments(o), c, str).to, str);
            var dropped := SkipTrivia(src, NoComments(o), RawToken(src, NoComments(o), c, str).to, str);
            && c.at < dropped.at
            && if kept.at == dropped.at then kept == dropped else kept.pos != dropped.pos
  {
    var k, d := RawToken(src, WithComments(o), c, str), RawToken(src, NoComments(o), c, str);
    AmbiguousEnds(src, o, c, str);
    hide RawToken, SkipTrivia, Walk, Ambiguous;
    TriviaWalks(src, WithComments(o), c, str);
    TriviaWalks(src, NoComments(o), c, str);
    SkipWalks(src, WithComments(o), k.to, str);
    SkipWalks(src, NoComments(o), d.to, str);
    WalkOn(src, c, k.to.at, SkipTrivia(src, WithComments(o), k.to, str).at);
    WalkOn(src, c, d.to.at, SkipTrivia(src, NoComments(o), d.to, str).at);
    var m, n := SkipTrivia(src, WithComments(o), k.to, str).at, SkipTrivia(src, NoComments(o), d.to, str).at;
    if m < n {
      WalkApart(src, c, m, n);
    } else if n < m {
      WalkApart(src, c, n, m);
    }
  }

  lemma FirstToken(a: seq<Lexed>, b: seq<Lexed>)
    requires a != [] && b != [] && a[0].from.pos != b[0].from.pos
    ensures AsTokens(a) != AsTokens(b)
  {
    assert AsTokens(a)[0].position == a[0].from.pos && AsTokens(b)[0].position == b[0].from.pos;
  }

  /** One step of the comparison of the two modes, at an ambiguous comment and elsewhere. */
  lemma CleanAmbiguous(src: Source, o: Options, c: Cursor, str: bool)
    requires Inside(src, c) && Ambiguous(src, RawToken(src, NoComments(o), c, str))
    ensures var kept := SkipTrivia(src, WithComments(o), RawToken(src, WithComments(o), c, str).to, str);
            var n := SkipTrivia(src, NoComments(o), RawToken(src, NoComments(o), c, str).to, str);
            var ks, ds := Clean(src, WithComments(o), c, str), Clean(src, NoComments(o), c, str);
            && c.at < n.at
            && if kept.at == n.at
               then ks == Clean(src, WithComments(o), n, str) && ds == Clean(src, NoComments(o), n, str)
               else AsTokens(ks) != AsTokens(ds)
  {
    hide *;
    var k, d := RawToken(src, WithComments(o), c, str), RawToken(src, NoComments(o), c, str);
    AmbiguousEnds(src, o, c, str);
    CleanStep(src, WithComments(o), c, str, k);
    CleanStep(src, NoComments(o), c, str, d);
    TriviaKeepsFlag(src, WithComments(o), c, str);
    TriviaKeepsFlag(src, NoComments(o), c, str);
    CleanSkips(src, WithComments(o), k.to, str);
    CleanSkips(src, NoComments(o), d.to, str);
    SameSkip(src, o, c, str);
    var ks, ds := Clean(src, WithComments(o), c, str), Clean(src, NoComments(o), c, str);
    if ks[0].from.pos != ds[0].from.pos {
      FirstToken(ks, ds);
    }
  }

  lemma CleanSame(src: Source, o: Options, c: Cursor, str: bool)
    requires Inside(src, c) && !Ambiguous(src, RawToken(src, NoComments(o), c, str))
    ensures var d := RawToken(src, NoComments(o), c, str);
            var ks, ds := Clean(src, WithComments(o), c, str), Clean(src, NoComments(o), c, str);
            if Last(d.kind) then ks == ds
            else var k2, d2 := Clean(src, WithComments(o), d.to, d.strExpr), Clean(src, NoComments(o), d.to, d.strExpr);
                 && (k2 == d2 ==> ks == ds)
                 && (AsTokens(ks) == AsTokens(ds) <==> AsTokens(k2) == AsTokens(d2))
  {
    hide RawToken, Clean, Ambiguous, AsTokens;
    var k, d := RawToken(src, WithComments(o), c, str), RawToken(src, NoComments(o), c, str);
    RawModes(src, o, c, str);
    CleanStep(src, WithComments(o), c, str, k);
    CleanStep(src, NoComments(o), c, str, d);
    if !IsTrivia(d.kind) && !Last(d.kind) {
      SameTail(k, Clean(src, WithComments(o), d.to, d.strExpr), Clean(src, NoComments(o), d.to, d.strExpr));
    }
  }

  lemma SameTail(t: Lexed, a: seq<Lexed>, b: seq<Lexed>)
    ensures AsTokens([t] + a) == AsTokens([t] + b) <==> AsTokens(a) == AsTokens(b)
  {
    assert ([t] + a)[1..] == a && ([t] + b)[1..] == b;
    assert AsTokens([t] + a)[1..] == AsTokens(a) && AsTokens([t] + b)[1..] == AsTokens(b);
  }

  lemma {:induction false} CleanExact(src: Source, o: Options, c: Cursor, str: bool)
    requires Inside(src, c)
    ensures var ks, ds := Clean(src, WithComments(o), c, str), Clean(src, NoComments(o), c, str);
            && (Harmless(src, o, c, str) ==> ks == ds)
            && (AsTokens(ks) == AsTokens(ds) <==> Harmless(src, o, c, str))
    decreases |src| - c.at
  {
    hide RawToken, Clean, SkipTrivia, Ambiguous, AsTokens;
    var d := RawToken(src, NoComments(o), c, str);
    if Ambiguous(src, d) {
      CleanAmbiguous(src, o, c, str);
      CleanExact(src, o, SkipTrivia(src, NoComments(o), d.to, str), str);
    } else {
      CleanSame(src, o, c, str);
      if !Last(d.kind) {
        CleanExact(src, o, d.to, d.strExpr);
      }
    }
  }

  /** Lexing with comments and dropping them afterwards gives the tokens of the lexer that drops them,
      exactly if behind every ambiguous comment it meets the two modes skip to the same offset.  If they do
      not, the tokens differ for the parser: in a type, a value or a position, or in number. */
  lemma CleanTokensExact(src: Source, o: Options)
    ensures var kept, dropped := CleanTokens(Tokens(src, WithComments(o), START, false)),
                                 Tokens(src, Without(o), START, false);
            && (Harmless(src, o, START, false) ==> kept == dropped)
            && (AsTokens(kept) == AsTokens(dropped) <==> Harmless(src, o, START, false))
  {
    TokensAreKept(src, WithComments(o), START, false);
    CleanKept(WithComments(o), RawTokens(src, WithComments(o), START, false));
    TokensAreKept(src, Without(o), START, false);
    RawIgnoresWhitespaceFlag(src, NoComments(o), Without(o), START, false);
    CleanExact(src, o, START, false);
    assert Without(WithComments(o)) == Without(o) && Without(NoComments(o)) == Without(o);
    hide RawTokens, Tokens, Kept, Harmless, CleanTokens, AsTokens;
  }

  /** The first ambiguous comment the lexer without comments meets ends, when comments are kept, behind the
      start of a token that is neither a comment nor white space. */
  ghost predicate Swallows(src: Source, o: Options, c: Cursor, str: bool)
    requires Inside(src, c)
    decreases |src| - c.at
  {
    var t := RawToken(src, NoComments(o), c, str);
    if Ambiguous(src, t) then
      SkipTrivia(src, NoComments(o), t.to, str).at < RawToken(src, WithComments(o), c, str).to.at
    else !Last(t.kind) && Swallows(src, o, t.to, t.strExpr)
  }

  lemma {:induction false} SwallowedIsHarm(src: Source, o: Options, c: Cursor, str: bool)
    requires Inside(src, c)
    ensures Swallows(src, o, c, str) ==> !Harmless(src, o, c, str)
    decreases |src| - c.at
  {
    hide RawToken, SkipTrivia, Ambiguous;
    var t := RawToken(src, NoComments(o), c, str);
    if Ambiguous(src, t) || Last(t.kind) {
    } else {
      SwallowedIsHarm(src, o, t.to, t.strExpr);
    }
  }

  /** Then the parser gets different tokens, whatever follows; above all when such a token follows the first ambiguous
      comment directly. */
  lemma SwallowedTokens(src: Source, o: Options)
    ensures Swallows(src, o, START, false) ==>
      AsTokens(CleanTokens(Tokens(src, WithComments(o), START, false)))
      != AsTokens(Tokens(src, Without(o), START, false))
  {
    SwallowedIsHarm(src, o, START, false);
    CleanTokensExact(src, o);
  }

  lemma DirectlyFollowed(src: Source, o: Options, c: Cursor, str: bool)
    requires Inside(src, c) && Ambiguous(src, RawToken(src, NoComments(o), c, str))
    requires !IsTrivia(RawToken(src, NoComments(o), RawToken(src, NoComments(o), c, str).to, str).kind)
    ensures Swallows(src, o, c, str)
  {
    AmbiguousEnds(src, o, c, str);
    hide RawToken, Ambiguous;
  }

  // ---------------------------------------------------------------- two sources

  lemma AsciiToken(src: Source, c: Cursor)
    requires Inside(src, c) && c.at < |src| && src[c.at] < 0x80 && src[c.at] != CR && src[c.at] != LF && src[c.at] != FF
    ensures CodePointAt(src, c).cp == src[c.at] && AdvanceCodePoint(src, c) == Advance(src, c)
  {
    assert src[c.at..][0] == src[c.at];
    AsciiStep(src[c.at..]);
  }

  /** The first token of a source that starts with slash, star and slash, when comments are dropped. */
  lemma OpenedComment(src: Source, o: Options)
    requires |src| > 3 && src[0] == SLASH && src[1] == STAR && src[2] == SLASH
    ensures var t := RawToken(src, NoComments(o), START, false);
            Ambiguous(src, t) && t.to.at == 3 && !t.strExpr
  {
    AsciiToken(src, START);
    SlashToken(src, NoComments(o), START, false);
    var c := Advance(src, START);
    var n := Advance(src, c);
    assert ByteAt(src, c.at) == STAR && ByteAt(src, n.at) == SLASH;
    assert ReadBlockComment(src, c).0 == Advance(src, n);
    hide RawToken, ReadBlockComment;
  }

  lemma PlusToken(src: Source, o: Options, c: Cursor, str: bool)
    requires Inside(src, c) && CodePointAt(src, c).cp == PLUS
    ensures RawToken(src, o, c, str).kind.Symbol?
  {
  }

  /** The source slash, star, slash, plus: without comments the lexer sees the plus, with comments the
      comment runs to the end. */
  lemma AmbiguousCommentExample(o: Options)
    ensures var src := [SLASH, STAR, SLASH, PLUS];
            AsTokens(CleanTokens(Tokens(src, WithComments(o), START, false)))
            != AsTokens(Tokens(src, Without(o), START, false))
  {
    var src := [SLASH, STAR, SLASH, PLUS];
    OpenedComment(src, o);
    hide RawToken, Ambiguous;
    var t := RawToken(src, NoComments(o), START, false);
    AsciiToken(src, t.to);
    PlusToken(src, NoComments(o), t.to, false);
    DirectlyFollowed(src, o, START, false);
    SwallowedTokens(src, o);
  }

  lemma BlankToken(src: Source, o: Options, c: Cursor, str: bool)
    requires Inside(src, c) && c.at + 1 == |src| && CodePointAt(src, c).cp == BLANK
    ensures var t := RawToken(src, o, c, str); t.kind.Whitespace? && t.to.at == |src| && t.strExpr == str
  {
    AsciiStep(src[c.at..]);
    hide LexOther, CodePointAt;
  }

  lemma EndToken(src: Source, o: Options, c: Cursor, str: bool)
    requires c.at == |src|
    ensures RawToken(src, o, c, str).kind.EndOfFile? && SkipTrivia(src, o, c, str) == c
  {
    hide LexOther;
  }

  /** The source slash, star, slash, blank: the comment is ambiguous, and the tokens are the same. */
  lemma HarmlessCommentExample(o: Options)
    ensures var src := [SLASH, STAR, SLASH, BLANK];
            && Ambiguous(src, RawToken(src, NoComments(o), START, false))
            && CleanTokens(Tokens(src, WithComments(o), START, false)) == Tokens(src, Without(o), START, false)
  {
    var src := [SLASH, STAR, SLASH, BLANK];
    OpenedComment(src, o);
    AmbiguousEnds(src, o, START, false);
    hide RawToken, Ambiguous;
    var k, d := RawToken(src, WithComments(o), START, false), RawToken(src, NoComments(o), START, false);
    AsciiToken(src, d.to);
    BlankToken(src, NoComments(o), d.to, false);
    var n := RawToken(src, NoComments(o), d.to, false).to;
    EndToken(src, NoComments(o), n, false);
    EndToken(src, WithComments(o), k.to, false);
    CleanTokensExact(src, o);
  }
}
