/** The lexer: reader loops over a source provider, `getNextToken` and `getTokens`. */
module Lexer {
  import opened Utf8
  import opened SourceCursor
  import opened Spec = LexerSpec

  // ---------------------------------------------------------------- reader loops

  method ReadDigits(provider: SourceProvider)
    requires provider.Valid()
    modifies provider
    ensures provider.Valid()
    ensures provider.Here() == SkipWhile(provider.src, old(provider.Here()), Digits())
  {
    while true
      invariant provider.Valid()
      invariant SkipWhile(provider.src, provider.Here(), Digits())
                == SkipWhile(provider.src, old(provider.Here()), Digits())
      decreases |provider.src| - provider.at
    {
      var next := provider.Peek();
      if next != NUL && IsDigit(next) {
        provider.Increment();
      } else {
        return;
      }
    }
  }

  method ReadAlphaOrDigits(provider: SourceProvider)
    requires provider.Valid()
    modifies provider
    ensures provider.Valid()
    ensures provider.Here() == SkipWhile(provider.src, old(provider.Here()), LettersOrDigits())
  {
    while true
      invariant provider.Valid()
      invariant SkipWhile(provider.src, provider.Here(), LettersOrDigits())
                == SkipWhile(provider.src, old(provider.Here()), LettersOrDigits())
      decreases |provider.src| - provider.at
    {
      var next := provider.Peek();
      if next != NUL && (IsLetter(next) || IsDigit(next)) {
        provider.Increment();
      } else {
        return;
      }
    }
  }

  method ReadFloatingDigits(provider: SourceProvider) returns (floating: bool)
    requires provider.Valid()
    modifies provider
    ensures provider.Valid()
    ensures var n := SkipWhile(provider.src, old(provider.Here()), Digits());
            && floating == (ByteAt(provider.src, n.at) == DOT)
            && provider.Here() == if floating then SkipWhile(provider.src, AdvanceIf(provider.src, n, DOT), Digits())
                                  else n
  {
    ReadDigits(provider);
    floating := provider.IncrementIf(DOT);
    if floating {
      ReadDigits(provider);
    }
  }

  method ReadSuffix(provider: SourceProvider)
    requires provider.Valid()
    modifies provider
    ensures provider.Valid() && provider.Here() == ReadNumberSuffix(provider.src, old(provider.Here()))
  {
    var b := provider.Peek();
    if b == LOWER_I {
      provider.Increment();
      ReadDigits(provider);
    } else if b == LOWER_U {
      provider.Increment();
      if provider.Peek() == LOWER_I {
        provider.Increment();
      } else if provider.Peek() == LOWER_L {
        provider.Increment();
        return;
      }
      ReadDigits(provider);
    } else if b == UPPER_U {
      provider.Increment();
      if provider.Peek() == UPPER_L {
        provider.Increment();
      }
    } else if b == LOWER_L || b == UPPER_L || b == LOWER_F {
      provider.Increment();
    }
  }

  method ReadDecimal(provider: SourceProvider)
    requires provider.Valid()
    modifies provider
    ensures provider.Valid() && provider.Here() == ReadNumber(provider.src, old(provider.Here()))
  {
    var floating := ReadFloatingDigits(provider);
    if floating {
      if provider.Peek() == LOWER_F {
        provider.Increment();
      }
    } else {
      ReadSuffix(provider);
    }
  }

  method ReadZeroStartingNumber(provider: SourceProvider)
    requires provider.Valid()
    modifies provider
    ensures provider.Valid() && provider.Here() == ReadZeroNumber(provider.src, old(provider.Here()))
  {
    var b := provider.Peek();
    if b == UPPER_X || b == LOWER_X || b == LOWER_O || b == UPPER_O {
      provider.Increment();
      ReadAlphaOrDigits(provider);
      ReadSuffix(provider);
    } else if b == LOWER_B || b == UPPER_B {
      provider.Increment();
      ReadDigits(provider);
      ReadSuffix(provider);
    } else {
      ReadDecimal(provider);
    }
  }

  method ReadCurrentLine(provider: SourceProvider)
    requires provider.Valid()
    modifies provider
    ensures provider.Valid()
    ensures provider.Here() == SkipWhile(provider.src, old(provider.Here()), InLine())
  {
    while true
      invariant provider.Valid()
      invariant SkipWhile(provider.src, provider.Here(), InLine())
                == SkipWhile(provider.src, old(provider.Here()), InLine())
      decreases |provider.src| - provider.at
    {
      var p := provider.Peek();
      if p != NUL && p != LF && p != CR {
        provider.Increment();
      } else {
        return;
      }
    }
  }

  method SkipWhitespaces(provider: SourceProvider)
    requires provider.Valid()
    modifies provider
    ensures provider.Valid()
    ensures provider.Here() == SkipWhile(provider.src, old(provider.Here()), Blanks())
  {
    while true
      invariant provider.Valid()
      invariant SkipWhile(provider.src, provider.Here(), Blanks())
                == SkipWhile(provider.src, old(provider.Here()), Blanks())
      decreases |provider.src| - provider.at
    {
      var p := provider.Peek();
      if p == BLANK || p == TAB {
        provider.Increment();
      } else {
        return;
      }
    }
  }

  /** Returns the offset where the text of the comment ends. */
  method ReadMultiLineCommentText(provider: SourceProvider) returns (end: nat)
    requires provider.Valid()
    modifies provider
    ensures provider.Valid()
    ensures (provider.Here(), end) == ReadBlockComment(provider.src, old(provider.Here()))
  {
    while true
      invariant provider.Valid()
      invariant ReadBlockComment(provider.src, provider.Here())
                == ReadBlockComment(provider.src, old(provider.Here()))
      decreases |provider.src| - provider.at
    {
      var read := provider.ReadCharacter();
      if read == NUL {
        return provider.at;
      }
      if read == STAR && provider.Peek() == SLASH {
        provider.Increment();
        return provider.at - 2;
      }
    }
  }

  method ConsumeHexDigits(provider: SourceProvider)
    requires provider.Valid()
    modifies provider
    ensures provider.Valid() && provider.Here() == ReadHexDigits(provider.src, old(provider.Here()))
  {
    if IsHexDigit(provider.Peek()) {
      provider.Increment();
      if IsHexDigit(provider.Peek()) {
        provider.Increment();
      }
    }
  }

  method ReadMultiLineString(provider: SourceProvider) returns (end: nat)
    requires provider.Valid()
    modifies provider
    ensures provider.Valid()
    ensures (provider.Here(), end) == ReadMultilineString(provider.src, old(provider.Here()))
  {
    while true
      invariant provider.Valid()
      invariant ReadMultilineString(provider.src, provider.Here())
                == ReadMultilineString(provider.src, old(provider.Here()))
      decreases |provider.src| - provider.at
    {
      var read := provider.ReadCharacter();
      if read == DOUBLE_QUOTE {
        if provider.Peek() == DOUBLE_QUOTE {
          provider.Increment();
          if provider.Peek() == DOUBLE_QUOTE {
            provider.Increment();
            return provider.at - 3;
          }
        }
      } else if read == NUL {
        return provider.at;
      }
    }
  }

  /** The part of an escape after the letter `u`, written out in every string reader. */
  method ReadUnicodeGroup(provider: SourceProvider)
    requires provider.Valid()
    modifies provider
    ensures provider.Valid() && provider.Here() == ReadUnicodeEscape(provider.src, old(provider.Here()))
  {
    var src := provider.src;
    var braced := provider.IncrementIf(LBRACE);
    if braced {
      ghost var inside := provider.Here();
      while provider.at != |src| && provider.Peek() != RBRACE
        invariant provider.Valid()
        invariant SkipWhile(src, provider.Here(), InBraces()) == SkipWhile(src, inside, InBraces())
        decreases |src| - provider.at
      {
        provider.Increment();
      }
      var closed := provider.IncrementIf(RBRACE);
    } else {
      ghost var start := provider.Here();
      var i := 0;
      while i < 4 && provider.at != |src|
        invariant provider.Valid() && 0 <= i <= 4
        invariant Steps(src, provider.Here(), 4 - i) == Steps(src, start, 4)
        decreases 4 - i
      {
        provider.Increment();
        i := i + 1;
      }
      StepsAtEnd(src, provider.Here(), 4 - i);
      FourSteps(src, start);
    }
  }

  ghost function Steps(src: Source, c: Cursor, n: nat): (r: Cursor)
    requires Inside(src, c)
    ensures Inside(src, r)
    decreases n
  {
    if n == 0 then c else Steps(src, Advance(src, c), n - 1)
  }

  lemma {:induction false} StepsAtEnd(src: Source, c: Cursor, n: nat)
    requires Inside(src, c) && (n == 0 || c.at == |src|)
    ensures Steps(src, c, n) == c
  {
    if n == 0 {
    } else {
      StepsAtEnd(src, c, n - 1);
    }
  }

  lemma FourSteps(src: Source, c: Cursor)
    requires Inside(src, c)
    ensures Steps(src, c, 4) == Advance(src, Advance(src, Advance(src, Advance(src, c))))
  {
    var c2 := Advance(src, Advance(src, c));
    assert Steps(src, c, 4) == Steps(src, Advance(src, c), 3) == Steps(src, c2, 2);
    assert Steps(src, c2, 2) == Steps(src, Advance(src, c2), 1) == Steps(src, Advance(src, Advance(src, c2)), 0);
  }

  method ReadEscapeTail(provider: SourceProvider, b: Byte)
    requires provider.Valid()
    modifies provider
    ensures provider.Valid() && provider.Here() == ReadEscape(provider.src, old(provider.Here()), b)
  {
    if b == LOWER_X {
      ConsumeHexDigits(provider);
    } else if b == LOWER_U {
      ReadUnicodeGroup(provider);
    }
  }

  method ReadBacktickText(provider: SourceProvider) returns (end: StringEnd)
    requires provider.Valid()
    modifies provider
    ensures provider.Valid()
    ensures (provider.Here(), end) == ReadBacktickString(provider.src, old(provider.Here()))
  {
    while true
      invariant provider.Valid()
      invariant ReadBacktickString(provider.src, provider.Here())
                == ReadBacktickString(provider.src, old(provider.Here()))
      decreases |provider.src| - provider.at
    {
      var b := provider.Peek();
      if b == BACKTICK {
        provider.Increment();
        return Closed;
      } else if b == BACKSLASH {
        provider.Increment();
        var e := provider.ReadCharacter();
        ReadEscapeTail(provider, e);
      } else if b == NUL {
        return Open;
      } else if b == DOLLAR && ByteAt(provider.src, provider.at + 1) == LBRACE {
        return Expression;
      } else {
        provider.Increment();
      }
    }
  }

  method ReadQuotedText(provider: SourceProvider) returns (ended: bool)
    requires provider.Valid()
    modifies provider
    ensures provider.Valid()
    ensures (provider.Here(), ended) == Spec.ReadQuotedString(provider.src, old(provider.Here()))
  {
    while true
      invariant provider.Valid()
      invariant Spec.ReadQuotedString(provider.src, provider.Here())
                == Spec.ReadQuotedString(provider.src, old(provider.Here()))
      decreases |provider.src| - provider.at
    {
      var read := provider.ReadCharacter();
      if read == BACKSLASH {
        var e := provider.ReadCharacter();
        ReadEscapeTail(provider, e);
      } else if read == DOUBLE_QUOTE {
        return true;
      } else if read == LF || read == CR || read == NUL {
        return false;
      }
    }
  }

  method ReadCharText(provider: SourceProvider) returns (found: bool)
    requires provider.Valid()
    modifies provider
    ensures provider.Valid()
    ensures (provider.Here(), found) == ReadCharInQuotes(provider.src, old(provider.Here()))
  {
    var d := provider.PeekCodePoint();
    if d.cp == 0 {
      return false;
    }
    if d.cp == BACKSLASH {
      provider.IncrementCodePoint(d.cp, d.len);
      d := provider.PeekCodePoint();
      if d.cp == 0 {
        return false;
      }
      provider.IncrementCodePoint(d.cp, d.len);
      if d.cp == LOWER_X {
        ConsumeHexDigits(provider);
      } else if d.cp == LOWER_U {
        ReadUnicodeGroup(provider);
      }
      return true;
    } else if d.cp == QUOTE {
      return false;
    } else {
      provider.IncrementCodePoint(d.cp, d.len);
      return true;
    }
  }

  method ReadId(provider: SourceProvider, o: Options)
    requires provider.Valid()
    modifies provider
    ensures provider.Valid()
    ensures provider.Here() == SkipCodePoints(provider.src, old(provider.Here()), o.words.InWord())
  {
    while true
      invariant provider.Valid()
      invariant SkipCodePoints(provider.src, provider.Here(), o.words.InWord())
                == SkipCodePoints(provider.src, old(provider.Here()), o.words.InWord())
      decreases |provider.src| - provider.at
    {
      var d := provider.PeekCodePoint();
      if d.cp != 0 && o.words.Continues(d.cp) {
        provider.IncrementCodePoint(d.cp, d.len);
      } else {
        return;
      }
    }
  }

  method ReadAnnotationId(provider: SourceProvider, o: Options)
    requires provider.Valid()
    modifies provider
    ensures provider.Valid()
    ensures provider.Here() == SkipCodePoints(provider.src, old(provider.Here()), o.words.InAnnotation())
  {
    while true
      invariant provider.Valid()
      invariant SkipCodePoints(provider.src, provider.Here(), o.words.InAnnotation())
                == SkipCodePoints(provider.src, old(provider.Here()), o.words.InAnnotation())
      decreases |provider.src| - provider.at
    {
      var d := provider.PeekCodePoint();
      if d.cp == 0 {
        return;
      } else if d.cp == UNDERSCORE || d.cp == DOT || d.cp == COLON || o.words.Continues(d.cp) {
        provider.IncrementCodePoint(d.cp, d.len);
      } else {
        return;
      }
    }
  }

  // ---------------------------------------------------------------- the lexer

  /** The reports of the tokens, in their order. */
  ghost function Reports(ts: seq<Lexed>): seq<Diag> {
    if ts == [] then [] else Reports(ts[..|ts|-1]) + ts[|ts|-1].diags
  }

  lemma NoReports()
    ensures Reports([]) == []
  {
  }

  lemma ReportsOneMore(ts: seq<Lexed>, t: Lexed)
    ensures Reports(ts + [t]) == Reports(ts) + t.diags
  {
    assert (ts + [t])[..|ts|] == ts;
  }

  class Lexer {
    const provider: SourceProvider
    const o: Options
    var strExpr: bool
    var diagnostics: seq<Diag>

    ghost predicate Valid()
      reads this, provider
    { provider.Valid() }

    constructor (provider: SourceProvider, o: Options)
      requires provider.Valid()
      ensures this.provider == provider && this.o == o && Valid()
      ensures !strExpr && diagnostics == []
    {
      this.provider := provider;
      this.o := o;
      strExpr := false;
      diagnostics := [];
    }

    /** The lexer stands behind `t`, which it read from the given state. */
    twostate predicate Read(t: Lexed)
      reads this, provider
    {
      && Valid()
      && provider.Here() == t.to
      && strExpr == t.strExpr
      && diagnostics == old(diagnostics) + t.diags
    }

    // One method for each case of the switch in `getNextToken` that has more than one outcome.

    method SymbolCase(from: Cursor, cp: Byte) returns (t: Lexed)
      requires Valid()
      modifies this, provider
      ensures Read(t) && t == LexSymbol(provider.src, from, old(provider.Here()), cp, old(strExpr))
    {
      var b := provider.Peek();
      if b in Seconds(cp) {
        provider.Increment();
        t := Lexed(Symbol, [cp, b], from, provider.Here(), strExpr, []);
      } else {
        t := Lexed(Symbol, [cp], from, provider.Here(), strExpr, []);
      }
    }

    method RightBraceCase(from: Cursor) returns (t: Lexed)
      requires Valid() && from.at <= provider.at
      modifies this, provider
      ensures Read(t) && t == LexRightBrace(provider.src, from, old(provider.Here()), old(strExpr))
    {
      if strExpr {
        var end := ReadBacktickText(provider);
        var diags := [];
        if end.Closed? {
          strExpr := false;
        } else if end.Open? {
          diags := [Diag(OpenExpression, from.pos, provider.Here().pos)];
          diagnostics := diagnostics + diags;
          strExpr := false;
        }
        var to := provider.at - if end.Closed? then 1 else 0;
        t := Lexed(StringExprEnd, provider.src[from.at..to], from, provider.Here(), strExpr, diags);
      } else {
        t := Lexed(Symbol, [RBRACE], from, provider.Here(), strExpr, []);
      }
    }

    method DotCase(from: Cursor) returns (t: Lexed)
      requires Valid()
      modifies this, provider
      ensures Read(t) && t == LexDot(provider.src, from, old(provider.Here()), old(strExpr))
    {
      if provider.Peek() == DOT {
        provider.Increment();
        var b := provider.ReadCharacter();
        if b == DOT {
          t := Lexed(Symbol, [DOT, DOT, DOT], from, provider.Here(), strExpr, []);
        } else {
          var d := Diag(UnexpectedDot, provider.Here().pos, provider.Here().pos);
          diagnostics := diagnostics + [d];
          t := Lexed(Unexpected, [], from, provider.Here(), strExpr, [d]);
        }
      } else {
        t := Lexed(Symbol, [DOT], from, provider.Here(), strExpr, []);
      }
    }

    method AnnotationCase(kind: Kind, from: Cursor) returns (t: Lexed)
      requires Valid() && from.at <= provider.at
      modifies this, provider
      ensures Read(t) && t == LexAnnotation(provider.src, o.words, kind, from, old(provider.Here()), old(strExpr))
    {
      var diags := [];
      var first := provider.ReadCodePoint();
      if !o.words.Starts(first) {
        diags := [Diag(AnnotationStart, from.pos, provider.Here().pos)];
        diagnostics := diagnostics + diags;
      }
      ReadAnnotationId(provider, o);
      t := Lexed(kind, provider.src[from.at..provider.at], from, provider.Here(), strExpr, diags);
    }

    method SlashCase(from: Cursor) returns (t: Lexed)
      requires Valid()
      modifies this, provider
      ensures Read(t) && t == LexSlash(provider.src, o, from, old(provider.Here()), old(strExpr))
    {
      var p := provider.Peek();
      if p == SLASH {
        if o.keepComments {
          provider.Increment();
        }
        var start := provider.at;
        ReadCurrentLine(provider);
        t := Lexed(SingleLineComment, provider.src[start..provider.at], from, provider.Here(), strExpr, []);
      } else if p == STAR {
        if o.keepComments {
          provider.Increment();
        }
        var start := provider.at;
        var end := ReadMultiLineCommentText(provider);
        t := Lexed(MultiLineComment, provider.src[start..end], from, provider.Here(), strExpr, []);
      } else {
        t := Lexed(Symbol, [SLASH], from, provider.Here(), strExpr, []);
      }
    }

    method QuoteCase(from: Cursor) returns (t: Lexed)
      requires Valid()
      modifies this, provider
      ensures Read(t) && t == LexQuote(provider.src, o.words, from, old(provider.Here()), old(strExpr))
    {
      var next := provider.PeekCodePoint();
      var start := provider.at;
      if next.cp != 0 && o.words.Starts(next.cp) && next.cp != QUOTE && next.cp != BACKSLASH {
        provider.IncrementCodePoint(next.cp, next.len);
        if provider.Peek() == QUOTE {
          var end := provider.at;
          var moved := provider.IncrementIf(QUOTE);
          t := Lexed(Char, provider.src[start..end], from, provider.Here(), strExpr, []);
        } else {
          ReadId(provider, o);
          t := Lexed(Lifetime, provider.src[start..provider.at], from, provider.Here(), strExpr, []);
        }
      } else {
        var found := ReadCharText(provider);
        if found {
          var end := provider.at;
          var moved := provider.IncrementIf(QUOTE);
          t := Lexed(Char, provider.src[start..end], from, provider.Here(), strExpr, []);
        } else {
          var d := Diag(EmptyChar, from.pos, provider.Here().pos);
          diagnostics := diagnostics + [d];
          t := Lexed(Char, [], from, provider.Here(), strExpr, [d]);
        }
      }
    }

    method BacktickCase(from: Cursor) returns (t: Lexed)
      requires Valid()
      modifies this, provider
      ensures Read(t) && t == LexBacktick(provider.src, from, old(provider.Here()), old(strExpr))
    {
      var start := provider.at;
      var diags := [];
      var end := ReadBacktickText(provider);
      if end.Closed? {
        strExpr := false;
      } else if end.Expression? {
        if strExpr {
          diags := [Diag(NestedExpression, from.pos, provider.Here().pos)];
        } else {
          strExpr := true;
        }
      } else {
        diags := [Diag(OpenBacktick, from.pos, provider.Here().pos)];
      }
      diagnostics := diagnostics + diags;
      var to := provider.at - if end.Closed? then 1 else 0;
      t := Lexed(BacktickString, provider.src[start..to], from, provider.Here(), strExpr, diags);
    }

    method StringCase(from: Cursor) returns (t: Lexed)
      requires Valid()
      modifies this, provider
      ensures Read(t) && t == LexString(provider.src, from, old(provider.Here()), old(strExpr))
    {
      if provider.Peek() == DOUBLE_QUOTE {
        provider.Increment();
        if provider.Peek() == DOUBLE_QUOTE {
          provider.Increment();
          var start := provider.at;
          var end := ReadMultiLineString(provider);
          t := Lexed(MultilineString, provider.src[start..end], from, provider.Here(), strExpr, []);
        } else {
          t := Lexed(String, [], from, provider.Here(), strExpr, []);
        }
      } else {
        var start := provider.at;
        var diags := [];
        var ended := ReadQuotedText(provider);
        if !ended {
          diags := [Diag(OpenString, from.pos, provider.Here().pos)];
          diagnostics := diagnostics + diags;
        }
        var to := provider.at - if ended then 1 else 0;
        t := Lexed(String, provider.src[start..to], from, provider.Here(), strExpr, diags);
      }
    }

    method WordCase(from: Cursor, cp: int) returns (t: Lexed)
      requires Valid() && from.at <= provider.at
      modifies this, provider
      ensures Read(t) && t == LexWord(provider.src, o.keywords, o.words, from, old(provider.Here()), cp, old(strExpr))
    {
      if IsDigit(cp) {
        if cp == ZERO {
          ReadZeroStartingNumber(provider);
        } else {
          ReadDecimal(provider);
        }
        t := Lexed(Number, provider.src[from.at..provider.at], from, provider.Here(), strExpr, []);
      } else if o.words.Starts(cp) {
        ReadId(provider, o);
        var view := provider.src[from.at..provider.at];
        t := Lexed(if view in o.keywords then Keyword else Identifier, view, from, provider.Here(), strExpr, []);
      } else {
        var d := Diag(UnexpectedToken, provider.Here().pos, provider.Here().pos);
        diagnostics := diagnostics + [d];
        t := Lexed(Unexpected, [], from, provider.Here(), strExpr, [d]);
      }
    }

    method NewLineCase(from: Cursor) returns (t: Lexed)
      requires Valid()
      modifies this, provider
      ensures Read(t)
      ensures var c := old(provider.Here());
              t == if ByteAt(provider.src, c.at) == LF
                   then Lexed(NewLine, [CR, LF], from, Advance(provider.src, c), old(strExpr), [])
                   else Lexed(NewLine, [CR], from, c, old(strExpr), [])
    {
      if provider.Peek() == LF {
        provider.Increment();
        t := Lexed(NewLine, [CR, LF], from, provider.Here(), strExpr, []);
      } else {
        t := Lexed(NewLine, [CR], from, provider.Here(), strExpr, []);
      }
    }

    /** The cases of the switch that read quoted text, a string expression or an annotation. */
    method QuotedCase(from: Cursor, cp: int) returns (t: Lexed)
      requires Valid() && from.at < provider.at && cp in [RBRACE, AT_SIGN, HASH, QUOTE, BACKTICK, DOUBLE_QUOTE]
      modifies this, provider
      ensures Read(t) && t == LexQuoted(provider.src, o.words, from, old(provider.Here()), cp, old(strExpr))
    {
      if cp == RBRACE {
        t := RightBraceCase(from);
      } else if cp == AT_SIGN {
        t := AnnotationCase(Annotation, from);
      } else if cp == HASH {
        t := AnnotationCase(HashMacro, from);
      } else if cp == QUOTE {
        t := QuoteCase(from);
      } else if cp == BACKTICK {
        t := BacktickCase(from);
      } else {
        t := StringCase(from);
      }
    }

    method OtherCase(from: Cursor, cp: int) returns (t: Lexed)
      requires Valid() && from.at < provider.at
      modifies this, provider
      ensures Read(t)
      ensures t == LexOther(provider.src, o.keywords, o.words, from, old(provider.Here()), cp, old(strExpr))
    {
      hide LexQuoted;
      if IsSymbol(cp) {
        t := SymbolCase(from, cp);
      } else if cp in [RBRACE, AT_SIGN, HASH, QUOTE, BACKTICK, DOUBLE_QUOTE] {
        t := QuotedCase(from, cp);
      } else if cp == DOT {
        t := DotCase(from);
      } else if cp == DOLLAR {
        if strExpr {
          provider.Increment();
          t := Lexed(StringExprStart, [LBRACE], from, provider.Here(), strExpr, []);
        } else {
          t := Lexed(Symbol, [DOLLAR], from, provider.Here(), strExpr, []);
        }
      } else if cp == LF {
        t := Lexed(NewLine, [LF], from, provider.Here(), strExpr, []);
      } else if cp == CR {
        t := NewLineCase(from);
      } else {
        t := WordCase(from, cp);
      }
    }

    /** The switch: one token, comments and white space included. */
    method GetRawToken() returns (t: Lexed)
      requires Valid()
      modifies this, provider
      ensures Read(t) && t == RawToken(provider.src, o, old(provider.Here()), old(strExpr))
    {
      hide LexOther;
      var from := provider.Here();
      var cp := provider.ReadCodePoint();
      if cp == 0 {
        t := Lexed(EndOfFile, [], from, provider.Here(), strExpr, []);
      } else if cp == SLASH {
        t := SlashCase(from);
      } else if cp == BLANK || cp == TAB {
        SkipWhitespaces(provider);
        t := Lexed(Whitespace, provider.src[from.at..provider.at], from, provider.Here(), strExpr, []);
      } else {
        t := OtherCase(from, cp);
      }
    }

    method GetNextToken() returns (t: Lexed)
      requires Valid()
      modifies this, provider
      ensures Read(t) && t == NextToken(provider.src, o, old(provider.Here()), old(strExpr))
      decreases |provider.src| - provider.at
    {
      hide RawToken;
      t := GetRawToken();
      if Skipped(o, t.kind) {
        SkippedSilent(provider.src, o, old(provider.Here()), old(strExpr));
        t := GetNextToken();
      }
    }

    method GetTokens() returns (tokens: seq<Lexed>)
      requires Valid()
      modifies this, provider
      ensures Valid() && tokens == Tokens(provider.src, o, old(provider.Here()), old(strExpr))
      ensures tokens != [] && provider.Here() == tokens[|tokens| - 1].to && strExpr == tokens[|tokens| - 1].strExpr
      ensures diagnostics == old(diagnostics) + Reports(tokens)
    {
      hide RawToken, NextToken, Reports;
      tokens := [];
      NoReports();
      while true
        invariant Valid() && diagnostics == old(diagnostics) + Reports(tokens)
        invariant tokens + Tokens(provider.src, o, provider.Here(), strExpr)
                  == Tokens(provider.src, o, old(provider.Here()), old(strExpr))
        decreases |provider.src| - provider.at
      {
        var before := provider.Here();
        var token := GetNextToken();
        ReportsOneMore(tokens, token);
        tokens := tokens + [token];
        if Last(token.kind) {
          return;
        }
      }
    }
  }

  /** Comments and white space report nothing. */
  lemma SkippedSilent(src: Source, o: Options, c: Cursor, str: bool)
    requires Inside(src, c) && Skipped(o, RawToken(src, o, c, str).kind)
    ensures RawToken(src, o, c, str).diags == []
  {
    hide LexOther;
  }
}
