/** The lexer as a function of the source, the cursor and the string-expression flag.  `Lexer` proves its
    reader loops and `getNextToken` against these definitions. */
module LexerSpec {
  import opened Utf8
  import opened SourceCursor

  // ASCII bytes the lexer tests for.
  const BLANK: Byte := 0x20
  const BANG: Byte := 0x21
  const DOUBLE_QUOTE: Byte := 0x22
  const HASH: Byte := 0x23
  const DOLLAR: Byte := 0x24
  const PERCENT: Byte := 0x25
  const AMPERSAND: Byte := 0x26
  const QUOTE: Byte := 0x27
  const LPAREN: Byte := 0x28
  const RPAREN: Byte := 0x29
  const STAR: Byte := 0x2A
  const PLUS: Byte := 0x2B
  const COMMA: Byte := 0x2C
  const MINUS: Byte := 0x2D
  const DOT: Byte := 0x2E
  const SLASH: Byte := 0x2F
  const ZERO: Byte := 0x30
  const NINE: Byte := 0x39
  const COLON: Byte := 0x3A
  const SEMICOLON: Byte := 0x3B
  const LESS: Byte := 0x3C
  const EQUALS: Byte := 0x3D
  const GREATER: Byte := 0x3E
  const QUESTION: Byte := 0x3F
  const AT_SIGN: Byte := 0x40
  const UPPER_A: Byte := 0x41
  const UPPER_B: Byte := 0x42
  const UPPER_F: Byte := 0x46
  const UPPER_L: Byte := 0x4C
  const UPPER_O: Byte := 0x4F
  const UPPER_U: Byte := 0x55
  const UPPER_X: Byte := 0x58
  const UPPER_Z: Byte := 0x5A
  const LBRACKET: Byte := 0x5B
  const BACKSLASH: Byte := 0x5C
  const RBRACKET: Byte := 0x5D
  const CARET: Byte := 0x5E
  const UNDERSCORE: Byte := 0x5F
  const BACKTICK: Byte := 0x60
  const LOWER_A: Byte := 0x61
  const LOWER_B: Byte := 0x62
  const LOWER_F: Byte := 0x66
  const LOWER_I: Byte := 0x69
  const LOWER_L: Byte := 0x6C
  const LOWER_O: Byte := 0x6F
  const LOWER_U: Byte := 0x75
  const LOWER_X: Byte := 0x78
  const LOWER_Z: Byte := 0x7A
  const LBRACE: Byte := 0x7B
  const PIPE: Byte := 0x7C
  const RBRACE: Byte := 0x7D
  const TILDE: Byte := 0x7E

  // ---------------------------------------------------------------- characters

  predicate IsDigit(cp: int) { ZERO <= cp <= NINE }

  predicate IsLetter(cp: int) { UPPER_A <= cp <= UPPER_Z || LOWER_A <= cp <= LOWER_Z }

  predicate IsHexDigit(cp: int) { IsDigit(cp) || LOWER_A <= cp <= LOWER_F || UPPER_A <= cp <= UPPER_F }

  function Digits(): Byte -> bool { (b: Byte) => IsDigit(b) }
  function LettersOrDigits(): Byte -> bool { (b: Byte) => IsLetter(b) || IsDigit(b) }
  function InLine(): Byte -> bool { (b: Byte) => b != NUL && b != LF && b != CR }
  function Blanks(): Byte -> bool { (b: Byte) => b == BLANK || b == TAB }
  function InBraces(): Byte -> bool { (b: Byte) => b != RBRACE }

  /** The characters of identifiers: fixed within ASCII, a parameter outside. */
  datatype Words = Words(startsOutsideAscii: int -> bool, continuesOutsideAscii: int -> bool) {
    predicate Starts(cp: int) {
      if cp < 0x80 then IsLetter(cp) || cp == UNDERSCORE else startsOutsideAscii(cp)
    }

    predicate Continues(cp: int) {
      if cp < 0x80 then IsLetter(cp) || IsDigit(cp) || cp == UNDERSCORE else continuesOutsideAscii(cp)
    }

    function InWord(): int -> bool { (cp: int) => Continues(cp) }

    function InAnnotation(): int -> bool {
      (cp: int) => cp == UNDERSCORE || cp == DOT || cp == COLON || Continues(cp)
    }
  }

  /** What the lexer is run with: the two flags, the keyword table, and the identifier characters. */
  datatype Options = Options(keepComments: bool, lexWhitespace: bool, keywords: set<seq<Byte>>, words: Words)

  // ---------------------------------------------------------------- reader loops

  function SkipWhile(src: Source, c: Cursor, p: Byte -> bool): (r: Cursor)
    requires Inside(src, c)
    ensures Inside(src, r) && c.at <= r.at
    ensures forall k :: c.at <= k < r.at ==> p(src[k])
    ensures r.at < |src| ==> !p(src[r.at])
    decreases |src| - c.at
  {
    if c.at < |src| && p(src[c.at]) then SkipWhile(src, Advance(src, c), p) else c
  }

  /** From `i` to `j` there are only code points with `p`, and no NUL. */
  ghost predicate RunOf(src: Source, i: nat, j: nat, p: int -> bool)
    decreases j - i
  {
    i == j
    || (i < j <= |src|
        && var d := DecodePeek(src[i..]);
           d.len > 0 && d.cp != 0 && p(d.cp) && i + d.len <= j && RunOf(src, i + d.len, j, p))
  }

  /** Moves behind the longest run of code points with `p`. */
  function SkipCodePoints(src: Source, c: Cursor, p: int -> bool): (r: Cursor)
    requires Inside(src, c)
    ensures Inside(src, r) && c.at <= r.at
    ensures RunOf(src, c.at, r.at, p)
    ensures r.at < |src| ==> CodePointAt(src, r).cp == 0 || !p(CodePointAt(src, r).cp)
    decreases |src| - c.at
  {
    var d := CodePointAt(src, c);
    if d.cp != 0 && p(d.cp) && c.at < |src| then SkipCodePoints(src, AdvancePeeked(src, c), p) else c
  }

  function ReadNumberSuffix(src: Source, c: Cursor): (r: Cursor)
    requires Inside(src, c)
    ensures Inside(src, r) && c.at <= r.at
  {
    var b, n := ByteAt(src, c.at), Advance(src, c);
    if b == LOWER_I then SkipWhile(src, n, Digits())
    else if b == LOWER_U then
      var b2 := ByteAt(src, n.at);
      if b2 == LOWER_I then SkipWhile(src, Advance(src, n), Digits())
      else if b2 == LOWER_L then Advance(src, n)
      else SkipWhile(src, n, Digits())
    else if b == UPPER_U then
      if ByteAt(src, n.at) == UPPER_L then Advance(src, n) else n
    else if b == LOWER_L || b == UPPER_L || b == LOWER_F then n
    else c
  }

  function ReadNumber(src: Source, c: Cursor): (r: Cursor)
    requires Inside(src, c)
    ensures Inside(src, r) && c.at <= r.at
  {
    var n := SkipWhile(src, c, Digits());
    if ByteAt(src, n.at) == DOT then
      var f := SkipWhile(src, AdvanceIf(src, n, DOT), Digits());
      if ByteAt(src, f.at) == LOWER_F then Advance(src, f) else f
    else ReadNumberSuffix(src, n)
  }

  function ReadZeroNumber(src: Source, c: Cursor): (r: Cursor)
    requires Inside(src, c)
    ensures Inside(src, r) && c.at <= r.at
  {
    var b := ByteAt(src, c.at);
    if b == UPPER_X || b == LOWER_X || b == LOWER_O || b == UPPER_O then
      ReadNumberSuffix(src, SkipWhile(src, Advance(src, c), LettersOrDigits()))
    else if b == LOWER_B || b == UPPER_B then
      ReadNumberSuffix(src, SkipWhile(src, Advance(src, c), Digits()))
    else ReadNumber(src, c)
  }

  /** The text of a block comment from `c`, and where that text ends. */
  function ReadBlockComment(src: Source, c: Cursor): (r: (Cursor, nat))
    requires Inside(src, c)
    ensures Inside(src, r.0) && c.at <= r.1 <= r.0.at
    decreases |src| - c.at
  {
    var b, n := ByteAt(src, c.at), Advance(src, c);
    if b == NUL then (n, n.at)
    else if b == STAR && ByteAt(src, n.at) == SLASH then (Advance(src, n), n.at - 1)
    else ReadBlockComment(src, n)
  }

  function ReadMultilineString(src: Source, c: Cursor): (r: (Cursor, nat))
    requires Inside(src, c)
    ensures Inside(src, r.0) && c.at <= r.1 <= r.0.at
    decreases |src| - c.at
  {
    var b, n := ByteAt(src, c.at), Advance(src, c);
    if b == NUL then (n, n.at)
    else if b == DOUBLE_QUOTE && ByteAt(src, n.at) == DOUBLE_QUOTE then
      var n2 := Advance(src, n);
      if ByteAt(src, n2.at) == DOUBLE_QUOTE then (Advance(src, n2), n.at - 1)
      else ReadMultilineString(src, n2)
    else ReadMultilineString(src, n)
  }

  function ReadHexDigits(src: Source, c: Cursor): (r: Cursor)
    requires Inside(src, c)
    ensures Inside(src, r) && c.at <= r.at
  {
    if IsHexDigit(ByteAt(src, c.at)) then
      var n := Advance(src, c);
      if IsHexDigit(ByteAt(src, n.at)) then Advance(src, n) else n
    else c
  }

  /** After `\u`: a braced group, or up to four bytes. */
  function ReadUnicodeEscape(src: Source, c: Cursor): (r: Cursor)
    requires Inside(src, c)
    ensures Inside(src, r) && c.at <= r.at
  {
    if ByteAt(src, c.at) == LBRACE then
      AdvanceIf(src, SkipWhile(src, AdvanceIf(src, c, LBRACE), InBraces()), RBRACE)
    else
      Advance(src, Advance(src, Advance(src, Advance(src, c))))
  }

  /** After a backslash and the byte `b` that follows it. */
  function ReadEscape(src: Source, c: Cursor, b: Byte): (r: Cursor)
    requires Inside(src, c)
    ensures Inside(src, r) && c.at <= r.at
  {
    if b == LOWER_X then ReadHexDigits(src, c) else if b == LOWER_U then ReadUnicodeEscape(src, c) else c
  }

  datatype StringEnd = Closed | Expression | Open

  function ReadBacktickString(src: Source, c: Cursor): (r: (Cursor, StringEnd))
    requires Inside(src, c)
    ensures Inside(src, r.0) && c.at <= r.0.at && (r.1.Closed? ==> c.at < r.0.at)
    decreases |src| - c.at
  {
    var b, n := ByteAt(src, c.at), Advance(src, c);
    if b == BACKTICK then (n, Closed)
    else if b == BACKSLASH then
      ReadBacktickString(src, ReadEscape(src, Advance(src, n), ByteAt(src, n.at)))
    else if b == NUL then (c, Open)
    else if b == DOLLAR && ByteAt(src, c.at + 1) == LBRACE then (c, Expression)
    else ReadBacktickString(src, n)
  }

  function ReadQuotedString(src: Source, c: Cursor): (r: (Cursor, bool))
    requires Inside(src, c)
    ensures Inside(src, r.0) && c.at <= r.0.at && (r.1 ==> c.at < r.0.at)
    decreases |src| - c.at
  {
    var b, n := ByteAt(src, c.at), Advance(src, c);
    if b == BACKSLASH then
      ReadQuotedString(src, ReadEscape(src, Advance(src, n), ByteAt(src, n.at)))
    else if b == DOUBLE_QUOTE then (n, true)
    else if b == LF || b == CR || b == NUL then (n, false)
    else ReadQuotedString(src, n)
  }

  function ReadCharInQuotes(src: Source, c: Cursor): (r: (Cursor, bool))
    requires Inside(src, c)
    ensures Inside(src, r.0) && c.at <= r.0.at
  {
    var d := CodePointAt(src, c);
    if d.cp == 0 then (c, false)
    else if d.cp == BACKSLASH then
      var n := AdvancePeeked(src, c);
      var e := CodePointAt(src, n);
      if e.cp == 0 then (n, false)
      else if e.cp == LOWER_X then (ReadHexDigits(src, AdvancePeeked(src, n)), true)
      else if e.cp == LOWER_U then (ReadUnicodeEscape(src, AdvancePeeked(src, n)), true)
      else (AdvancePeeked(src, n), true)
    else if d.cp == QUOTE then (c, false)
    else (AdvancePeeked(src, c), true)
  }

  // ---------------------------------------------------------------- tokens

  /** Operators, punctuation and keywords have one token type each, which their text determines: they are
      `Symbol` and `Keyword` here. */
  datatype Kind =
    | EndOfFile | Unexpected
    | Symbol | Keyword | Identifier | Number | NewLine
    | String | MultilineString | BacktickString | StringExprStart | StringExprEnd
    | Char | Lifetime | Annotation | HashMacro
    | SingleLineComment | MultiLineComment | Whitespace

  datatype Message =
    | UnexpectedDot | AnnotationStart | EmptyChar | NestedExpression | OpenBacktick | OpenString
    | OpenExpression | UnexpectedToken

  datatype Diag = Diag(message: Message, start: Position, end: Position)

  /** A token with the stretch of source it was read from: `from.pos` is the position of the token. */
  datatype Lexed = Lexed(kind: Kind, value: seq<Byte>, from: Cursor, to: Cursor, strExpr: bool, diags: seq<Diag>)

  /** The second bytes that make a longer operator. */
  function Seconds(cp: int): seq<Byte> {
    if cp == PLUS then [PLUS] else if cp == MINUS then [MINUS]
    else if cp == BANG then [EQUALS]
    else if cp == LESS then [EQUALS, LESS] else if cp == GREATER then [EQUALS, GREATER]
    else if cp == AMPERSAND then [AMPERSAND] else if cp == PIPE then [PIPE]
    else if cp == COLON then [COLON]
    else if cp == EQUALS then [EQUALS, GREATER]
    else []
  }

  predicate IsSymbol(cp: int) {
    cp in [LBRACE, LPAREN, RPAREN, LBRACKET, RBRACKET, PLUS, MINUS, STAR, PERCENT, CARET, TILDE, BANG, COMMA,
           SEMICOLON, QUESTION, LESS, GREATER, AMPERSAND, PIPE, COLON, EQUALS]
  }

  function LexSymbol(src: Source, from: Cursor, c: Cursor, cp: Byte, str: bool): Lexed
    requires Inside(src, c)
  {
    var b := ByteAt(src, c.at);
    if b in Seconds(cp) then Lexed(Symbol, [cp, b], from, Advance(src, c), str, [])
    else Lexed(Symbol, [cp], from, c, str, [])
  }

  function LexRightBrace(src: Source, from: Cursor, c: Cursor, str: bool): (t: Lexed)
    requires Inside(src, c) && from.at <= c.at
    ensures t.from == from && Inside(src, t.to) && c.at <= t.to.at
  {
    if str then
      var (r, end) := ReadBacktickString(src, c);
      Lexed(StringExprEnd, src[from.at..if end.Closed? then r.at - 1 else r.at], from, r, end.Expression?,
            if end.Open? then [Diag(OpenExpression, from.pos, r.pos)] else [])
    else Lexed(Symbol, [RBRACE], from, c, str, [])
  }

  function LexDot(src: Source, from: Cursor, c: Cursor, str: bool): Lexed
    requires Inside(src, c)
  {
    if ByteAt(src, c.at) == DOT then
      var n := Advance(src, c);
      var r := Advance(src, n);
      if ByteAt(src, n.at) == DOT then Lexed(Symbol, [DOT, DOT, DOT], from, r, str, [])
      else Lexed(Unexpected, [], from, r, str, [Diag(UnexpectedDot, r.pos, r.pos)])
    else Lexed(Symbol, [DOT], from, c, str, [])
  }

  function LexDollar(src: Source, from: Cursor, c: Cursor, str: bool): Lexed
    requires Inside(src, c)
  {
    if str then Lexed(StringExprStart, [LBRACE], from, Advance(src, c), str, [])
    else Lexed(Symbol, [DOLLAR], from, c, str, [])
  }

  /** `@` and `#`; no hook is registered for a macro name. */
  function LexAnnotation(src: Source, w: Words, kind: Kind, from: Cursor, c: Cursor, str: bool): (t: Lexed)
    requires Inside(src, c) && from.at <= c.at
    ensures t.from == from && Inside(src, t.to) && c.at <= t.to.at
  {
    var n := AdvanceCodePoint(src, c);
    var r := SkipCodePoints(src, n, w.InAnnotation());
    Lexed(kind, src[from.at..r.at], from, r, str,
          if w.Starts(CodePointAt(src, c).cp) then [] else [Diag(AnnotationStart, from.pos, n.pos)])
  }

  /** The two comment modes start reading a block comment at different bytes: after the `*` when comments
      are kept, at the `*` when they are not. */
  function LexSlash(src: Source, o: Options, from: Cursor, c: Cursor, str: bool): Lexed
    requires Inside(src, c)
  {
    var b := ByteAt(src, c.at);
    var start := if o.keepComments then Advance(src, c) else c;
    if b == SLASH then
      var r := SkipWhile(src, start, InLine());
      Lexed(SingleLineComment, src[start.at..r.at], from, r, str, [])
    else if b == STAR then
      var (r, end) := ReadBlockComment(src, start);
      Lexed(MultiLineComment, src[start.at..end], from, r, str, [])
    else Lexed(Symbol, [SLASH], from, c, str, [])
  }

  function LexQuote(src: Source, w: Words, from: Cursor, c: Cursor, str: bool): (t: Lexed)
    requires Inside(src, c)
    ensures t.from == from && Inside(src, t.to) && c.at <= t.to.at
  {
    var d := CodePointAt(src, c);
    if d.cp != 0 && w.Starts(d.cp) && d.cp != QUOTE && d.cp != BACKSLASH then
      var n := AdvancePeeked(src, c);
      if ByteAt(src, n.at) == QUOTE then Lexed(Char, src[c.at..n.at], from, AdvanceIf(src, n, QUOTE), str, [])
      else
        var r := SkipCodePoints(src, n, w.InWord());
        Lexed(Lifetime, src[c.at..r.at], from, r, str, [])
    else
      var (r, found) := ReadCharInQuotes(src, c);
      if found then Lexed(Char, src[c.at..r.at], from, AdvanceIf(src, r, QUOTE), str, [])
      else Lexed(Char, [], from, r, str, [Diag(EmptyChar, from.pos, r.pos)])
  }

  function LexBacktick(src: Source, from: Cursor, c: Cursor, str: bool): (t: Lexed)
    requires Inside(src, c)
    ensures t.from == from && Inside(src, t.to) && c.at <= t.to.at
  {
    var (r, end) := ReadBacktickString(src, c);
    Lexed(BacktickString, src[c.at..if end.Closed? then r.at - 1 else r.at], from, r,
          if end.Closed? then false else if end.Expression? then true else str,
          if end.Open? then [Diag(OpenBacktick, from.pos, r.pos)]
          else if end.Expression? && str then [Diag(NestedExpression, from.pos, r.pos)]
          else [])
  }

  function LexString(src: Source, from: Cursor, c: Cursor, str: bool): (t: Lexed)
    requires Inside(src, c)
    ensures t.from == from && Inside(src, t.to) && c.at <= t.to.at
  {
    if ByteAt(src, c.at) == DOUBLE_QUOTE then
      var n := Advance(src, c);
      if ByteAt(src, n.at) == DOUBLE_QUOTE then
        var start := Advance(src, n);
        var (r, end) := ReadMultilineString(src, start);
        Lexed(MultilineString, src[start.at..end], from, r, str, [])
      else Lexed(String, [], from, n, str, [])
    else
      var (r, ended) := ReadQuotedString(src, c);
      Lexed(String, src[c.at..if ended then r.at - 1 else r.at], from, r, str,
            if ended then [] else [Diag(OpenString, from.pos, r.pos)])
  }

  function LexWord(src: Source, keywords: set<seq<Byte>>, w: Words, from: Cursor, c: Cursor, cp: int, str: bool): Lexed
    requires Inside(src, c) && from.at <= c.at
  {
    if IsDigit(cp) then
      var r := if cp == ZERO then ReadZeroNumber(src, c) else ReadNumber(src, c);
      Lexed(Number, src[from.at..r.at], from, r, str, [])
    else if w.Starts(cp) then
      var r := SkipCodePoints(src, c, w.InWord());
      var word := src[from.at..r.at];
      Lexed(if word in keywords then Keyword else Identifier, word, from, r, str, [])
    else Lexed(Unexpected, [], from, c, str, [Diag(UnexpectedToken, c.pos, c.pos)])
  }

  predicate IsComment(k: Kind) { k.SingleLineComment? || k.MultiLineComment? }

  /** The cases of the switch that read quoted text, a string expression or an annotation. */
  function LexQuoted(src: Source, w: Words, from: Cursor, c: Cursor, cp: int, str: bool): (t: Lexed)
    requires Inside(src, c) && from.at < c.at
    requires cp in [RBRACE, AT_SIGN, HASH, QUOTE, BACKTICK, DOUBLE_QUOTE]
    ensures t.from == from && Inside(src, t.to) && from.at < t.to.at
    ensures !t.kind.EndOfFile? && !t.kind.Whitespace? && !IsComment(t.kind)
  {
    if cp == RBRACE then LexRightBrace(src, from, c, str)
    else if cp == AT_SIGN then LexAnnotation(src, w, Annotation, from, c, str)
    else if cp == HASH then LexAnnotation(src, w, HashMacro, from, c, str)
    else if cp == QUOTE then LexQuote(src, w, from, c, str)
    else if cp == BACKTICK then LexBacktick(src, from, c, str)
    else LexString(src, from, c, str)
  }

  /** The cases of the switch that neither end the text nor may be left out; `cp` is the code point read
      and `c` the cursor after it. */
  function LexOther(src: Source, keywords: set<seq<Byte>>, w: Words, from: Cursor, c: Cursor, cp: int, str: bool)
    : (t: Lexed)
    requires Inside(src, c) && from.at < c.at
    ensures t.from == from && Inside(src, t.to) && from.at < t.to.at
    ensures !t.kind.EndOfFile? && !t.kind.Whitespace? && !IsComment(t.kind)
  {
    if IsSymbol(cp) then LexSymbol(src, from, c, cp, str)
    else if cp in [RBRACE, AT_SIGN, HASH, QUOTE, BACKTICK, DOUBLE_QUOTE] then LexQuoted(src, w, from, c, cp, str)
    else if cp == DOT then LexDot(src, from, c, str)
    else if cp == DOLLAR then LexDollar(src, from, c, str)
    else if cp == LF then Lexed(NewLine, [LF], from, c, str, [])
    else if cp == CR then
      if ByteAt(src, c.at) == LF then Lexed(NewLine, [CR, LF], from, Advance(src, c), str, [])
      else Lexed(NewLine, [CR], from, c, str, [])
    else LexWord(src, keywords, w, from, c, cp, str)
  }

  /** One token, comments and white space included. */
  function RawToken(src: Source, o: Options, from: Cursor, str: bool): (t: Lexed)
    requires Inside(src, from)
    ensures t.from == from && Inside(src, t.to) && from.at <= t.to.at
    ensures !t.kind.EndOfFile? ==> from.at < t.to.at
  {
    var cp, c := CodePointAt(src, from).cp, AdvanceCodePoint(src, from);
    if cp == 0 then Lexed(EndOfFile, [], from, c, str, [])
    else if cp == SLASH then LexSlash(src, o, from, c, str)
    else if cp == BLANK || cp == TAB then
      var r := SkipWhile(src, c, Blanks());
      Lexed(Whitespace, src[from.at..r.at], from, r, str, [])
    else LexOther(src, o.keywords, o.words, from, c, cp, str)
  }

  /** Kinds the options leave out. */
  predicate Skipped(o: Options, k: Kind) {
    (IsComment(k) && !o.keepComments) || (k.Whitespace? && !o.lexWhitespace)
  }

  function NextToken(src: Source, o: Options, c: Cursor, str: bool): (t: Lexed)
    requires Inside(src, c)
    ensures c.at <= t.from.at <= t.to.at && Inside(src, t.to)
    ensures !t.kind.EndOfFile? ==> t.from.at < t.to.at
    decreases |src| - c.at
  {
    var t := RawToken(src, o, c, str);
    if Skipped(o, t.kind) then NextToken(src, o, t.to, t.strExpr) else t
  }

  predicate Last(k: Kind) { k.EndOfFile? || k.Unexpected? }

  /** `getTokens`. */
  function Tokens(src: Source, o: Options, c: Cursor, str: bool): seq<Lexed>
    requires Inside(src, c)
    decreases |src| - c.at
  {
    var t := NextToken(src, o, c, str);
    if Last(t.kind) then [t] else [t] + Tokens(src, o, t.to, t.strExpr)
  }
}
