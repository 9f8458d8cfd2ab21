/** The cursor of the source provider: a byte offset and the line and character it has counted. */
module SourceCursor {
  import opened Utf8

  const NUL: Byte := 0x00
  const TAB: Byte := 0x09
  const LF: Byte := 0x0A
  const FF: Byte := 0x0C
  const CR: Byte := 0x0D

  datatype Position = Position(line: nat, character: nat)

  ghost predicate Before(p: Position, q: Position) {
    p.line < q.line || (p.line == q.line && p.character < q.character)
  }

  datatype Cursor = Cursor(at: nat, pos: Position)

  const START := Cursor(0, Position(0, 0))

  type Source = seq<Byte>

  predicate Inside(src: Source, c: Cursor) { c.at <= |src| }

  /** `peek` and `peekByte`: the byte at an offset, or NUL at the end. */
  function ByteAt(src: Source, at: nat): Byte {
    if at < |src| then src[at] else NUL
  }

  /** `handleCharacterRead` and `handleCodepointRead` with the data pointer at `at`. */
  function Bump(src: Source, at: nat, cp: int, pos: Position): Position {
    if cp == LF || cp == FF || (cp == CR && ByteAt(src, at) != LF)
    then Position(pos.line + 1, 0)
    else Position(pos.line, pos.character + 1)
  }

  /** `increment()`, and the move of `readCharacter`. */
  function Advance(src: Source, c: Cursor): (r: Cursor)
    requires Inside(src, c)
    ensures Inside(src, r) && r.at == if c.at < |src| then c.at + 1 else c.at
  {
    if c.at == |src| then c else Cursor(c.at + 1, Bump(src, c.at + 1, src[c.at], c.pos))
  }

  function CodePointAt(src: Source, c: Cursor): (d: Decoded)
    requires Inside(src, c)
    ensures c.at + d.len <= |src| && (d.len == 0 <==> c.at == |src|)
  {
    DecodePeek(src[c.at..])
  }

  /** The move of `readCodePoint`: the line end is recognised after the data pointer has moved. */
  function AdvanceCodePoint(src: Source, c: Cursor): (r: Cursor)
    requires Inside(src, c)
    ensures Inside(src, r) && (c.at < |src| ==> c.at < r.at) && c.at <= r.at
  {
    var d := CodePointAt(src, c);
    if d.len == 0 then c else Cursor(c.at + d.len, Bump(src, c.at + d.len, d.cp, c.pos))
  }

  /** `incrementCodepoint` on the code point just peeked: the line end is recognised first. */
  function AdvancePeeked(src: Source, c: Cursor): (r: Cursor)
    requires Inside(src, c)
    ensures Inside(src, r) && (c.at < |src| ==> c.at < r.at) && c.at <= r.at
  {
    var d := CodePointAt(src, c);
    Cursor(c.at + d.len, Bump(src, c.at, d.cp, c.pos))
  }

  /** `increment(char)`: moves only past the byte asked for. */
  function AdvanceIf(src: Source, c: Cursor, b: Byte): (r: Cursor)
    requires Inside(src, c)
    ensures Inside(src, r) && c.at <= r.at
  {
    if c.at < |src| && src[c.at] == b then Cursor(c.at + 1, Bump(src, c.at, b, c.pos)) else c
  }

  // ---------------------------------------------------------------- the provider

  class SourceProvider {
    const src: Source
    var at: nat
    var line: nat
    var character: nat

    ghost predicate Valid()
      reads this
    { at <= |src| }

    function Here(): Cursor
      reads this
    { Cursor(at, Position(line, character)) }

    constructor (src: Source)
      ensures this.src == src && Valid() && Here() == START
    {
      this.src := src;
      at, line, character := 0, 0, 0;
    }

    function Peek(): Byte
      reads this
    { ByteAt(src, at) }

    method HandleRead(cp: int)
      modifies this`line, this`character
      ensures Position(line, character) == Bump(src, at, cp, old(Position(line, character)))
    {
      if cp == LF || cp == FF || (cp == CR && Peek() != LF) {
        line, character := line + 1, 0;
      } else {
        character := character + 1;
      }
    }

    method ReadCharacter() returns (b: Byte)
      requires Valid()
      modifies this
      ensures Valid() && b == ByteAt(src, old(at)) && Here() == Advance(src, old(Here()))
    {
      if at == |src| {
        return NUL;
      }
      b := src[at];
      at := at + 1;
      HandleRead(b);
    }

    method Increment()
      requires Valid()
      modifies this
      ensures Valid() && Here() == Advance(src, old(Here()))
    {
      if at == |src| {
        return;
      }
      at := at + 1;
      HandleRead(src[at - 1]);
    }

    function PeekCodePoint(): Decoded
      requires Valid()
      reads this
    { CodePointAt(src, Here()) }

    method ReadCodePoint() returns (cp: int)
      requires Valid()
      modifies this
      ensures Valid() && cp == old(PeekCodePoint()).cp
      ensures Here() == AdvanceCodePoint(src, old(Here()))
    {
      var d := PeekCodePoint();
      if d.len == 0 {
        return 0;
      }
      at := at + d.len;
      HandleRead(d.cp);
      cp := d.cp;
    }

    method IncrementCodePoint(cp: int, len: nat)
      requires Valid() && Decoded(cp, len) == PeekCodePoint()
      modifies this
      ensures Valid() && Here() == AdvancePeeked(src, old(Here()))
    {
      HandleRead(cp);
      var rem := |src| - at;
      at := at + if len <= rem then len else rem;
    }

    method IncrementIf(b: Byte) returns (moved: bool)
      requires Valid()
      modifies this
      ensures Valid() && moved == (old(at) < |src| && src[old(at)] == b)
      ensures Here() == AdvanceIf(src, old(Here()), b)
    {
      if at < |src| && src[at] == b {
        HandleRead(b);
        at := at + 1;
        return true;
      }
      return false;
    }
  }

  // ---------------------------------------------------------------- the position of an offset

  /** The line and character the cursor has counted when it reads byte by byte up to `at`. */
  function CursorAt(src: Source, at: nat): (c: Cursor)
    requires at <= |src|
    ensures c.at == at
  {
    if at == 0 then START else Advance(src, CursorAt(src, at - 1))
  }

  /** The offset lies between the two bytes of a CRLF. */
  predicate InsideCrlf(src: Source, at: nat) {
    0 < at < |src| && src[at - 1] == CR && src[at] == LF
  }

  /** Moving past a peeked code point counts like reading it, except on the CR of a CRLF, which it takes
      for a line end of its own. */
  lemma AdvancePeekedExact(src: Source, c: Cursor)
    requires Inside(src, c)
    ensures AdvancePeeked(src, c) == AdvanceCodePoint(src, c)
            <==> c.at < |src| && !InsideCrlf(src, c.at + 1)
  {
    if c.at < |src| {
      var d := CodePointAt(src, c);
      assert src[c.at..][0] == src[c.at];
      DecodeStep(src[c.at..]);
      if d.cp == CR {
        AsciiStep(src[c.at..]);
      }
    }
  }

  /** The cursor moves by bytes, by code points or past one byte, and counts by the byte at the cursor: LF,
      a form feed and a lone CR start a line, everything else is one column, however many bytes a code
      point has.  A CR before LF is one column for the moves that look behind it, and a line for those
      that look at it. */
  lemma MovesCount(src: Source, c: Cursor, x: Byte)
    requires Inside(src, c) && c.at < |src|
    ensures var b, len := src[c.at], DecodePeek(src[c.at..]).len;
            var column, line := Position(c.pos.line, c.pos.character + 1), Position(c.pos.line + 1, 0);
            var beforeLf := c.at + 1 < |src| && src[c.at + 1] == 0x0A;
            var behind := if b == 0x0A || b == 0x0C || (b == 0x0D && !beforeLf) then line else column;
            var ahead := if b == 0x0A || b == 0x0C || b == 0x0D then line else column;
            && Advance(src, c) == Cursor(c.at + 1, behind)
            && AdvanceCodePoint(src, c) == Cursor(c.at + len, behind)
            && AdvancePeeked(src, c) == Cursor(c.at + len, ahead)
            && AdvanceIf(src, c, x) == if b == x then Cursor(c.at + 1, ahead) else c
  {
    assert src[c.at..][0] == src[c.at];
    var d := DecodePeek(src[c.at..]);
    if src[c.at] < 0x80 || d.cp < 0x80 {
      AsciiStep(src[c.at..]);
    }
    hide DecodePeek;
  }

  /** An ASCII code point is read from one byte, its own. */
  lemma AsciiStep(s: seq<Byte>)
    requires s != [] && (DecodePeek(s).cp < 0x80 || s[0] < 0x80)
    ensures DecodePeek(s) == Decoded(s[0], 1)
  {
    if DecodePeek(s).len == 2 {
      LongStep2(s);
    } else if DecodePeek(s).len == 3 {
      LongStep3(s);
    } else if DecodePeek(s).len == 4 {
      LongStep4(s);
    }
  }
}
