/** The positions the cursor of the lexer counts, against the positions an editor names. */
module PositionTracking {
  import opened Utf8
  import opened SourceCursor
  import opened TextEdits

  /** A move of the cursor: `readCharacter` and `increment()`, or `readCodePoint`. */
  datatype Move = ByByte | ByCodePoint

  function After(src: Source, c: Cursor, moves: seq<Move>): (r: Cursor)
    requires Inside(src, c)
    ensures Inside(src, r)
    decreases |moves|
  {
    if moves == [] then c
    else
      After(src, if moves[0].ByByte? then Advance(src, c) else AdvanceCodePoint(src, c), moves[1..])
  }

  /** A text without line ends, read by code points, takes one column for each of them. */
  lemma {:induction false} TextColumns(src: Source, c: Cursor, vs: seq<ScalarValue>, moves: seq<Move>)
    requires Inside(src, c) && EncodeAll(vs) <= src[c.at..]
    requires forall k :: 0 <= k < |vs| ==> vs[k] != 0x0A && vs[k] != 0x0C && vs[k] != 0x0D
    requires |moves| == |vs| && forall k :: 0 <= k < |moves| ==> moves[k] == ByCodePoint
    ensures After(src, c, moves)
            == Cursor(c.at + |EncodeAll(vs)|, Position(c.pos.line, c.pos.character + |vs|))
    decreases |vs|
  {
    if vs == [] {
    } else {
      var e, rest := Encode(vs[0]), EncodeAll(vs[1..]);
      var n := FirstColumn(src, c, vs[0]);
      assert src[n.at..] == src[c.at..][|e|..] && (e + rest)[|e|..] == rest;
      TextColumns(src, n, vs[1..], moves[1..]);
    }
  }

  lemma FirstColumn(src: Source, c: Cursor, v: ScalarValue) returns (n: Cursor)
    requires Inside(src, c) && Encode(v) <= src[c.at..] && v != 0x0A && v != 0x0C && v != 0x0D
    ensures n == AdvanceCodePoint(src, c)
            == Cursor(c.at + |Encode(v)|, Position(c.pos.line, c.pos.character + 1))
  {
    n := AdvanceCodePoint(src, c);
    DecodeEncode(v, src[c.at..]);
    MovesCount(src, c, 0);
    assert src[c.at..][0] == src[c.at];
    if src[c.at] < 0x80 {
      AsciiStep(src[c.at..]);
    }
    hide DecodePeek, Encode;
  }

  /** No form feed, except as the last byte. */
  predicate NoEarlyFormFeed(src: Source) {
    forall q :: 0 <= q < |src| - 1 ==> src[q] != FF
  }

  /** No byte starts a well-formed sequence of more than one byte. */
  predicate SingleBytes(src: Source) {
    forall p :: 0 <= p < |src| ==> CodePointAt(src, CursorAt(src, p)).len == 1
  }

  /** After every run of moves that stops outside a CRLF, `positionToOffset` on the line and character
      of the cursor gives its byte offset back. */
  ghost predicate PositionsAgree(src: Source) {
    forall moves :: var c := After(src, START, moves);
      !InsideCrlf(src, c.at) ==> OffsetOf(src, c.pos) == c.at
  }

  /** Byte by byte and without form feeds the two ways to count agree outside a CRLF. */
  lemma {:induction false} SameCount(src: Source, at: nat)
    requires at <= |src| && forall q :: 0 <= q < at ==> src[q] != FF
    ensures CursorAt(src, at).pos == PositionOf(src, at)
  {
    if at == 0 {
    } else {
      SameCount(src, at - 1);
    }
  }

  lemma {:induction false} AllBytes(src: Source, n: nat, moves: seq<Move>)
    requires n <= |src| && moves == seq(n, _ => ByByte)
    ensures After(src, START, moves) == CursorAt(src, n)
  {
    AllBytesFrom(src, 0, moves);
  }

  lemma {:induction false} AllBytesFrom(src: Source, k: nat, moves: seq<Move>)
    requires k + |moves| <= |src| && forall i :: 0 <= i < |moves| ==> moves[i] == ByByte
    ensures After(src, CursorAt(src, k), moves) == CursorAt(src, k + |moves|)
    decreases |moves|
  {
    if moves == [] {
    } else {
      assert Advance(src, CursorAt(src, k)) == CursorAt(src, k + 1);
      AllBytesFrom(src, k + 1, moves[1..]);
    }
  }

  lemma {:induction false} AfterConcat(src: Source, c: Cursor, a: seq<Move>, b: seq<Move>)
    requires Inside(src, c)
    ensures After(src, c, a + b) == After(src, After(src, c, a), b)
    decreases |a|
  {
    if a == [] {
      assert a + b == b;
    } else {
      assert (a + b)[1..] == a[1..] + b;
      AfterConcat(src, if a[0].ByByte? then Advance(src, c) else AdvanceCodePoint(src, c), a[1..], b);
    }
  }

  /** With single bytes, reading a code point is reading a byte. */
  lemma SingleStep(src: Source, c: Cursor)
    requires Inside(src, c) && CodePointAt(src, c).len <= 1
    ensures AdvanceCodePoint(src, c) == Advance(src, c)
  {
    if c.at < |src| {
      DecodeStep(src[c.at..]);
      assert src[c.at..][0] == src[c.at];
    }
  }

  lemma {:induction false} StaysSynced(src: Source, at: nat, moves: seq<Move>)
    requires at <= |src| && SingleBytes(src)
    ensures var r := After(src, CursorAt(src, at), moves); r == CursorAt(src, r.at)
    decreases |moves|
  {
    if moves == [] {
    } else {
      var c := CursorAt(src, at);
      if at < |src| {
        assert CodePointAt(src, c).len == 1;
      }
      SingleStep(src, c);
      assert Advance(src, c) == if at < |src| then CursorAt(src, at + 1) else c;
      StaysSynced(src, Advance(src, c).at, moves[1..]);
    }
  }

  /** At the end of a text whose last byte is a form feed the cursor is a line further than any offset. */
  lemma CursorNamesOffset(src: Source, at: nat)
    requires Nameable(src, at) && NoEarlyFormFeed(src)
    ensures OffsetOf(src, CursorAt(src, at).pos) == at
  {
    if at < |src| || at == 0 || src[at - 1] != FF {
      SameCount(src, at);
      OffsetInverts(src, at);
    } else {
      SameCount(src, at - 1);
      var o := OffsetOf(src, CursorAt(src, at).pos);
      if o < at {
        if o < at - 1 {
          PositionsGrow(src, o, at - 1);
        }
      }
    }
  }

  lemma FormFeedDisagrees(src: Source, q: nat)
    requires q < |src| - 1 && src[q] == FF && forall k :: 0 <= k < q ==> src[k] != FF
    ensures !PositionsAgree(src)
  {
    var moves := seq(q + 1, _ => ByByte);
    AllBytes(src, q + 1, moves);
    SameCount(src, q);
    var c := After(src, START, moves);
    assert c == Advance(src, CursorAt(src, q));
    assert !InsideCrlf(src, c.at) && OffsetOf(src, c.pos) != c.at;
  }

  lemma LongCodePointDisagrees(src: Source, p: nat)
    requires p < |src| && CodePointAt(src, CursorAt(src, p)).len > 1 && NoEarlyFormFeed(src)
    ensures !PositionsAgree(src)
  {
    var bytes := seq(p, _ => ByByte);
    AllBytes(src, p, bytes);
    AfterConcat(src, START, bytes, [ByCodePoint]);
    SameCount(src, p);
    LongStep(src[p..]);
    assert src[p..][0] == src[p];
    var c := After(src, START, bytes + [ByCodePoint]);
    assert c == AdvanceCodePoint(src, CursorAt(src, p)) by {
      assert After(src, AdvanceCodePoint(src, CursorAt(src, p)), []) == AdvanceCodePoint(src, CursorAt(src, p));
    }
    assert src[c.at - 1] == src[p..][c.at - 1 - p];
    assert Nameable(src, p + 1) && PositionOf(src, p + 1) == c.pos;
    OffsetInverts(src, p + 1);
    assert !InsideCrlf(src, c.at) && OffsetOf(src, c.pos) != c.at;
  }

  /** The cursor and the editor agree on a text, whatever mixture of moves is made, exactly if the text
      has no form feed before its last byte and no multi-byte character. */
  lemma PositionsTheorem(src: Source)
    ensures PositionsAgree(src) <==> NoEarlyFormFeed(src) && SingleBytes(src)
  {
    if !NoEarlyFormFeed(src) {
      var q := FirstFormFeed(src, 0);
      FormFeedDisagrees(src, q);
    } else if !SingleBytes(src) {
      var p :| 0 <= p < |src| && CodePointAt(src, CursorAt(src, p)).len != 1;
      LongCodePointDisagrees(src, p);
    } else {
      forall moves ensures var c := After(src, START, moves);
                           !InsideCrlf(src, c.at) ==> OffsetOf(src, c.pos) == c.at
      {
        StaysSynced(src, 0, moves);
        var c := After(src, START, moves);
        if !InsideCrlf(src, c.at) {
          CursorNamesOffset(src, c.at);
        }
      }
    }
  }

  lemma {:induction false} FirstFormFeed(src: Source, from: nat) returns (q: nat)
    requires forall k :: 0 <= k < from ==> k < |src| && src[k] != FF
    requires exists k :: from <= k < |src| - 1 && src[k] == FF
    ensures q < |src| - 1 && src[q] == FF && forall k :: 0 <= k < q ==> src[k] != FF
    decreases |src| - from
  {
    if src[from] == FF {
      q := from;
    } else {
      q := FirstFormFeed(src, from + 1);
    }
  }
}
