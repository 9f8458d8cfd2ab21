/** Incremental document changes of the language server: positions to offsets, one change, a batch. */
module TextEdits {
  import opened Utf8
  import opened SourceCursor

  // ---------------------------------------------------------------- positions and offsets

  /** The position of an offset for an editor: a line ends with LF, with CRLF or with a lone CR. */
  function PositionOf(src: Source, at: nat): Position
    requires at <= |src|
  {
    if at == 0 then Position(0, 0)
    else
      var p := PositionOf(src, at - 1);
      if src[at - 1] == LF || (src[at - 1] == CR && ByteAt(src, at) != LF) then Position(p.line + 1, 0)
      else Position(p.line, p.character + 1)
  }

  lemma {:induction false} PositionsGrow(src: Source, a: nat, b: nat)
    requires a < b <= |src|
    ensures Before(PositionOf(src, a), PositionOf(src, b))
    decreases b
  {
    if a == b - 1 {
    } else {
      PositionsGrow(src, a, b - 1);
    }
  }

  /** An offset an editor can name: not between the two bytes of a CRLF. */
  predicate Nameable(src: Source, at: nat) {
    at <= |src| && !InsideCrlf(src, at)
  }

  /** The nameable offset of a position, or the end of the text when no nameable offset has it. */
  ghost predicate IsOffset(src: Source, target: Position, at: nat) {
    && Nameable(src, at)
    && (PositionOf(src, at) == target
        || (at == |src| && forall o: nat :: Nameable(src, o) ==> PositionOf(src, o) != target))
  }

  lemma OffsetUnique(src: Source, target: Position, a: nat, b: nat)
    requires IsOffset(src, target, a) && IsOffset(src, target, b)
    ensures a == b
  {
    if a < b {
      PositionsGrow(src, a, b);
    } else if b < a {
      PositionsGrow(src, b, a);
    }
  }

  method PositionToOffset(source: Source, targetLine: nat, targetChar: nat) returns (offset: nat)
    ensures IsOffset(source, Position(targetLine, targetChar), offset)
  {
    offset := 0;
    var line, ch := 0, 0;
    while offset < |source|
      invariant Nameable(source, offset) && PositionOf(source, offset) == Position(line, ch)
      invariant forall o: nat :: o < offset && Nameable(source, o)
                  ==> PositionOf(source, o) != Position(targetLine, targetChar)
    {
      if line == targetLine && ch == targetChar {
        return;
      }
      var c := source[offset];
      offset := offset + 1;
      if c == LF {
        line := line + 1;
        ch := 0;
      } else if c == CR {
        if offset < |source| && source[offset] == LF {
          offset := offset + 1;
        }
        line := line + 1;
        ch := 0;
      } else {
        ch := ch + 1;
      }
    }
  }

  ghost function OffsetOf(src: Source, target: Position): (at: nat)
    ensures IsOffset(src, target, at)
  {
    if o: nat :| Nameable(src, o) && PositionOf(src, o) == target then o else |src|
  }

  lemma OffsetInverts(src: Source, at: nat)
    requires Nameable(src, at)
    ensures OffsetOf(src, PositionOf(src, at)) == at
  {
    OffsetUnique(src, PositionOf(src, at), OffsetOf(src, PositionOf(src, at)), at);
  }

  function LastLine(src: Source): nat { PositionOf(src, |src|).line }

  /** No offset has a line behind the last one, so such a position leads to the end of the text. */
  lemma BehindTheText(src: Source, target: Position)
    requires target.line > LastLine(src)
    ensures OffsetOf(src, target) == |src|
  {
    var o := OffsetOf(src, target);
    if o < |src| {
      PositionsGrow(src, o, |src|);
    }
  }

  // ---------------------------------------------------------------- one change, and a batch

  function Splice(src: Source, a: nat, b: nat, text: Source): Source
    requires a <= b <= |src|
  {
    src[..a] + text + src[b..]
  }

  function SpliceBetween(src: Source, a: nat, b: nat, text: Source): Source
    requires a <= |src| && b <= |src|
  {
    if a <= b then Splice(src, a, b, text) else Splice(src, b, a, text)
  }

  /** One change: the two positions in either order. */
  ghost function Applied(src: Source, start: Position, end: Position, text: Source): Source {
    SpliceBetween(src, OffsetOf(src, start), OffsetOf(src, end), text)
  }

  /** A change event: a whole new text, or a text for a range. */
  datatype Change = Whole(text: Source) | Ranged(start: Position, end: Position, text: Source)

  /** Ranged changes apply one after the other; among several changes a whole text is passed over. */
  ghost function Fold(src: Source, changes: seq<Change>): Source
    decreases |changes|
  {
    if changes == [] then src
    else
      var c := changes[0];
      Fold(if c.Ranged? then Applied(src, c.start, c.end, c.text) else src, changes[1..])
  }

  class Document {
    var source: Source

    constructor (text: Source)
      ensures source == text
    {
      source := text;
    }

    method ApplyChange(lineStart: nat, charStart: nat, lineEnd: nat, charEnd: nat, replacement: Source)
      modifies this
      ensures source == Applied(old(source), Position(lineStart, charStart), Position(lineEnd, charEnd), replacement)
    {
      var startOffset := PositionToOffset(source, lineStart, charStart);
      var endOffset := PositionToOffset(source, lineEnd, charEnd);
      ghost var start, end := Position(lineStart, charStart), Position(lineEnd, charEnd);
      OffsetUnique(source, start, startOffset, OffsetOf(source, start));
      OffsetUnique(source, end, endOffset, OffsetOf(source, end));
      if startOffset > endOffset {
        startOffset, endOffset := endOffset, startOffset;
      }
      source := source[..startOffset] + replacement + source[endOffset..];
    }

    method OnChangedContents(changes: seq<Change>)
      modifies this
      ensures source == if |changes| == 1 && changes[0].Whole? then changes[0].text
                        else Fold(old(source), changes)
    {
      if |changes| == 1 && changes[0].Whole? {
        source := changes[0].text;
        return;
      }
      var i := 0;
      while i < |changes|
        invariant i <= |changes|
        invariant Fold(source, changes[i..]) == Fold(old(source), changes)
      {
        var c := changes[i];
        assert changes[i..][1..] == changes[i + 1..];
        if c.Ranged? {
          ApplyChange(c.start.line, c.start.character, c.end.line, c.end.character, c.text);
        }
        i := i + 1;
      }
    }
  }

  // ---------------------------------------------------------------- undoing a change

  /** An offset inside a CRLF cannot be named: its position leads to the end of the text. */
  lemma NamedOffset(src: Source, at: nat)
    requires at <= |src|
    ensures OffsetOf(src, PositionOf(src, at)) == if InsideCrlf(src, at) then |src| else at
  {
    var o := OffsetOf(src, PositionOf(src, at));
    if o < at {
      PositionsGrow(src, o, at);
    } else if at < o {
      PositionsGrow(src, at, o);
    }
  }

  /** When an end of the inserted text is inside a CRLF, the range named for the undo reaches the end of
      the edited text, and what is put back is not the old text. */
  lemma UndoMisses(src: Source, lo: nat, hi: nat, text: Source)
    requires lo <= hi <= |src| && Nameable(src, lo)
    requires var edited := Splice(src, lo, hi, text);
             InsideCrlf(edited, lo) || InsideCrlf(edited, lo + |text|)
    ensures var edited, mid := Splice(src, lo, hi, text), lo + |text|;
            if !InsideCrlf(edited, lo) then Splice(edited, lo, |edited|, src[lo..hi]) != src
            else if !InsideCrlf(edited, mid) then Splice(edited, mid, |edited|, src[lo..hi]) != src
            else Splice(edited, |edited|, |edited|, src[lo..hi]) != src
  {
    var edited, mid, removed := Splice(src, lo, hi, text), lo + |text|, src[lo..hi];
    if !InsideCrlf(edited, lo) {
      assert |Splice(edited, lo, |edited|, removed)| == lo + |removed|;
    } else {
      // The edited text has an LF at `lo` after the CR of the old text, the old text has none.
      var from := if InsideCrlf(edited, mid) then |edited| else mid;
      var undone := Splice(edited, from, |edited|, removed);
      assert edited[lo - 1] == src[lo - 1] && edited[lo] == LF;
      assert |undone| == |src| ==> undone[lo] == LF && src[lo] != LF;
    }
  }

  lemma UndoneBetween(src: Source, lo: nat, hi: nat, text: Source, edited: Source, u: nat, v: nat)
    requires lo <= hi <= |src| && Nameable(src, lo) && edited == Splice(src, lo, hi, text)
    requires u == if InsideCrlf(edited, lo) then |edited| else lo
    requires v == if InsideCrlf(edited, lo + |text|) then |edited| else lo + |text|
    ensures SpliceBetween(edited, u, v, src[lo..hi]) == src
            <==> !InsideCrlf(edited, lo) && !InsideCrlf(edited, lo + |text|)
  {
    if !InsideCrlf(edited, lo) && !InsideCrlf(edited, lo + |text|) {
      assert Splice(edited, lo, lo + |text|, src[lo..hi]) == src;
    } else {
      UndoMisses(src, lo, hi, text);
    }
  }

  /** Re-applying the removed text over the range the inserted text occupies in the edited text restores
      the old text, exactly if neither end of that range is inside a CRLF of the edited text. */
  lemma UndoTheorem(src: Source, start: Position, end: Position, text: Source, edited: Source, lo: nat, hi: nat)
    requires edited == Applied(src, start, end, text)
    requires var a, b := OffsetOf(src, start), OffsetOf(src, end);
             lo == (if a <= b then a else b) && hi == (if a <= b then b else a)
    ensures lo + |text| <= |edited|
    ensures Applied(edited, PositionOf(edited, lo), PositionOf(edited, lo + |text|), src[lo..hi]) == src
            <==> !InsideCrlf(edited, lo) && !InsideCrlf(edited, lo + |text|)
  {
    assert Nameable(src, lo) && edited == Splice(src, lo, hi, text);
    NamedOffset(edited, lo);
    NamedOffset(edited, lo + |text|);
    UndoneBetween(src, lo, hi, text, edited,
                  OffsetOf(edited, PositionOf(edited, lo)), OffsetOf(edited, PositionOf(edited, lo + |text|)));
  }

  // ---------------------------------------------------------------- a batch of changes

  /** An edit by offsets of the original text. */
  datatype Edit = Edit(from: nat, to: nat, text: Source)

  /** Edits of `src` from right to left, below `limit`. */
  ghost predicate Batch(src: Source, edits: seq<Edit>, limit: nat)
    decreases |edits|
  {
    edits == []
    || (&& edits[0].from <= edits[0].to <= limit
        && Nameable(src, edits[0].from) && Nameable(src, edits[0].to)
        && Batch(src, edits[1..], edits[0].from))
  }

  /** All edits at once: the text below `limit` with every edited range replaced. */
  ghost function Simultaneous(src: Source, edits: seq<Edit>, limit: nat): Source
    requires limit <= |src| && Batch(src, edits, limit)
    decreases |edits|
  {
    if edits == [] then src[..limit]
    else Simultaneous(src, edits[1..], edits[0].from) + edits[0].text + src[edits[0].to..limit]
  }

  /** The change events that name every range by its position in the original text. */
  ghost function Events(src: Source, edits: seq<Edit>, limit: nat): seq<Change>
    requires Batch(src, edits, limit)
    decreases |edits|
  {
    if edits == [] then []
    else
      [Ranged(PositionOf(src, edits[0].from), PositionOf(src, edits[0].to), edits[0].text)]
      + Events(src, edits[1..], edits[0].from)
  }

  /** A position depends on the text before it, and on what follows a CR just before it. */
  lemma {:induction false} PositionLocal(src: Source, other: Source, at: nat)
    requires at <= |src| && at <= |other| && src[..at] == other[..at]
    requires at > 0 && src[at - 1] == CR ==> (ByteAt(src, at) == LF <==> ByteAt(other, at) == LF)
    ensures PositionOf(src, at) == PositionOf(other, at)
  {
    if at == 0 {
    } else {
      assert src[at - 1] == src[..at][at - 1] == other[at - 1];
      assert src[..at - 1] == src[..at][..at - 1] == other[..at - 1];
      PositionLocal(src, other, at - 1);
    }
  }

  lemma OffsetLocal(src: Source, other: Source, at: nat)
    requires Nameable(src, at) && at <= |other| && src[..at] == other[..at]
    requires at > 0 && src[at - 1] == CR ==> ByteAt(other, at) != LF
    ensures OffsetOf(other, PositionOf(src, at)) == at
  {
    assert at > 0 ==> src[at - 1] == src[..at][at - 1] == other[at - 1];
    PositionLocal(src, other, at);
    OffsetInverts(other, at);
  }

  /** The edit ends behind a CR at `limit`, where an edit before it has put the byte `b`. */
  predicate Splits(src: Source, e: Edit, limit: nat, b: Byte)
    requires limit <= |src|
  {
    e.to == limit && limit > 0 && src[limit - 1] == CR && b == LF
  }

  /** The byte that follows the start of `e` once it is made, if `b` follows `limit`. */
  function NextByte(src: Source, e: Edit, limit: nat, b: Byte): Byte
    requires e.to <= limit <= |src|
  {
    if e.text != [] then e.text[0] else if e.to < limit then src[e.to] else b
  }

  predicate OnlyLineFeeds(text: Source) {
    forall k :: 0 <= k < |text| ==> text[k] == LF
  }

  /** No edit ends where a CRLF has come about, unless it only inserts line feeds there. */
  ghost predicate MeetCleanly(src: Source, edits: seq<Edit>, limit: nat, b: Byte)
    requires limit <= |src| && Batch(src, edits, limit)
    decreases |edits|
  {
    edits == []
    || (&& (Splits(src, edits[0], limit, b) ==> edits[0].from == edits[0].to && OnlyLineFeeds(edits[0].text))
        && MeetCleanly(src, edits[1..], edits[0].from, NextByte(src, edits[0], limit, b)))
  }

  /** Behind a CR that has become part of a CRLF, the position of the original text is behind the LF. */
  lemma SplitEnd(src: Source, limit: nat, tail: Source)
    requires 0 < limit <= |src| && Nameable(src, limit) && src[limit - 1] == CR && tail != [] && tail[0] == LF
    ensures OffsetOf(src[..limit] + tail, PositionOf(src, limit)) == limit + 1
  {
    var text := src[..limit] + tail;
    assert src[..limit - 1] == text[..limit - 1] && text[limit - 1] == CR && text[limit] == LF;
    PositionLocal(src, text, limit - 1);
    assert PositionOf(text, limit + 1) == PositionOf(src, limit);
    hide PositionOf;
    OffsetInverts(text, limit + 1);
  }

  lemma EndAt(src: Source, limit: nat, tail: Source, at: nat)
    requires at <= limit <= |src| && Nameable(src, at)
    ensures OffsetOf(src[..limit] + tail, PositionOf(src, at))
            == if at == limit && limit > 0 && src[limit - 1] == CR && ByteAt(tail, 0) == LF then limit + 1 else at
  {
    if at == limit && limit > 0 && src[limit - 1] == CR && ByteAt(tail, 0) == LF {
      SplitEnd(src, limit, tail);
    } else {
      OffsetLocal(src, src[..limit] + tail, at);
    }
  }

  /** What the first event leaves right of the start of its range. */
  function MoreOf(src: Source, e: Edit, limit: nat, tail: Source): Source
    requires e.from <= e.to <= limit <= |src|
  {
    if !Splits(src, e, limit, ByteAt(tail, 0)) then e.text + src[e.to..limit] + tail
    else if e.from < e.to then e.text + tail[1..]
    else [LF] + e.text + tail[1..]
  }

  lemma EventEnds(src: Source, e: Edit, limit: nat, tail: Source)
    requires e.from <= e.to <= limit <= |src| && Nameable(src, e.from) && Nameable(src, e.to)
    ensures var text := src[..limit] + tail;
            Applied(text, PositionOf(src, e.from), PositionOf(src, e.to), e.text)
            == if Splits(src, e, limit, ByteAt(tail, 0))
               then SpliceBetween(text, if e.from == e.to then limit + 1 else e.from, limit + 1, e.text)
               else SpliceBetween(text, e.from, e.to, e.text)
  {
    hide PositionOf, OffsetOf, SpliceBetween, InsideCrlf;
    EndAt(src, limit, tail, e.from);
    EndAt(src, limit, tail, e.to);
  }

  lemma EventText(src: Source, e: Edit, limit: nat, tail: Source)
    requires e.from <= e.to <= limit <= |src| && Nameable(src, e.from) && Nameable(src, e.to)
    ensures Applied(src[..limit] + tail, PositionOf(src, e.from), PositionOf(src, e.to), e.text)
            == src[..e.from] + MoreOf(src, e, limit, tail)
  {
    hide *;
    EventEnds(src, e, limit, tail);
    if Splits(src, e, limit, ByteAt(tail, 0)) {
      SplicedSplit(src, e, limit, tail);
    } else {
      SplicedClean(src, e, limit, tail);
    }
  }

  lemma SplicedClean(src: Source, e: Edit, limit: nat, tail: Source)
    requires e.from <= e.to <= limit <= |src| && !Splits(src, e, limit, ByteAt(tail, 0))
    ensures SpliceBetween(src[..limit] + tail, e.from, e.to, e.text) == src[..e.from] + MoreOf(src, e, limit, tail)
  {
    hide Splits;
    assert Splice(src[..limit] + tail, e.from, e.to, e.text) == src[..e.from] + (e.text + src[e.to..limit] + tail);
  }

  lemma SplicedSplit(src: Source, e: Edit, limit: nat, tail: Source)
    requires e.from <= e.to <= limit <= |src| && Splits(src, e, limit, ByteAt(tail, 0))
    ensures SpliceBetween(src[..limit] + tail, if e.from == e.to then limit + 1 else e.from, limit + 1, e.text)
            == src[..e.from] + MoreOf(src, e, limit, tail)
  {
    var text := src[..limit] + tail;
    if e.from < e.to {
      assert Splice(text, e.from, limit + 1, e.text) == src[..e.from] + (e.text + tail[1..]);
    } else {
      assert Splice(text, limit + 1, limit + 1, e.text) == src[..limit] + ([LF] + e.text + tail[1..]);
    }
  }

  lemma FoldFirst(text: Source, c: Change, rest: seq<Change>)
    requires c.Ranged?
    ensures Fold(text, [c] + rest) == Fold(Applied(text, c.start, c.end, c.text), rest)
  {
    assert ([c] + rest)[1..] == rest;
  }

  /** The first event. */
  lemma FirstEvent(src: Source, edits: seq<Edit>, limit: nat, tail: Source)
    requires limit <= |src| && Batch(src, edits, limit) && edits != []
    ensures var e, rest := edits[0], edits[1..];
            Fold(src[..limit] + tail, Events(src, edits, limit))
            == Fold(src[..e.from] + MoreOf(src, e, limit, tail), Events(src, rest, e.from))
  {
    var e, rest := edits[0], edits[1..];
    hide PositionOf, OffsetOf, Fold, Applied, MoreOf;
    EventText(src, e, limit, tail);
    FoldFirst(src[..limit] + tail, Events(src, edits, limit)[0], Events(src, rest, e.from));
  }

  ghost predicate EndsWith(text: Source, end: Source) {
    |end| <= |text| && text[|text| - |end|..] == end
  }

  /** Folding never gives more than the simultaneous edit does, and when it gives as much, only the first
      byte of the tail can have been touched. */
  lemma {:induction false} FoldLength(src: Source, edits: seq<Edit>, limit: nat, tail: Source)
    requires limit <= |src| && Batch(src, edits, limit)
    ensures var folded, all := Fold(src[..limit] + tail, Events(src, edits, limit)), Simultaneous(src, edits, limit);
            && |folded| <= |all| + |tail|
            && (|folded| == |all| + |tail| && tail != [] ==> EndsWith(folded, tail[1..]))
    decreases |edits|
  {
    if edits == [] {
    } else {
      var e := edits[0];
      var more := MoreOf(src, e, limit, tail);
      FirstEvent(src, edits, limit, tail);
      FoldLength(src, edits[1..], e.from, more);
      assert |Simultaneous(src, edits, limit)| == |Simultaneous(src, edits[1..], e.from)| + |e.text| + limit - e.to;
      var folded := Fold(src[..limit] + tail, Events(src, edits, limit));
      hide Fold, Simultaneous, Events, Batch;
      if tail != [] && |more| == |e.text| + limit - e.to + |tail| {
        MoreEnds(src, e, limit, tail);
        if more != [] && EndsWith(folded, more[1..]) {
          assert EndsWith(folded, tail[1..]);
        }
      }
    }
  }

  lemma MoreEnds(src: Source, e: Edit, limit: nat, tail: Source)
    requires e.from <= e.to <= limit <= |src| && tail != []
    requires |MoreOf(src, e, limit, tail)| == |e.text| + limit - e.to + |tail|
    ensures EndsWith(MoreOf(src, e, limit, tail)[1..], tail[1..])
  {
  }

  /** A text that moving an LF from its front to its end does not change has nothing but LFs. */
  lemma LineFeedsRotate(text: Source)
    requires text != [] && text == text[1..] + [LF]
    ensures OnlyLineFeeds(text)
  {
    var k := |text|;
    while k > 0
      invariant 0 <= k <= |text| && forall j :: k <= j < |text| ==> text[j] == LF
    {
      k := k - 1;
      assert text[k] == (text[1..] + [LF])[k];
    }
  }

  lemma NextByteIs(src: Source, e: Edit, limit: nat, tail: Source)
    requires e.from <= e.to <= limit <= |src|
    ensures ByteAt(e.text + src[e.to..limit] + tail, 0) == NextByte(src, e, limit, ByteAt(tail, 0))
  {
  }

  lemma SimultaneousFirst(src: Source, edits: seq<Edit>, limit: nat, tail: Source)
    requires limit <= |src| && Batch(src, edits, limit) && edits != []
    ensures var e := edits[0];
            Simultaneous(src, edits, limit) + tail
            == Simultaneous(src, edits[1..], e.from) + (e.text + src[e.to..limit] + tail)
  {
    var e := edits[0];
    Regroup(Simultaneous(src, edits[1..], e.from), e.text, src[e.to..limit], tail);
  }

  /** An insertion behind a CRLF that has come about puts the text behind the LF instead of in front. */
  lemma InsertedBehind(src: Source, edits: seq<Edit>, from: nat, text: Source, rest: Source)
    requires from <= |src| && Batch(src, edits, from)
    ensures !OnlyLineFeeds(text) ==>
      Fold(src[..from] + ([LF] + text + rest), Events(src, edits, from))
      != Simultaneous(src, edits, from) + (text + ([LF] + rest))
    ensures OnlyLineFeeds(text) ==> [LF] + text + rest == text + ([LF] + rest)
  {
    var behind, front := [LF] + text + rest, text + ([LF] + rest);
    var folded, all := Fold(src[..from] + behind, Events(src, edits, from)), Simultaneous(src, edits, from);
    FoldLength(src, edits, from, behind);
    hide Fold, Simultaneous, Events, Batch;
    if !OnlyLineFeeds(text) && folded == all + front {
      assert EndsWith(folded, behind[1..]) && EndsWith(folded, front[1..]);
      assert behind[1..] == text + rest && front[1..] == text[1..] + [LF] + rest;
      assert text == (text + rest)[..|text|] == (text[1..] + [LF] + rest)[..|text|] == text[1..] + [LF];
      LineFeedsRotate(text);
      assert false;
    }
  }

  /** An edit behind a CRLF that has come about is made as in the original text only if it inserts
      nothing but line feeds. */
  lemma SplitEvent(src: Source, edits: seq<Edit>, limit: nat, tail: Source)
    requires limit <= |src| && Batch(src, edits, limit) && edits != []
    requires Splits(src, edits[0], limit, ByteAt(tail, 0))
    ensures var e, rest := edits[0], edits[1..];
            var more := e.text + src[e.to..limit] + tail;
            if e.from < e.to || !OnlyLineFeeds(e.text) then
              Fold(src[..e.from] + MoreOf(src, e, limit, tail), Events(src, rest, e.from))
              != Simultaneous(src, rest, e.from) + more
            else MoreOf(src, e, limit, tail) == more
  {
    var e, rest := edits[0], edits[1..];
    assert src[e.to..limit] == [] && tail == [LF] + tail[1..];
    assert e.text + src[e.to..limit] + tail == e.text + ([LF] + tail[1..]);
    if e.from < e.to {
      FoldLength(src, rest, e.from, e.text + tail[1..]);
    } else {
      InsertedBehind(src, rest, e.from, e.text, tail[1..]);
    }
    hide Fold, Simultaneous, Events, Batch, OnlyLineFeeds;
  }

  /** Once the edits right of `limit` are made, leaving `tail`, the others are made as in the original
      text, exactly if they meet cleanly. */
  lemma {:induction false} FoldExact(src: Source, edits: seq<Edit>, limit: nat, tail: Source)
    requires limit <= |src| && Batch(src, edits, limit)
    ensures Fold(src[..limit] + tail, Events(src, edits, limit)) == Simultaneous(src, edits, limit) + tail
            <==> MeetCleanly(src, edits, limit, ByteAt(tail, 0))
    decreases |edits|
  {
    if edits == [] {
    } else {
      var e, rest := edits[0], edits[1..];
      FirstEvent(src, edits, limit, tail);
      SimultaneousFirst(src, edits, limit, tail);
      NextByteIs(src, e, limit, tail);
      FoldExact(src, rest, e.from, e.text + src[e.to..limit] + tail);
      if Splits(src, e, limit, ByteAt(tail, 0)) {
        SplitEvent(src, edits, limit, tail);
      }
      hide Fold, Simultaneous, Events, OnlyLineFeeds, NextByte, ByteAt, Splits;
    }
  }

  lemma Regroup(a: Source, b: Source, c: Source, d: Source)
    ensures a + b + c + d == a + (b + c + d)
  {
  }

  /** Folding the changes one by one, with positions of the original text, is the simultaneous edit,
      exactly if no edit ends where a CRLF has come about, unless it only inserts line feeds there. */
  lemma BatchTheorem(src: Source, edits: seq<Edit>)
    requires Batch(src, edits, |src|)
    ensures Fold(src, Events(src, edits, |src|)) == Simultaneous(src, edits, |src|)
            <==> MeetCleanly(src, edits, |src|, NUL)
  {
    assert src[..|src|] + [] == src;
    FoldExact(src, edits, |src|, []);
    assert Simultaneous(src, edits, |src|) + [] == Simultaneous(src, edits, |src|);
  }

  /** Successive edits are at least one character apart. */
  ghost predicate Separated(edits: seq<Edit>) {
    forall k :: 0 <= k < |edits| - 1 ==> edits[k + 1].to < edits[k].from
  }

  lemma {:induction false} SeparatedMeetCleanly(src: Source, edits: seq<Edit>, limit: nat, b: Byte)
    requires limit <= |src| && Batch(src, edits, limit) && Separated(edits)
    requires edits != [] && edits[0].to == limit ==> b != LF
    ensures MeetCleanly(src, edits, limit, b)
    decreases |edits|
  {
    if edits == [] {
    } else {
      assert |edits| > 1 ==> edits[1].to < edits[0].from;
      SeparatedMeetCleanly(src, edits[1..], edits[0].from, NextByte(src, edits[0], limit, b));
    }
  }

  /** Edits that are a character apart can always be folded. */
  lemma SeparatedBatch(src: Source, edits: seq<Edit>)
    requires Batch(src, edits, |src|) && Separated(edits)
    ensures Fold(src, Events(src, edits, |src|)) == Simultaneous(src, edits, |src|)
  {
    SeparatedMeetCleanly(src, edits, |src|, NUL);
    BatchTheorem(src, edits);
  }
}
