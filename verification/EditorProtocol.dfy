/** Positions and changes as the Language Server Protocol defines them, against what the server does with
    them. */
module EditorProtocol {
  import opened Utf8
  import opened SourceCursor
  import opened TextEdits
  import opened PositionTracking

  // ---------------------------------------------------------------- a column behind the end of its line

  /** The end of a line: in front of its line ending, or the end of the text. */
  predicate IsLineEnd(src: Source, line: nat, at: nat) {
    && Nameable(src, at) && PositionOf(src, at).line == line
    && (at == |src| || src[at] == LF || src[at] == CR)
  }

  /** The first line ending from `at` on. */
  function EndFrom(src: Source, at: nat): (end: nat)
    requires at <= |src|
    ensures at <= end <= |src| && (end == |src| || src[end] == LF || src[end] == CR)
    ensures forall k :: at <= k < end ==> src[k] != LF && src[k] != CR
    decreases |src| - at
  {
    if at == |src| || src[at] == LF || src[at] == CR then at else EndFrom(src, at + 1)
  }

  /** Within a line the column grows with the offset. */
  lemma {:induction false} ColumnGrows(src: Source, at: nat, b: nat)
    requires at <= b <= |src| && forall k :: at <= k < b ==> src[k] != LF && src[k] != CR
    ensures PositionOf(src, b) == Position(PositionOf(src, at).line, PositionOf(src, at).character + b - at)
    decreases b
  {
    if b == at {
    } else {
      ColumnGrows(src, at, b - 1);
    }
  }

  /** Every line up to that of `at` starts somewhere up to `at`. */
  lemma {:induction false} LineStarts(src: Source, at: nat, line: nat) returns (start: nat)
    requires at <= |src| && line <= PositionOf(src, at).line
    ensures start <= at && Nameable(src, start) && PositionOf(src, start) == Position(line, 0)
  {
    if at == 0 {
      start := 0;
    } else if PositionOf(src, at) == Position(line, 0) {
      start := at;
    } else {
      start := LineStarts(src, at - 1, line);
    }
  }

  lemma LineEnds(src: Source, line: nat) returns (start: nat, end: nat)
    requires line <= LastLine(src)
    ensures start <= end && IsLineEnd(src, line, end) && Nameable(src, start)
    ensures PositionOf(src, start) == Position(line, 0) && PositionOf(src, end) == Position(line, end - start)
    ensures forall k :: start <= k < end ==> src[k] != LF && src[k] != CR
  {
    start := LineStarts(src, |src|, line);
    end := EndFrom(src, start);
    ColumnGrows(src, start, end);
  }

  /** A line has one end, and behind it starts the next line or nothing. */
  lemma LineEndIsLast(src: Source, line: nat, end: nat, at: nat)
    requires IsLineEnd(src, line, end) && Nameable(src, at) && PositionOf(src, at).line == line
    ensures at <= end
  {
    if end < at {
      var next := if src[end] == CR && ByteAt(src, end + 1) == LF then end + 2 else end + 1;
      assert PositionOf(src, next) == Position(line + 1, 0);
      if next < at {
        PositionsGrow(src, next, at);
      }
    }
  }

  lemma HasLineEnd(src: Source, line: nat)
    requires line <= LastLine(src)
    ensures exists end: nat :: IsLineEnd(src, line, end)
  {
    var start, end := LineEnds(src, line);
  }

  ghost function LineEnd(src: Source, line: nat): (end: nat)
    requires line <= LastLine(src)
    ensures IsLineEnd(src, line, end)
  {
    HasLineEnd(src, line);
    var end: nat :| IsLineEnd(src, line, end);
    end
  }

  ghost function LineLength(src: Source, line: nat): nat
    requires line <= LastLine(src)
  {
    PositionOf(src, LineEnd(src, line)).character
  }

  lemma ColumnOf(src: Source, target: Position)
    requires target.line <= LastLine(src) && target.character <= LineLength(src, target.line)
    ensures var at := LineEnd(src, target.line) - LineLength(src, target.line) + target.character;
            0 <= at && Nameable(src, at) && PositionOf(src, at) == target
  {
    var line := target.line;
    var start, end := LineEnds(src, line);
    LineEndIsLast(src, line, end, LineEnd(src, line));
    LineEndIsLast(src, line, LineEnd(src, line), end);
    ColumnGrows(src, start, start + target.character);
    hide PositionOf;
  }

  /** The offset the protocol gives a position: a column behind the end of its line is the end of the
      line, a line behind the last one is the end of the text. */
  ghost function ProtocolOffset(src: Source, target: Position): (at: int)
  {
    if target.line > LastLine(src) then |src|
    else
      var end, length := LineEnd(src, target.line), LineLength(src, target.line);
      if target.character > length then end else end - length + target.character
  }

  /** No offset has a column behind the end of its line, so such a position leads to the end of the text. */
  lemma BehindTheLine(src: Source, target: Position)
    requires target.line <= LastLine(src) && target.character > LineLength(src, target.line)
    ensures OffsetOf(src, target) == |src|
  {
    var end, o := LineEnd(src, target.line), OffsetOf(src, target);
    if PositionOf(src, o) == target {
      LineEndIsLast(src, target.line, end, o);
      if o < end {
        PositionsGrow(src, o, end);
      }
    }
  }

  /** The server finds the offset the protocol means, exactly if the line is the last one or lies behind
      it, or the column is within the line. */
  lemma ProtocolOffsetTheorem(src: Source, target: Position)
    ensures OffsetOf(src, target) == ProtocolOffset(src, target)
            <==> target.line >= LastLine(src) || target.character <= LineLength(src, target.line)
  {
    if target.line > LastLine(src) {
      BehindTheText(src, target);
    } else {
      var end := LineEnd(src, target.line);
      if target.character > LineLength(src, target.line) {
        BehindTheLine(src, target);
        if target.line == LastLine(src) {
          LineEndIsLast(src, target.line, end, |src|);
        }
      } else {
        ColumnOf(src, target);
        OffsetInverts(src, end - LineLength(src, target.line) + target.character);
      }
    }
  }

  /** In a text of one line ending, column 1 of the empty first line is its end for the protocol and the
      end of the text for the server. */
  lemma ColumnBehindLine()
    ensures OffsetOf([LF], Position(0, 1)) == 1 && ProtocolOffset([LF], Position(0, 1)) == 0
  {
    var src := [LF];
    assert PositionOf(src, 0) == Position(0, 0) && PositionOf(src, 1) == Position(1, 0);
    assert IsLineEnd(src, 0, 0);
    LineEndIsLast(src, 0, 0, LineEnd(src, 0));
    BehindTheLine(src, Position(0, 1));
  }

  // ---------------------------------------------------------------- columns in UTF-16 code units

  /** A code point takes one UTF-16 code unit, or two from 10000 on. */
  function Units(cp: int): nat { if cp < 0x10000 then 1 else 2 }

  /** The offset behind `n` code points, and its position in UTF-16 code units. */
  function CodePoints(src: Source, n: nat): (c: Cursor)
    ensures c.at <= |src|
  {
    if n == 0 then START
    else
      var c := CodePoints(src, n - 1);
      var d := DecodePeek(src[c.at..]);
      if c.at == |src| then c
      else if d.cp == LF || (d.cp == CR && ByteAt(src, c.at + 1) != LF)
      then Cursor(c.at + d.len, Position(c.pos.line + 1, 0))
      else Cursor(c.at + d.len, Position(c.pos.line, c.pos.character + Units(d.cp)))
  }

  ghost predicate LongAt(src: Source, at: nat) { at <= |src| && DecodePeek(src[at..]).len > 1 }

  /** A multi-byte character stands in front of character `n` on its line. */
  ghost predicate LongInLine(src: Source, n: nat) {
    exists m: nat :: m < n && CodePoints(src, m).pos.line == CodePoints(src, n).pos.line
                     && LongAt(src, CodePoints(src, m).at)
  }

  /** The position of character `n` in UTF-16 code units leads to its offset. */
  ghost predicate Utf16Found(src: Source, n: nat) {
    OffsetOf(src, CodePoints(src, n).pos) == CodePoints(src, n).at
  }

  /** A code point of one byte is that byte, or the replacement character. */
  lemma SingleByteStep(s: seq<Byte>)
    requires s != [] && DecodePeek(s).len == 1
    ensures var d := DecodePeek(s); Units(d.cp) == 1 && if s[0] < 0x80 then d.cp == s[0] else d.cp == REPLACEMENT
  {
  }

  lemma LongUnits(s: seq<Byte>)
    requires DecodePeek(s).len > 1
    ensures var d := DecodePeek(s); Units(d.cp) < d.len && d.cp != LF && d.cp != CR
  {
    LongStep(s);
    hide DecodePeek;
  }

  /** The bytes of a long code point are no line endings. */
  lemma LongBytes(src: Source, p: nat, len: nat)
    requires p < |src| && len > 1 && DecodePeek(src[p..]).len == len
    ensures p + len <= |src| && forall k :: p <= k < p + len ==> src[k] != LF && src[k] != CR
  {
    var s := src[p..];
    LongStep(s);
    hide DecodePeek;
    var e := Encode(DecodePeek(s).cp);
    assert forall k :: 0 <= k < len ==> s[..len][k] == s[k] == src[p + k] && e[k] >= 0x80;
    assert forall k :: p <= k < p + len ==> src[k] == s[k - p];
  }

  /** A code point ends its line, or takes as many columns as bytes, which are more than its code units
      unless it is a single byte. */
  lemma NextPosition(src: Source, at: nat, d: Decoded)
    requires at < |src| && d == DecodePeek(src[at..])
    ensures at < at + d.len <= |src|
    ensures var p, q := PositionOf(src, at), PositionOf(src, at + d.len);
            if d.cp == LF || (d.cp == CR && ByteAt(src, at + 1) != LF) then q == Position(p.line + 1, 0)
            else q == Position(p.line, p.character + d.len) && Units(d.cp) <= d.len
                 && (Units(d.cp) < d.len <==> d.len > 1)
  {
    assert src[at..][0] == src[at];
    if d.len > 1 {
      LongUnits(src[at..]);
      LongBytes(src, at, d.len);
      ColumnGrows(src, at, at + d.len);
    } else {
      SingleByteStep(src[at..]);
    }
    hide DecodePeek, Units;
  }

  lemma NextCodePoint(src: Source, n: nat)
    ensures var c := CodePoints(src, n);
            var d := DecodePeek(src[c.at..]);
            CodePoints(src, n + 1)
            == if c.at == |src| then c
               else if d.cp == LF || (d.cp == CR && ByteAt(src, c.at + 1) != LF)
               then Cursor(c.at + d.len, Position(c.pos.line + 1, 0))
               else Cursor(c.at + d.len, Position(c.pos.line, c.pos.character + Units(d.cp)))
  {
    hide DecodePeek, Units;
  }

  lemma {:induction false} LinesGrow(src: Source, m: nat, n: nat)
    requires m <= n
    ensures CodePoints(src, m).pos.line <= CodePoints(src, n).pos.line
    decreases n
  {
    hide *;
    if m == n {
    } else {
      LinesGrow(src, m, n - 1);
      NextCodePoint(src, n - 1);
    }
  }

  lemma LongInLineStep(src: Source, n: nat)
    ensures LongInLine(src, n + 1)
            <==> CodePoints(src, n + 1).pos.line == CodePoints(src, n).pos.line
                 && (LongInLine(src, n) || LongAt(src, CodePoints(src, n).at))
  {
    hide CodePoints, LongAt;
    if LongInLine(src, n + 1) {
      var m: nat :| m < n + 1 && CodePoints(src, m).pos.line == CodePoints(src, n + 1).pos.line
                    && LongAt(src, CodePoints(src, m).at);
      LinesGrow(src, m, n);
      LinesGrow(src, n, n + 1);
    }
  }

  lemma LongLength(src: Source, at: nat)
    requires at <= |src|
    ensures LongAt(src, at) <==> at < |src| && DecodePeek(src[at..]).len > 1
  {
  }

  /** The line is right, and the column counts no more than the bytes, and less exactly behind a
      multi-byte character. */
  ghost predicate Utf16Counts(src: Source, n: nat) {
    var c, p := CodePoints(src, n).pos, PositionOf(src, CodePoints(src, n).at);
    c.line == p.line && c.character <= p.character && (c.character < p.character <==> LongInLine(src, n))
  }

  lemma Utf16Step(src: Source, n: nat, d: Decoded)
    requires Utf16Counts(src, n) && CodePoints(src, n).at < |src| && d == DecodePeek(src[CodePoints(src, n).at..])
    ensures Utf16Counts(src, n + 1)
  {
    hide CodePoints, PositionOf, LongInLine, DecodePeek, Units, LongAt;
    var c := CodePoints(src, n);
    LongInLineStep(src, n);
    LongLength(src, c.at);
    NextCodePoint(src, n);
    NextPosition(src, c.at, d);
  }

  lemma Utf16Start(src: Source)
    ensures Utf16Counts(src, 0)
  {
    hide DecodePeek, LongAt;
    assert CodePoints(src, 0) == START && PositionOf(src, 0) == Position(0, 0);
  }

  lemma Utf16End(src: Source, n: nat)
    requires Utf16Counts(src, n) && CodePoints(src, n).at == |src|
    ensures Utf16Counts(src, n + 1)
  {
    hide CodePoints, PositionOf, LongInLine, DecodePeek, LongAt;
    LongInLineStep(src, n);
    LongLength(src, |src|);
    NextCodePoint(src, n);
  }

  lemma {:induction false} Utf16Column(src: Source, n: nat)
    ensures Utf16Counts(src, n)
  {
    hide *;
    if n == 0 {
      Utf16Start(src);
    } else {
      Utf16Column(src, n - 1);
      var c := CodePoints(src, n - 1);
      if c.at < |src| {
        Utf16Step(src, n - 1, DecodePeek(src[c.at..]));
      } else {
        Utf16End(src, n - 1);
      }
    }
  }

  /** The columns before the one of `at` stand before it. */
  lemma {:induction false} ColumnsBefore(src: Source, at: nat, j: nat)
    requires at <= |src| && j <= PositionOf(src, at).character
    ensures j <= at
    ensures PositionOf(src, at - j) == Position(PositionOf(src, at).line, PositionOf(src, at).character - j)
    ensures j > 0 ==> Nameable(src, at - j)
  {
    if j == 0 {
    } else {
      ColumnsBefore(src, at, j - 1);
    }
  }

  /** A position in UTF-16 code units, the default of the protocol, leads to the right offset, exactly if
      that is not inside a CRLF and no multi-byte character stands between it and the start of its line. */
  lemma Utf16PositionTheorem(src: Source, n: nat)
    ensures Utf16Found(src, n) <==> Nameable(src, CodePoints(src, n).at) && !LongInLine(src, n)
  {
    var c := CodePoints(src, n);
    assert InsideCrlf(src, c.at) ==> c.at < |src|;
    hide CodePoints, LongInLine, InsideCrlf;
    Utf16Column(src, n);
    var p := PositionOf(src, c.at);
    if LongInLine(src, n) {
      var j := p.character - c.pos.character;
      ColumnsBefore(src, c.at, j);
      OffsetInverts(src, c.at - j);
    } else {
      NamedOffset(src, c.at);
    }
  }

  /** Every character outside a CRLF is found. */
  ghost predicate Utf16Agrees(src: Source) {
    forall n: nat :: Nameable(src, CodePoints(src, n).at) ==> Utf16Found(src, n)
  }

  /** The characters before the first long one are single bytes. */
  lemma {:induction false} SingleCodePoints(src: Source, n: nat)
    requires n <= |src| && forall k :: 0 <= k < n ==> !LongAt(src, k)
    ensures CodePoints(src, n).at == n
  {
    if n == 0 {
    } else {
      assert !LongAt(src, n - 1);
      hide *;
      SingleCodePoints(src, n - 1);
      NextCodePoint(src, n - 1);
      LongLength(src, n - 1);
      NextPosition(src, n - 1, DecodePeek(src[n-1..]));
    }
  }

  /** The character behind the first long one is not found. */
  lemma FirstLongCodePoint(src: Source, p: nat)
    requires p < |src| && LongAt(src, p) && forall k :: 0 <= k < p ==> !LongAt(src, k)
    ensures !Utf16Agrees(src)
  {
    hide DecodePeek, CodePoints, Units, PositionOf, LongInLine, Utf16Found, LongAt;
    var d := DecodePeek(src[p..]);
    LongLength(src, p);
    SingleCodePoints(src, p);
    LongUnits(src[p..]);
    LongBytes(src, p, d.len);
    NextCodePoint(src, p);
    LongInLineStep(src, p);
    assert Nameable(src, p + d.len);
    Utf16PositionTheorem(src, p + 1);
  }

  /** All characters of a text are found, exactly if the text has no multi-byte character. */
  lemma Utf16Theorem(src: Source)
    ensures Utf16Agrees(src) <==> SingleBytes(src)
  {
    hide DecodePeek, CodePoints;
    if SingleBytes(src) {
      forall at: nat ensures !LongAt(src, at) {
        if at < |src| {
          assert CodePointAt(src, CursorAt(src, at)).len == 1;
        } else if at == |src| {
          LongLength(src, at);
        }
      }
      forall n: nat | Nameable(src, CodePoints(src, n).at) ensures Utf16Found(src, n) {
        Utf16PositionTheorem(src, n);
      }
    } else {
      var k :| 0 <= k < |src| && CodePointAt(src, CursorAt(src, k)).len != 1;
      assert LongAt(src, k);
      var p := FirstLong(src, 0);
      FirstLongCodePoint(src, p);
    }
  }

  lemma {:induction false} FirstLong(src: Source, from: nat) returns (p: nat)
    requires forall k :: 0 <= k < from ==> !LongAt(src, k)
    requires exists k :: from <= k < |src| && LongAt(src, k)
    ensures p < |src| && LongAt(src, p) && forall k :: 0 <= k < p ==> !LongAt(src, k)
    decreases |src| - from
  {
    if LongAt(src, from) {
      p := from;
    } else {
      p := FirstLong(src, from + 1);
    }
  }

  // ---------------------------------------------------------------- changes of the whole document

  /** The changes as the protocol defines them: each to the result of the last, and a whole text replaces
      whatever there was. */
  ghost function ProtocolFold(src: Source, changes: seq<Change>): Source
    decreases |changes|
  {
    if changes == [] then src
    else
      var c := changes[0];
      ProtocolFold(if c.Ranged? then Applied(src, c.start, c.end, c.text) else c.text, changes[1..])
  }

  /** What `onChangedContents` leaves. */
  ghost function ServerFold(src: Source, changes: seq<Change>): Source {
    if |changes| == 1 && changes[0].Whole? then changes[0].text else Fold(src, changes)
  }

  /** Which of the changes are changes of the whole document. */
  ghost predicate OfKinds(changes: seq<Change>, whole: seq<bool>) {
    |changes| == |whole| && forall k :: 0 <= k < |whole| ==> (changes[k].Whole? <==> whole[k])
  }

  ghost predicate HandledRight(whole: seq<bool>) {
    forall src, changes :: OfKinds(changes, whole) ==> ServerFold(src, changes) == ProtocolFold(src, changes)
  }

  lemma {:induction false} RangedAlike(src: Source, changes: seq<Change>)
    requires forall k :: 0 <= k < |changes| ==> changes[k].Ranged?
    ensures Fold(src, changes) == ProtocolFold(src, changes)
    decreases |changes|
  {
    if changes == [] {
    } else {
      var c := changes[0];
      RangedAlike(Applied(src, c.start, c.end, c.text), changes[1..]);
    }
  }

  /** A whole text `x`, or a change that replaces nothing by nothing. */
  function Sample(whole: bool, x: Source): Change {
    if whole then Whole(x) else Ranged(Position(0, 0), Position(0, 0), [])
  }

  lemma NoChange(src: Source)
    ensures Applied(src, Position(0, 0), Position(0, 0), []) == src
  {
    OffsetInverts(src, 0);
    assert Splice(src, 0, 0, []) == src;
  }

  lemma {:induction false} SampleFolds(src: Source, whole: seq<bool>, x: Source, changes: seq<Change>)
    requires changes == seq(|whole|, k requires 0 <= k < |whole| => Sample(whole[k], x))
    ensures Fold(src, changes) == src
    ensures ProtocolFold(src, changes) == if true in whole then x else src
    decreases |whole|
  {
    if whole == [] {
    } else {
      NoChange(src);
      assert changes[1..] == seq(|whole| - 1, k requires 0 <= k < |whole| - 1 => Sample(whole[1..][k], x));
      assert whole == [whole[0]] + whole[1..];
      SampleFolds(src, whole[1..], x, changes[1..]);
      SampleFolds(x, whole[1..], x, changes[1..]);
    }
  }

  /** Every text and all changes of the given kinds are handled as the protocol says, exactly if there is
      at most one change or none of the whole document. */
  lemma WholeChangesTheorem(whole: seq<bool>)
    ensures HandledRight(whole) <==> |whole| <= 1 || true !in whole
  {
    if |whole| <= 1 || true !in whole {
      forall src: Source, changes: seq<Change> | OfKinds(changes, whole)
        ensures ServerFold(src, changes) == ProtocolFold(src, changes)
      {
        if |changes| == 1 && changes[0].Whole? {
          assert ProtocolFold(changes[0].text, changes[1..]) == changes[0].text;
        } else {
          forall k | 0 <= k < |changes| ensures changes[k].Ranged? {
            assert whole[k] in whole;
          }
          RangedAlike(src, changes);
        }
      }
    } else {
      var changes := seq(|whole|, k requires 0 <= k < |whole| => Sample(whole[k], [LF]));
      SampleFolds([], whole, [LF], changes);
      assert OfKinds(changes, whole);
      assert ServerFold([], changes) != ProtocolFold([], changes);
    }
  }
}
