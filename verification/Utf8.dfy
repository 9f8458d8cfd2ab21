/** The UTF-8 decoder of the source provider, against the encoder of RFC 3629, section 3. */
module Utf8 {

  type Byte = b: int | 0 <= b < 256

  const REPLACEMENT := 0xFFFD

  /** A Unicode scalar value: a code point that is not a surrogate. */
  predicate Scalar(v: int) {
    0 <= v < 0xD800 || 0xE000 <= v <= 0x10FFFF
  }

  type ScalarValue = v: int | 0 <= v < 0xD800 || 0xE000 <= v <= 0x10FFFF

  /** The byte sequence RFC 3629 assigns to a scalar value. */
  function Encode(v: ScalarValue): (r: seq<Byte>)
    ensures 1 <= |r| <= 4
  {
    if v < 0x80 then [v]
    else if v < 0x800 then [0xC0 + v / 64, 0x80 + v % 64]
    else if v < 0x10000 then [0xE0 + v / 4096, 0x80 + v / 64 % 64, 0x80 + v % 64]
    else [0xF0 + v / 262144, 0x80 + v / 4096 % 64, 0x80 + v / 64 % 64, 0x80 + v % 64]
  }

  function EncodeAll(vs: seq<ScalarValue>): seq<Byte> {
    if vs == [] then [] else Encode(vs[0]) + EncodeAll(vs[1..])
  }

  // ---------------------------------------------------------------- the decoder

  datatype Decoded = Decoded(cp: int, len: nat)

  predicate Continuation(b: Byte) { b / 64 == 2 }

  function Trail(b: Byte): int { b % 64 }

  /** `utf8_decode_peek` on the bytes from the cursor to the end.  A mask of leading bits is written as a
      quotient and a mask of trailing bits as a remainder; `MasksAreQuotients` relates the two. */
  function DecodePeek(s: seq<Byte>): (d: Decoded)
    ensures d.len <= |s| && d.len <= 4 && (d.len == 0 <==> s == [])
  {
    if s == [] then Decoded(0, 0)
    else
      var b0: int := s[0];
      if b0 < 0x80 then Decoded(b0, 1)
      else if b0 / 32 == 6 then
        if |s| >= 2 && Continuation(s[1]) && b0 >= 0xC2
        then Decoded(b0 % 32 * 64 + Trail(s[1]), 2)
        else Decoded(REPLACEMENT, 1)
      else if b0 / 16 == 14 then
        if |s| >= 3 && Continuation(s[1]) && Continuation(s[2])
           && (b0 != 0xE0 || s[1] >= 0xA0) && (b0 != 0xED || s[1] <= 0x9F)
        then Decoded(b0 % 16 * 4096 + Trail(s[1]) * 64 + Trail(s[2]), 3)
        else Decoded(REPLACEMENT, 1)
      else if b0 / 8 == 30 then
        if |s| >= 4 && Continuation(s[1]) && Continuation(s[2]) && Continuation(s[3])
           && (b0 != 0xF0 || s[1] >= 0x90) && (b0 != 0xF4 || s[1] <= 0x8F) && b0 <= 0xF4
        then Decoded(b0 % 8 * 262144 + Trail(s[1]) * 4096 + Trail(s[2]) * 64 + Trail(s[3]), 4)
        else Decoded(REPLACEMENT, 1)
      else Decoded(REPLACEMENT, 1)
  }

  lemma MasksAreQuotients(b: bv8)
    ensures b & 0xC0 == 0x80 <==> b / 64 == 2
    ensures b & 0xE0 == 0xC0 <==> b / 32 == 6
    ensures b & 0xF0 == 0xE0 <==> b / 16 == 14
    ensures b & 0xF8 == 0xF0 <==> b / 8 == 30
    ensures b & 0x07 == b % 8 && b & 0x0F == b % 16 && b & 0x1F == b % 32 && b & 0x3F == b % 64
  {
  }

  // Base-64 digits of a number.
  lemma SixBitDigits(a: nat, b: nat, c: nat)
    requires b < 64 && c < 64
    ensures (a * 64 + b) / 64 == a && (a * 64 + b) % 64 == b
    ensures (a * 4096 + b * 64 + c) / 4096 == a
    ensures (a * 4096 + b * 64 + c) / 64 == a * 64 + b && (a * 4096 + b * 64 + c) % 64 == c
  {
  }

  lemma Recompose(v: nat)
    ensures v / 4096 == v / 64 / 64 && v / 262144 == v / 64 / 64 / 64
    ensures v / 262144 * 262144 + v / 4096 % 64 * 4096 + v / 64 % 64 * 64 + v % 64 == v
  {
  }

  lemma DecodeEncode2(v: ScalarValue, s: seq<Byte>)
    requires 0x80 <= v < 0x800 && Encode(v) <= s
    ensures DecodePeek(s) == Decoded(v, 2)
  {
    assert s[0] == Encode(v)[0] && s[1] == Encode(v)[1];
  }

  lemma DecodeEncode3(v: ScalarValue, s: seq<Byte>)
    requires 0x800 <= v < 0x10000 && Encode(v) <= s
    ensures DecodePeek(s) == Decoded(v, 3)
  {
    var e := Encode(v);
    assert s[0] == e[0] && s[1] == e[1] && s[2] == e[2];
  }

  lemma DecodeEncode4(v: ScalarValue, s: seq<Byte>)
    requires 0x10000 <= v && Encode(v) <= s
    ensures DecodePeek(s) == Decoded(v, 4)
  {
    var e := Encode(v);
    assert s[0] == e[0] && s[1] == e[1] && s[2] == e[2] && s[3] == e[3];
    assert 0 < v / 262144 <= 4 ==> s[0] % 8 == v / 262144;
    Recompose(v);
  }

  /** Decoding inverts encoding, whatever follows. */
  lemma DecodeEncode(v: ScalarValue, s: seq<Byte>)
    requires Encode(v) <= s
    ensures DecodePeek(s) == Decoded(v, |Encode(v)|)
  {
    if v < 0x80 {
      assert s[0] == Encode(v)[0];
    } else if v < 0x800 {
      DecodeEncode2(v, s);
    } else if v < 0x10000 {
      DecodeEncode3(v, s);
    } else {
      DecodeEncode4(v, s);
    }
  }

  lemma LongStep2(s: seq<Byte>)
    requires s != [] && DecodePeek(s).len == 2
    ensures var d := DecodePeek(s); Scalar(d.cp) && 2 <= |s| && s[..2] == Encode(d.cp)
  {
    SixBitDigits(s[0] % 32, Trail(s[1]), 0);
  }

  lemma LongStep3(s: seq<Byte>)
    requires s != [] && DecodePeek(s).len == 3
    ensures var d := DecodePeek(s); Scalar(d.cp) && 3 <= |s| && s[..3] == Encode(d.cp)
  {
    SixBitDigits(s[0] % 16, Trail(s[1]), Trail(s[2]));
    SixBitDigits(s[0] % 16, Trail(s[1]), 0);
  }

  lemma LongStep4(s: seq<Byte>)
    requires s != [] && DecodePeek(s).len == 4
    ensures var d := DecodePeek(s); Scalar(d.cp) && 4 <= |s| && s[..4] == Encode(d.cp)
  {
    SixBitDigits(s[0] % 8 * 64 + Trail(s[1]), Trail(s[2]), Trail(s[3]));
    SixBitDigits(s[0] % 8, Trail(s[1]), Trail(s[2]));
    SixBitDigits(s[0] % 8, Trail(s[1]), 0);
  }

  /** A step longer than one byte has read the one encoding of its result. */
  lemma LongStep(s: seq<Byte>)
    requires DecodePeek(s).len > 1
    ensures var d := DecodePeek(s);
            Scalar(d.cp) && s[..d.len] == Encode(d.cp) && s[0] >= 0xC0 && s[d.len - 1] >= 0x80
  {
    if DecodePeek(s).len == 2 {
      LongStep2(s);
    } else if DecodePeek(s).len == 3 {
      LongStep3(s);
    } else {
      LongStep4(s);
    }
  }

  /** Every step stays within the bytes and yields a scalar value: the one whose encoding the bytes
      start with, or the replacement of one byte when they start with no encoding. */
  lemma DecodeStep(s: seq<Byte>)
    requires s != []
    ensures var d := DecodePeek(s);
            && (0 <= d.cp < 0xD800 || 0xE000 <= d.cp <= 0x10FFFF)
            && (if exists v: ScalarValue :: Encode(v) <= s then Encode(d.cp) == s[..d.len]
                else d == Decoded(0xFFFD, 1))
  {
    var d := DecodePeek(s);
    assert s[0] < 0x80 ==> Encode(s[0]) <= s;
    if v: ScalarValue :| Encode(v) <= s {
      DecodeEncode(v, s);
    } else if d.len > 1 {
      LongStep(s);
    }
  }

  // ---------------------------------------------------------------- the grammar of well-formed bytes

  ghost predicate TailFrom(s: seq<Byte>, i: nat, n: nat) {
    i + n <= |s| && forall k :: i <= k < i + n ==> 0x80 <= s[k] <= 0xBF
  }

  /** `UTF8-2`, `UTF8-3` and `UTF8-4` of RFC 3629, section 4. */
  ghost predicate TwoBytes(s: seq<Byte>) { TailFrom(s, 1, 1) && 0xC2 <= s[0] <= 0xDF }

  ghost predicate ThreeBytes(s: seq<Byte>) {
    && TailFrom(s, 1, 2)
    && ((s[0] == 0xE0 && s[1] >= 0xA0) || 0xE1 <= s[0] <= 0xEC || (s[0] == 0xED && s[1] <= 0x9F)
        || 0xEE <= s[0] <= 0xEF)
  }

  ghost predicate FourBytes(s: seq<Byte>) {
    && TailFrom(s, 1, 3)
    && ((s[0] == 0xF0 && s[1] >= 0x90) || 0xF1 <= s[0] <= 0xF3 || (s[0] == 0xF4 && s[1] <= 0x8F))
  }

  /** A step reads exactly the sequences of that grammar, and their bits: six of every tail byte, below
      those that the first byte has over the least first byte of its length. */
  lemma GrammarStep(s: seq<Byte>)
    requires s != []
    ensures var b: seq<int> := s;
            DecodePeek(s)
            == if b[0] <= 0x7F then Decoded(b[0], 1)
               else if TwoBytes(s) then Decoded((b[0] - 0xC0) * 0x40 + b[1] - 0x80, 2)
               else if ThreeBytes(s) then
                 Decoded((b[0] - 0xE0) * 0x1000 + (b[1] - 0x80) * 0x40 + b[2] - 0x80, 3)
               else if FourBytes(s) then
                 Decoded((b[0] - 0xF0) * 0x40000 + (b[1] - 0x80) * 0x1000 + (b[2] - 0x80) * 0x40 + b[3] - 0x80, 4)
               else Decoded(0xFFFD, 1)
  {
    if |s| >= 2 { ContinuationIs(s[1]); }
    if |s| >= 3 { ContinuationIs(s[2]); }
    if |s| >= 4 { ContinuationIs(s[3]); }
    hide Continuation, Trail;
  }

  lemma ContinuationIs(b: Byte)
    ensures Continuation(b) <==> 0x80 <= b <= 0xBF
    ensures Continuation(b) ==> Trail(b) == b - 0x80
  {
  }

  // ---------------------------------------------------------------- whole texts

  /** Code points read by `readCodePoint` until the end. */
  function DecodeAll(s: seq<Byte>): seq<int>
    decreases |s|
  {
    if s == [] then []
    else
      var d := DecodePeek(s);
      [d.cp] + DecodeAll(s[d.len..])
  }

  /** A step at the start of `a` is the same whether `a` ends there or an encoded text follows: no
      encoding starts with a continuation byte. */
  lemma StepBeforeEncoded(a: seq<Byte>, e: seq<Byte>)
    requires a != [] && (e == [] || !Continuation(e[0]))
    ensures DecodePeek(a + e) == DecodePeek(a)
  {
    var s := a + e;
    assert s[0] == a[0];
    assert forall k :: 0 <= k < |a| ==> s[k] == a[k];
    if e != [] { assert s[|a|] == e[0]; }
  }

  lemma {:induction false} EncodedStart(vs: seq<ScalarValue>)
    ensures EncodeAll(vs) == [] || !Continuation(EncodeAll(vs)[0])
  {
    if vs == [] {
    } else {
      assert EncodeAll(vs)[0] == Encode(vs[0])[0];
    }
  }

  lemma {:induction false} DecodeEncodeAll(vs: seq<ScalarValue>)
    ensures DecodeAll(EncodeAll(vs)) == vs
    decreases |vs|
  {
    if vs == [] {
    } else {
      var e, rest := Encode(vs[0]), EncodeAll(vs[1..]);
      DecodeEncode(vs[0], e + rest);
      assert (e + rest)[|e|..] == rest;
      DecodeEncodeAll(vs[1..]);
    }
  }

  lemma DecodeAllStep(s: seq<Byte>, d: Decoded)
    requires s != [] && DecodePeek(s) == d
    ensures DecodeAll(s) == [d.cp] + DecodeAll(s[d.len..])
  {
  }

  /** Decoding is self-synchronising: garbage in front of an encoded text costs nothing of the text. */
  lemma {:induction false} SelfSynchronising(a: seq<Byte>, vs: seq<ScalarValue>)
    ensures DecodeAll(a + EncodeAll(vs)) == DecodeAll(a) + vs
    decreases |a|
  {
    if a == [] {
      assert a + EncodeAll(vs) == EncodeAll(vs);
      DecodeEncodeAll(vs);
    } else {
      var d := DecodePeek(a);
      DecodeStep(a);
      EncodedStart(vs);
      StepBeforeEncoded(a, EncodeAll(vs));
      SelfSynchronising(a[d.len..], vs);
      PrependStep(a, EncodeAll(vs), vs, d);
    }
  }

  lemma PrependStep(a: seq<Byte>, e: seq<Byte>, vs: seq<int>, d: Decoded)
    requires a != [] && DecodePeek(a) == d && DecodePeek(a + e) == d
    requires DecodeAll(a[d.len..] + e) == DecodeAll(a[d.len..]) + vs
    ensures DecodeAll(a + e) == DecodeAll(a) + vs
  {
    hide DecodeAll, DecodePeek;
    assert (a + e)[d.len..] == a[d.len..] + e;
    DecodeAllStep(a, d);
    DecodeAllStep(a + e, d);
  }

  /** Every code point read from any bytes is a scalar value. */
  lemma {:induction false} DecodedScalars(s: seq<Byte>)
    ensures forall k :: 0 <= k < |DecodeAll(s)| ==>
              0 <= DecodeAll(s)[k] < 0xD800 || 0xE000 <= DecodeAll(s)[k] <= 0x10FFFF
    decreases |s|
  {
    if s == [] {
    } else {
      DecodeStep(s);
      DecodedScalars(s[DecodePeek(s).len..]);
    }
  }
}
