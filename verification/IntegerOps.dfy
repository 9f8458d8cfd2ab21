/** Integer promotion and casts in code generation, over bit vectors of any width. */
module IntegerOps {

  function Pow2(n: nat): (r: nat)
    ensures r > 0
  {
    if n == 0 then 1 else 2 * Pow2(n - 1)
  }

  lemma {:induction false} Pow2Grows(m: nat, n: nat)
    requires m < n
    ensures 2 * Pow2(m) <= Pow2(n)
  {
    if m == n - 1 {
    } else {
      Pow2Grows(m, n - 1);
    }
  }

  lemma {:induction false} Pow2Divides(m: nat, n: nat) returns (q: nat)
    requires m <= n
    ensures Pow2(n) == q * Pow2(m) && q > 0
  {
    if m == n {
      q := 1;
    } else {
      var p := Pow2Divides(m, n - 1);
      q := 2 * p;
    }
  }

  lemma ModShift(x: int, q: int, m: nat)
    requires m > 0
    ensures (x + q * m) % m == x % m
  {
    var d := (x + q * m) / m - x / m;
    var e := (x + q * m) % m - x % m;
    assert e == (q - d) * m;
    MultipleBounds(q - d, m);
  }

  lemma MultipleBounds(k: int, m: nat)
    ensures k >= 1 ==> k * m >= m
    ensures k <= -1 ==> k * m <= 0 - m
  {
    if k >= 1 {
      assert k * m == m + (k - 1) * m;
    } else if k <= -1 {
      assert k * m == (k + 1) * m - m;
    }
  }

  // ---------------------------------------------------------------- integers of a width

  /** An integer of the generated code: `bits` read as an unsigned number. */
  datatype Word = Word(width: nat, bits: nat) {
    ghost predicate Valid() { width > 0 && bits < Pow2(width) }

    function Negative(): bool
      requires width > 0
    { bits >= Pow2(width - 1) }

    /** The two's complement value. */
    function Signed(): int
      requires width > 0
    { if Negative() then bits - Pow2(width) else bits }

    /** The number an instruction takes the word for. */
    function Read(isUnsigned: bool): int
      requires width > 0
    { if isUnsigned then bits else Signed() }

    function ZExt(to: nat): Word
      requires width < to
    { Word(to, bits) }

    /** The sign bit repeated. */
    function SExt(to: nat): Word
      requires 0 < width < to
    {
      Pow2Grows(width, to);
      Word(to, if Negative() then bits + Pow2(to) - Pow2(width) else bits)
    }

    function Trunc(to: nat): Word
    { Word(to, bits % Pow2(to)) }
  }

  lemma SExtSigned(w: Word, to: nat)
    requires w.Valid() && w.width < to
    ensures w.SExt(to).Valid() && w.SExt(to).Signed() == w.Signed()
  {
    Pow2Grows(w.width, to);
    assert Pow2(w.width) == 2 * Pow2(w.width - 1) && Pow2(to) == 2 * Pow2(to - 1);
  }

  lemma ZExtSigned(w: Word, to: nat)
    requires w.Valid() && w.width < to
    ensures w.ZExt(to).Valid() && w.ZExt(to).Signed() == w.bits
  {
    Pow2Grows(w.width, to);
    assert Pow2(to) == 2 * Pow2(to - 1);
  }

  // ---------------------------------------------------------------- implicit casts

  /** `implicit_cast_constant` to an integer type of width `to`. */
  function CastConstant(w: Word, to: nat, toUnsigned: bool): Word
    requires w.width > 0 && to > 0
  {
    if w.width == to then w
    else if w.width < to then
      if toUnsigned && !w.Negative() then w.ZExt(to) else w.SExt(to)
    else w.Trunc(to)
  }

  /** `implicit_cast` of a value computed at run time. */
  function CastRuntime(w: Word, to: nat, toUnsigned: bool): Word
    requires w.width > 0 && to > 0
  {
    if w.width < to then
      if toUnsigned then w.ZExt(to) else w.SExt(to)
    else if w.width > to then w.Trunc(to)
    else w
  }

  /** Widening a constant preserves its signed value; narrowing it is reduction modulo the target. */
  lemma CastConstantValue(w: Word, to: nat, toUnsigned: bool)
    requires w.Valid() && to > 0
    ensures var r := CastConstant(w, to, toUnsigned);
            && r.Valid() && r.width == to
            && (w.width <= to ==> r.Signed() == w.Signed())
            && (w.width >= to ==> r.bits == w.bits % Pow2(to) == w.Signed() % Pow2(to))
  {
    if w.width < to {
      SExtSigned(w, to);
      ZExtSigned(w, to);
    } else {
      SignedResidue(w, to);
      SmallMod(w.bits, Pow2(w.width));
      ModBound(w.bits, Pow2(to));
    }
  }

  /** Widening a run-time value preserves its number as the target type has it, for an unsigned target the
      unsigned one; narrowing it is reduction modulo the target. */
  lemma CastRuntimeValue(w: Word, to: nat, toUnsigned: bool)
    requires w.Valid() && to > 0
    ensures var r := CastRuntime(w, to, toUnsigned);
            && r.Valid() && r.width == to
            && (w.width <= to ==> if toUnsigned then r.bits == w.bits else r.Signed() == w.Signed())
            && (w.width >= to ==> r.bits == w.bits % Pow2(to))
  {
    if w.width < to {
      SExtSigned(w, to);
      ZExtSigned(w, to);
    } else {
      SmallMod(w.bits, Pow2(w.width));
      ModBound(w.bits, Pow2(to));
    }
  }

  lemma SmallMod(x: nat, m: nat)
    requires x < m
    ensures x % m == x
  {
  }

  lemma ModBound(x: int, m: nat)
    requires m > 0
    ensures 0 <= x % m < m
  {
  }

  /** The signed value and the bits agree modulo every narrower power of two. */
  lemma SignedResidue(w: Word, to: nat)
    requires w.Valid() && to <= w.width
    ensures w.Signed() % Pow2(to) == w.bits % Pow2(to)
  {
    var q := Pow2Divides(to, w.width);
    if w.Negative() {
      ModShift(w.Signed(), q, Pow2(to));
    }
  }

  /** The two casts agree on every value but a negative one widened to an unsigned type. */
  lemma CastsAgree(w: Word, to: nat, toUnsigned: bool)
    requires w.Valid() && to > 0
    ensures CastConstant(w, to, toUnsigned) == CastRuntime(w, to, toUnsigned)
            <==> !(w.width < to && toUnsigned && w.Negative())
  {
    if w.width < to {
      Pow2Grows(w.width, to);
    }
  }

  lemma ExtendTruncate(w: Word, to: nat)
    requires w.Valid() && w.width < to
    ensures w.ZExt(to).Trunc(w.width) == w && w.SExt(to).Trunc(w.width) == w
  {
    var m := Pow2(w.width);
    var q := Pow2Divides(w.width, to);
    SmallMod(w.bits, m);
    ModShift(w.bits, q - 1, m);
    assert (q - 1) * m == Pow2(to) - m;
  }

  /** Widening and then narrowing back gives every word back, by either cast and in either mixture. */
  lemma WidenNarrow(w: Word, to: nat, toUnsigned: bool, backUnsigned: bool)
    requires w.Valid() && w.width < to
    ensures CastConstant(CastConstant(w, to, toUnsigned), w.width, backUnsigned) == w
    ensures CastRuntime(CastRuntime(w, to, toUnsigned), w.width, backUnsigned) == w
    ensures CastRuntime(CastConstant(w, to, toUnsigned), w.width, backUnsigned) == w
  {
    ExtendTruncate(w, to);
  }

  // ---------------------------------------------------------------- operands and their promotion

  /** The type of an operand: an integer type, or an enumeration with its underlying integer type. */
  datatype IntType = IntType(width: nat, unsigned: bool, isEnum: bool)

  datatype Operand = Operand(ty: IntType, word: Word) {
    ghost predicate Valid() { word.Valid() && word.width == ty.width }

    /** The number the operand stands for. */
    function Value(): int
      requires word.width > 0
    { if ty.unsigned then word.bits else word.Signed() }
  }

  function Extend(w: Word, unsigned: bool, to: nat): Word
    requires 0 < w.width < to
  {
    if unsigned then w.ZExt(to) else w.SExt(to)
  }

  /** The narrower operand is extended to the width of the other, by the signedness of its own type. */
  method PerformImplicitCast(fUnsigned: bool, secUnsigned: bool, first: Word, second: Word)
    returns (lhs: Word, rhs: Word)
    requires first.width > 0 && second.width > 0
    ensures lhs == Promoted(first, fUnsigned, second.width) && rhs == Promoted(second, secUnsigned, first.width)
  {
    lhs, rhs := first, second;
    if lhs.width < rhs.width {
      if fUnsigned {
        lhs := lhs.ZExt(rhs.width);
      } else {
        lhs := lhs.SExt(rhs.width);
      }
    } else if lhs.width > rhs.width {
      if secUnsigned {
        rhs := rhs.ZExt(lhs.width);
      } else {
        rhs := rhs.SExt(lhs.width);
      }
    }
  }

  function Promoted(w: Word, unsigned: bool, other: nat): Word
    requires w.width > 0
  {
    if w.width < other then Extend(w, unsigned, other) else w
  }

  function Max(a: nat, b: nat): nat { if a < b then b else a }

  // ---------------------------------------------------------------- operations

  datatype Op = Add | Sub | Mul | Div | Rem | Shl | Shr | Gt | Ge | Lt | Le | Eq | Ne

  predicate IsComparison(op: Op) { op.Gt? || op.Ge? || op.Lt? || op.Le? || op.Eq? || op.Ne? }

  predicate IsDivision(op: Op) { op.Div? || op.Rem? }

  predicate IsShift(op: Op) { op.Shl? || op.Shr? }

  /** The generated instruction's result.  A division by zero, one whose quotient does not fit and a shift
      by the width or more have none; an instruction on words of two widths is no valid code at all. */
  datatype Outcome = Number(word: Word) | Flag(b: bool) | Undefined | IllTyped

  /** The quotient of the division instructions: rounded towards zero. */
  function TruncDiv(x: int, y: int): int
    requires y != 0
  {
    var q := Quotient(Abs(x), Abs(y));
    if (x < 0) == (y < 0) then q else 0 - q
  }

  function Quotient(n: nat, d: nat): nat
    requires d > 0
  {
    n / d
  }

  function Abs(x: int): nat { if x < 0 then -x else x }

  function TruncRem(x: int, y: int): int
    requires y != 0
  {
    x - y * TruncDiv(x, y)
  }

  /** The only quotient of two words that does not fit their width: the least number by minus one. */
  function Overflows(x: int, y: int, width: nat): bool
    requires width > 0
  {
    x + Pow2(width - 1) == 0 && y == -1
  }

  function Divide(op: Op, x: int, y: int, width: nat): (r: Outcome)
    requires IsDivision(op) && width > 0
    ensures !r.Flag? && (r.Number? ==> r.word.width == width)
  {
    if y == 0 || Overflows(x, y, width) then Undefined
    else Number(Word(width, (if op.Div? then TruncDiv(x, y) else TruncRem(x, y)) % Pow2(width)))
  }

  function Compare(op: Op, x: int, y: int): bool
    requires IsComparison(op)
  {
    match op
    case Gt => x > y
    case Ge => x >= y
    case Lt => x < y
    case Le => x <= y
    case Eq => x == y
    case Ne => x != y
  }

  function Compute(op: Op, x: int, y: int): int
    requires !IsComparison(op) && !IsDivision(op) && !IsShift(op)
  {
    match op
    case Add => x + y
    case Sub => x - y
    case Mul => x * y
  }

  /** Comparisons and divisions are unsigned as soon as one operand is of an unsigned integer type; an enumeration
      never makes them so. */
  predicate UnsignedCompare(a: IntType, b: IntType) {
    (a.unsigned && !a.isEnum) || (b.unsigned && !b.isEnum)
  }

  /** Two enumerations are not promoted, so their widths have to be the same for the code to be valid. */
  predicate Operable(a: IntType, b: IntType) {
    a.isEnum && b.isEnum ==> a.width == b.width
  }

  /** A promoted operand has the width of the wider type and the residue of its value as bits. */
  lemma PromotedResidue(a: Operand, other: nat)
    requires a.Valid()
    ensures var w := Promoted(a.word, a.ty.unsigned, other);
            && w.Valid() && w.width == Max(a.ty.width, other)
            && w.bits == a.Value() % Pow2(w.width)
            && (!a.ty.unsigned ==> w.Signed() == a.Value())
            && (a.ty.unsigned ==> w.bits == a.Value())
  {
    var w := Promoted(a.word, a.ty.unsigned, other);
    if a.ty.width < other {
      SExtSigned(a.word, other);
      ZExtSigned(a.word, other);
    }
    SignedResidue(w, w.width);
    SmallMod(w.bits, Pow2(w.width));
  }

  /** Sums, differences and products of residues are those of the values, modulo the same number. */
  lemma Residues(x: int, y: int, lhs: Word, rhs: Word)
    requires lhs.Valid() && rhs.Valid() && lhs.width == rhs.width
    requires lhs.bits == x % Pow2(lhs.width) && rhs.bits == y % Pow2(lhs.width)
    ensures (lhs.bits + rhs.bits) % Pow2(lhs.width) == (x + y) % Pow2(lhs.width)
    ensures (lhs.bits - rhs.bits) % Pow2(lhs.width) == (x - y) % Pow2(lhs.width)
    ensures lhs.bits * rhs.bits % Pow2(lhs.width) == x * y % Pow2(lhs.width)
  {
    var m := Pow2(lhs.width);
    DivMod(x, m);
    DivMod(y, m);
    SumResidue(lhs.bits, rhs.bits, x / m, y / m, m);
    ProductResidue(lhs.bits, rhs.bits, x / m, y / m, m);
  }

  lemma DivMod(x: int, m: nat)
    requires m > 0
    ensures x == x % m + x / m * m
  {
  }

  lemma SumResidue(a: int, b: int, i: int, j: int, m: nat)
    requires m > 0
    ensures (a + i * m + (b + j * m)) % m == (a + b) % m && (a + i * m - (b + j * m)) % m == (a - b) % m
  {
    ModShift(a + b, i + j, m);
    assert (i + j) * m == i * m + j * m;
    ModShift(a - b, i - j, m);
    assert (i - j) * m == i * m - j * m;
  }

  lemma ProductResidue(a: int, b: int, i: int, j: int, m: nat)
    requires m > 0
    ensures (a + i * m) * (b + j * m) % m == a * b % m
  {
    var k := a * j + i * b + i * j * m;
    assert (a + i * m) * (b + j * m) == a * b + k * m;
    ModShift(a * b, k, m);
  }

  lemma EqualWords(a: Word, b: Word)
    requires a.Valid() && b.Valid() && a.width == b.width
    ensures a.bits == b.bits <==> a.Signed() == b.Signed()
  {
  }

  method Operate(op: Op, first: Operand, second: Operand) returns (r: Outcome)
    requires first.Valid() && second.Valid()
    ensures r == Operated(op, first, second)
    ensures r.IllTyped? <==> first.ty.isEnum && second.ty.isEnum && first.ty.width != second.ty.width
  {
    var lhs, rhs := first.word, second.word;
    if !(first.ty.isEnum && second.ty.isEnum) {
      lhs, rhs := PerformImplicitCast(first.ty.unsigned, second.ty.unsigned, lhs, rhs);
    }
    if Operable(first.ty, second.ty) {
      Emit(first, second, op);
    }
    IllTypedIs(op, first, second);
    hide Operated, Pow2, Divide, Shift, Compare, Word.Read, Word.Signed, Word.Negative;
    r := Instruction(op, lhs, rhs, UnsignedCompare(first.ty, second.ty));
  }

  lemma IllTypedIs(op: Op, a: Operand, b: Operand)
    requires a.Valid() && b.Valid()
    ensures Operated(op, a, b).IllTyped? <==> a.ty.isEnum && b.ty.isEnum && a.ty.width != b.ty.width
  {
    hide Pow2, Compare, Compute, TruncDiv, TruncRem;
  }

  /** What the instruction chosen for an operation computes from two words. */
  function Instruction(op: Op, lhs: Word, rhs: Word, isUnsigned: bool): Outcome
    requires lhs.width > 0 && rhs.width > 0
  {
    if lhs.width != rhs.width then IllTyped
    else match op
    case Add => Number(Word(lhs.width, (lhs.bits + rhs.bits) % Pow2(lhs.width)))
    case Sub => Number(Word(lhs.width, (lhs.bits - rhs.bits) % Pow2(lhs.width)))
    case Mul => Number(Word(lhs.width, lhs.bits * rhs.bits % Pow2(lhs.width)))
    case Div => Divide(op, lhs.Read(isUnsigned), rhs.Read(isUnsigned), lhs.width)
    case Rem => Divide(op, lhs.Read(isUnsigned), rhs.Read(isUnsigned), lhs.width)
    case Shl => Shift(lhs.bits * Pow2(rhs.bits), rhs.bits, lhs.width)
    case Shr => Shift(lhs.Read(isUnsigned) / Pow2(rhs.bits), rhs.bits, lhs.width)
    case Gt => Flag(if isUnsigned then lhs.bits > rhs.bits else lhs.Signed() > rhs.Signed())
    case Ge => Flag(if isUnsigned then lhs.bits >= rhs.bits else lhs.Signed() >= rhs.Signed())
    case Lt => Flag(if isUnsigned then lhs.bits < rhs.bits else lhs.Signed() < rhs.Signed())
    case Le => Flag(if isUnsigned then lhs.bits <= rhs.bits else lhs.Signed() <= rhs.Signed())
    case Eq => Flag(lhs.bits == rhs.bits)
    case Ne => Flag(lhs.bits != rhs.bits)
  }

  /** A shift by `count`, whose result for every count below the width has the residue of `x`. */
  function Shift(x: int, count: nat, width: nat): Outcome {
    if count >= width then Undefined else Number(Word(width, x % Pow2(width)))
  }

  lemma Emit(a: Operand, b: Operand, op: Op)
    requires a.Valid() && b.Valid() && Operable(a.ty, b.ty)
    ensures Instruction(op, Promoted(a.word, a.ty.unsigned, b.ty.width), Promoted(b.word, b.ty.unsigned, a.ty.width),
                        UnsignedCompare(a.ty, b.ty))
            == Operated(op, a, b)
  {
    hide Pow2, Word.Signed;
    var lhs, rhs := Promoted(a.word, a.ty.unsigned, b.ty.width), Promoted(b.word, b.ty.unsigned, a.ty.width);
    PromotedResidue(a, b.ty.width);
    PromotedResidue(b, a.ty.width);
    if IsComparison(op) {
      EqualWords(lhs, rhs);
    } else if op.Shl? {
      LeftShiftResidue(a.Value(), lhs, rhs.bits);
    } else if !IsDivision(op) && !op.Shr? {
      Residues(a.Value(), b.Value(), lhs, rhs);
    }
  }

  lemma LeftShiftResidue(x: int, lhs: Word, count: nat)
    requires lhs.Valid() && lhs.bits == x % Pow2(lhs.width)
    ensures lhs.bits * Pow2(count) % Pow2(lhs.width) == x * Pow2(count) % Pow2(lhs.width)
  {
    var m, p := Pow2(lhs.width), Pow2(count);
    DivMod(x, m);
    ProductResidue(lhs.bits, p, x / m, 0, m);
  }

  /** The number an operand counts as in a comparison, a division or a right shift: a residue of its
      value. */
  ghost function Counted(a: Operand, b: Operand): int
    requires a.Valid() && b.Valid() && Operable(a.ty, b.ty)
  {
    Promoted(a.word, a.ty.unsigned, b.ty.width).Read(UnsignedCompare(a.ty, b.ty))
  }

  ghost function Operated(op: Op, a: Operand, b: Operand): Outcome
    requires a.Valid() && b.Valid()
  {
    var width, count := Max(a.ty.width, b.ty.width), b.Value() % Pow2(Max(a.ty.width, b.ty.width));
    if !Operable(a.ty, b.ty) then IllTyped
    else if IsComparison(op) then Flag(Compare(op, Counted(a, b), Counted(b, a)))
    else if IsDivision(op) then Divide(op, Counted(a, b), Counted(b, a), width)
    else if op.Shl? then Shift(a.Value() * Pow2(count), count, width)
    else if op.Shr? then Shift(Counted(a, b) / Pow2(count), count, width)
    else
      Number(Word(width, Compute(op, a.Value(), b.Value()) % Pow2(width)))
  }

  /** Sums, differences and products of any two operands, signed or not, are the true results modulo the
      wider width. */
  lemma SumTheorem(a: Operand, b: Operand)
    requires a.Valid() && b.Valid() && Operable(a.ty, b.ty)
    ensures var width := Max(a.ty.width, b.ty.width);
            && Operated(Add, a, b) == Number(Word(width, (a.Value() + b.Value()) % Pow2(width)))
            && Operated(Sub, a, b) == Number(Word(width, (a.Value() - b.Value()) % Pow2(width)))
            && Operated(Mul, a, b) == Number(Word(width, a.Value() * b.Value() % Pow2(width)))
  {
    hide Pow2, Operand.Value, Counted;
  }

  /** The operands are read with the signs of their types: a word of the upper half is negative for a
      signed type, and stands for itself for an unsigned one. */
  lemma ValueIs(a: Operand)
    requires a.Valid()
    ensures if a.ty.unsigned || 2 * a.word.bits < Pow2(a.ty.width) then a.Value() == a.word.bits
            else a.Value() == a.word.bits - Pow2(a.ty.width)
  {
    assert Pow2(a.ty.width) == 2 * Pow2(a.ty.width - 1);
  }

  // ---------------------------------------------------------------- divisions

  lemma {:induction false} ProductGrows(d: nat, q: nat)
    ensures d >= 1 ==> d * q >= q
    ensures d >= 2 ==> d * q >= 2 * q
  {
    if d <= 2 {
    } else {
      ProductGrows(d - 1, q);
      assert d * q == (d - 1) * q + q;
    }
  }

  lemma QuotientIs(n: nat, d: nat) returns (m: nat)
    requires d > 0
    ensures n == d * Quotient(n, d) + m && m < d
    ensures Quotient(n, d) <= n && (d >= 2 ==> 2 * Quotient(n, d) <= n)
  {
    m := Remainder(n, d);
    hide *;
    ProductGrows(d, Quotient(n, d));
  }

  lemma Remainder(n: nat, d: nat) returns (m: nat)
    requires d > 0
    ensures n == d * Quotient(n, d) + m && m < d
  {
    DivMod(n, d);
    m := n % d;
  }

  /** A quotient rounded towards zero, and its remainder with the sign of the dividend. */
  lemma TruncDivIs(x: int, y: int)
    requires y != 0
    ensures Abs(TruncRem(x, y)) < Abs(y) && Abs(TruncRem(x, y)) <= Abs(x)
    ensures TruncRem(x, y) != 0 ==> (TruncRem(x, y) > 0 <==> x > 0)
    ensures Abs(TruncDiv(x, y)) <= Abs(x) && (Abs(y) >= 2 ==> 2 * Abs(TruncDiv(x, y)) <= Abs(x))
  {
    hide *;
    AbsIs(x);
    AbsIs(y);
    TruncIs(x, y);
    var n, q := Abs(x), Quotient(Abs(x), Abs(y));
    var m := QuotientIs(n, Abs(y));
    SignOfProduct(x, y, q);
    Signs(x, n, TruncDiv(x, y), q, n - m, m, TruncRem(x, y));
  }

  /** The signs of a quotient `t` and of a remainder `r`, from those of their magnitudes. */
  lemma Signs(x: int, n: nat, t: int, q: nat, p: nat, m: nat, r: int)
    requires n == (if x < 0 then 0 - x else x) && (t == q || t == 0 - q)
    requires n == p + m && r == (if x < 0 then x + p else x - p)
    ensures Abs(r) == m && Abs(t) == q && (r != 0 ==> (r > 0 <==> x > 0))
  {
  }

  lemma AbsIs(x: int)
    ensures Abs(x) == if x < 0 then 0 - x else x
  {
  }

  lemma TruncIs(x: int, y: int)
    requires y != 0
    ensures Abs(y) > 0
    ensures var q := Quotient(Abs(x), Abs(y)); TruncDiv(x, y) == if (x < 0) == (y < 0) then q else 0 - q
    ensures TruncRem(x, y) == x - y * TruncDiv(x, y)
  {
  }

  lemma SignOfProduct(x: int, y: int, q: nat)
    ensures y * (if (x < 0) == (y < 0) then q else 0 - q) == if x < 0 then 0 - Abs(y) * q else Abs(y) * q
  {
    assert y * (0 - q) == 0 - y * q && (0 - y) * q == 0 - y * q;
  }

  predicate InRange(x: int, width: nat, isUnsigned: bool)
    requires width > 0
  {
    if isUnsigned then 0 <= x < Pow2(width) else -1 - x < Pow2(width - 1) && x < Pow2(width - 1)
  }

  lemma WordsAreInRange(w: Word, isUnsigned: bool)
    requires w.Valid()
    ensures InRange(w.Read(isUnsigned), w.width, isUnsigned)
  {
  }

  lemma ReadBack(x: int, width: nat, isUnsigned: bool)
    requires width > 0 && InRange(x, width, isUnsigned)
    ensures Word(width, x % Pow2(width)).Read(isUnsigned) == x
  {
    var m := Pow2(width);
    if x < 0 {
      ModShift(x, 1, m);
      SmallMod(x + m, m);
    } else {
      SmallMod(x, m);
    }
  }

  lemma QuotientInRange(x: int, y: int, width: nat, isUnsigned: bool)
    requires width > 0 && InRange(x, width, isUnsigned) && InRange(y, width, isUnsigned)
    requires y != 0 && !Overflows(x, y, width)
    ensures InRange(TruncDiv(x, y), width, isUnsigned) && InRange(TruncRem(x, y), width, isUnsigned)
  {
    TruncDivIs(x, y);
  }

  /** What the division instructions make of two numbers of a width. */
  lemma DivideIs(x: int, y: int, width: nat, isUnsigned: bool)
    requires width > 0 && InRange(x, width, isUnsigned) && InRange(y, width, isUnsigned)
    ensures var quotient, remainder := Divide(Div, x, y, width), Divide(Rem, x, y, width);
            && (quotient.Undefined? <==> remainder.Undefined?)
            && (quotient.Undefined? <==> y == 0 || Overflows(x, y, width))
            && (quotient.Number? ==> Divided(x, y, quotient.word.Read(isUnsigned), remainder.word.Read(isUnsigned)))
            && (!quotient.Undefined? ==> quotient.Number? && remainder.Number?)
  {
    if y != 0 && !Overflows(x, y, width) {
      QuotientInRange(x, y, width, isUnsigned);
      ReadBack(TruncDiv(x, y), width, isUnsigned);
      ReadBack(TruncRem(x, y), width, isUnsigned);
      TruncDivIs(x, y);
      TruncIs(x, y);
    }
    hide TruncDiv, TruncRem, Overflows, Abs, Pow2, InRange;
  }

  /** The identity of division, with a remainder smaller than the divisor and of the sign of `x`. */
  predicate Divided(x: int, y: int, q: int, r: int) {
    x == y * q + r && Abs(r) < Abs(y) && (r != 0 ==> (r > 0 <==> x > 0))
  }

  lemma CountedInRange(a: Operand, b: Operand)
    requires a.Valid() && b.Valid() && Operable(a.ty, b.ty)
    ensures Max(a.ty.width, b.ty.width) > 0
    ensures InRange(Counted(a, b), Max(a.ty.width, b.ty.width), UnsignedCompare(a.ty, b.ty))
  {
    PromotedResidue(a, b.ty.width);
    WordsAreInRange(Promoted(a.word, a.ty.unsigned, b.ty.width), UnsignedCompare(a.ty, b.ty));
    hide Pow2, InRange, Word.Read;
  }

  lemma OverflowIs(x: int, y: int, width: nat)
    requires width > 0
    ensures Overflows(x, y, width) <==> y == -1 && x == 0 - Pow2(width - 1)
  {
  }

  lemma OperatedDivision(op: Op, a: Operand, b: Operand)
    requires a.Valid() && b.Valid() && Operable(a.ty, b.ty) && IsDivision(op)
    ensures Max(a.ty.width, b.ty.width) > 0
    ensures Operated(op, a, b) == Divide(op, Counted(a, b), Counted(b, a), Max(a.ty.width, b.ty.width))
  {
    hide Divide, Counted, Pow2;
  }

  /** Division and remainder: undefined by zero and for the one quotient that does not fit, and otherwise
      the two results, read as the operands are, divide the numbers the operands count as. */
  lemma DivisionTheorem(a: Operand, b: Operand)
    requires a.Valid() && b.Valid() && Operable(a.ty, b.ty)
    ensures var x, y, u := Counted(a, b), Counted(b, a), UnsignedCompare(a.ty, b.ty);
            var quotient, remainder := Operated(Div, a, b), Operated(Rem, a, b);
            && (quotient.Undefined? <==> remainder.Undefined?)
            && Max(a.ty.width, b.ty.width) > 0
            && (quotient.Undefined? <==> y == 0 || (y == -1 && x == 0 - Pow2(Max(a.ty.width, b.ty.width) - 1)))
            && (quotient.Number? ==> Divided(x, y, quotient.word.Read(u), remainder.word.Read(u)))
            && (!quotient.Undefined? ==> quotient.Number? && remainder.Number?)
  {
    hide Operated, Divided, Overflows, Counted, Pow2, InRange, TruncDiv, TruncRem;
    OperatedDivision(Div, a, b);
    OperatedDivision(Rem, a, b);
    CountedInRange(a, b);
    CountedInRange(b, a);
    DivideIs(Counted(a, b), Counted(b, a), Max(a.ty.width, b.ty.width), UnsignedCompare(a.ty, b.ty));
    OverflowIs(Counted(a, b), Counted(b, a), Max(a.ty.width, b.ty.width));
  }

  // ---------------------------------------------------------------- shifts

  lemma {:induction false} Pow2Exceeds(n: nat)
    ensures n < Pow2(n)
  {
    if n == 0 {
    } else {
      Pow2Exceeds(n - 1);
    }
  }

  lemma {:induction false} Pow2Splits(n: nat, k: nat)
    ensures Pow2(n + k) == Pow2(n) * Pow2(k)
  {
    if n == 0 {
    } else {
      Pow2Splits(n - 1, k);
      assert Pow2(n - 1) * Pow2(k) * 2 == Pow2(n) * Pow2(k);
    }
  }

  /** The count is the value of the second operand, or too large. */
  lemma CountIs(b: Operand, width: nat)
    requires b.Valid() && b.ty.width <= width
    ensures var count := b.Value() % Pow2(width);
            if 0 <= b.Value() < width then count == b.Value() else count >= width
  {
    Pow2Exceeds(width - 1);
    Pow2Exceeds(width);
    if b.ty.width < width {
      Pow2Grows(b.ty.width, width);
    }
    if 0 <= b.Value() {
      SmallMod(b.Value(), Pow2(width));
    } else {
      assert Pow2(b.ty.width) == 2 * Pow2(b.ty.width - 1) && Pow2(width) == 2 * Pow2(width - 1);
      SmallMod(b.Value() + Pow2(width), Pow2(width));
      ModShift(b.Value(), 1, Pow2(width));
    }
  }

  /** Shifting a number that is off by a multiple of two to the width. */
  lemma OffByOneWord(x: int, k: int, n: nat, width: nat)
    requires n < width && -1 <= k <= 1
    ensures (x + k * Pow2(width)) / Pow2(n) % Pow2(width) == x / Pow2(n) % Pow2(width) <==> n == 0 || k == 0
  {
    Pow2Splits(n, width - n);
    if n > 0 {
      Pow2Grows(width - n, width);
    }
    OffByMultiple(x, k, Pow2(n), Pow2(width - n), Pow2(width));
    if n == 0 && k != 0 {
      ModShift(x, k, Pow2(width));
    }
  }

  lemma OffByMultiple(x: int, k: int, d: nat, e: nat, m: nat)
    requires -1 <= k <= 1 && m == d * e && 0 < e <= m && d > 0
    ensures (x + k * m) / d == x / d + k * e
    ensures k != 0 && e < m ==> (x + k * m) / d % m != x / d % m
  {
    assert k * m == k * e * d;
    DivShift(x, k * e, d);
    if k != 0 && e < m {
      SmallStep(x / d, k * e, m);
    }
  }

  lemma DivShift(x: int, q: int, d: nat)
    requires d > 0
    ensures (x + q * d) / d == x / d + q
  {
    var e := (x + q * d) / d - x / d - q;
    DivMod(x, d);
    DivMod(x + q * d, d);
    ModShift(x, q, d);
    assert e * d == ((x + q * d) / d) * d - (x / d) * d - q * d;
    MultipleBounds(e, d);
  }

  /** A step of less than `m` changes the residue. */
  lemma SmallStep(x: int, step: int, m: nat)
    requires 0 < Abs(step) < m
    ensures (x + step) % m != x % m
  {
    DivMod(x, m);
    DivMod(x + step, m);
    var k := (x + step) / m - x / m;
    assert k * m == (x + step) / m * m - x / m * m;
    MultipleBounds(k, m);
  }

  /** A shift is undefined exactly when the second operand is negative or not below the width.  Otherwise
      a left shift multiplies by the power of two, modulo the width; and a right shift is the value
      divided by the power of two and rounded down, modulo the width, exactly when the first operand
      counts as its value or the count is zero. */
  lemma ShiftTheorem(a: Operand, b: Operand)
    requires a.Valid() && b.Valid() && Operable(a.ty, b.ty)
    ensures var width := Max(a.ty.width, b.ty.width);
            if 0 <= b.Value() < width then
              var n := b.Value();
              && Operated(Shl, a, b) == Number(Word(width, a.Value() * Pow2(n) % Pow2(width)))
              && Operated(Shr, a, b) == Number(Word(width, Counted(a, b) / Pow2(n) % Pow2(width)))
              && (Operated(Shr, a, b) == Number(Word(width, a.Value() / Pow2(n) % Pow2(width)))
                  <==> n == 0 || Counted(a, b) == a.Value())
            else Operated(Shl, a, b) == Undefined && Operated(Shr, a, b) == Undefined
  {
    var width := Max(a.ty.width, b.ty.width);
    CountIs(b, width);
    if 0 <= b.Value() < width {
      var k := WordsOff(a, b);
      hide Pow2, Counted, Operand.Value;
      OffByOneWord(a.Value(), k, b.Value(), width);
    }
  }

  /** How far an operand is from the number it counts as. */
  lemma WordsOff(a: Operand, b: Operand) returns (k: int)
    requires a.Valid() && b.Valid() && Operable(a.ty, b.ty)
    ensures -1 <= k <= 1 && Counted(a, b) == a.Value() + k * Pow2(Max(a.ty.width, b.ty.width))
    ensures k == 0 <==> Counted(a, b) == a.Value()
  {
    PromotedResidue(a, b.ty.width);
    var w := Promoted(a.word, a.ty.unsigned, b.ty.width);
    k := if w.Read(UnsignedCompare(a.ty, b.ty)) == a.Value() then 0
         else if UnsignedCompare(a.ty, b.ty) then 1 else -1;
    if !a.ty.unsigned {
      assert w.Signed() == a.Value();
    }
  }

  // ---------------------------------------------------------------- when comparisons are right

  /** In an unsigned comparison an operand counts as the residue of its value, which is its value unless
      that is negative; in a signed one it counts as its value, unless it is an unsigned enumeration of
      the full width in the upper half of its range. */
  lemma CountedValue(a: Operand, b: Operand)
    requires a.Valid() && b.Valid() && Operable(a.ty, b.ty)
    ensures var width := Max(a.ty.width, b.ty.width);
            if (a.ty.unsigned && !a.ty.isEnum) || (b.ty.unsigned && !b.ty.isEnum) then
              && UnsignedCompare(a.ty, b.ty)
              && Counted(a, b) == a.Value() % Pow2(width)
              && (Counted(a, b) == a.Value() <==> a.Value() >= 0)
            else
              && !UnsignedCompare(a.ty, b.ty)
              && Counted(a, b) == (if 2 * a.Value() < Pow2(width) then a.Value() else a.Value() - Pow2(width))
              && (Counted(a, b) == a.Value() <==> !(a.ty.unsigned && a.ty.width == width && a.word.Negative()))
  {
    PromotedResidue(a, b.ty.width);
    var w := Promoted(a.word, a.ty.unsigned, b.ty.width);
    if a.ty.unsigned && a.ty.width < b.ty.width {
      ZExtSigned(a.word, b.ty.width);
    }
    ModBound(a.Value(), Pow2(w.width));
    if 0 <= a.Value() {
      assert a.Value() < Pow2(a.ty.width);
      if a.ty.width < w.width {
        Pow2Grows(a.ty.width, w.width);
      }
      SmallMod(a.Value(), Pow2(w.width));
    }
  }

  /** Whatever the types, what is compared are the numbers the operands count as. */
  lemma CountedComparison(a: Operand, b: Operand)
    requires a.Valid() && b.Valid() && Operable(a.ty, b.ty)
    ensures var x, y := Counted(a, b), Counted(b, a);
            && Operated(Gt, a, b) == Flag(x > y) && Operated(Ge, a, b) == Flag(x >= y)
            && Operated(Lt, a, b) == Flag(x < y) && Operated(Le, a, b) == Flag(x <= y)
            && Operated(Eq, a, b) == Flag(x == y) && Operated(Ne, a, b) == Flag(x != y)
  {
    hide Counted;
  }

  /** Every comparison of every two operands of these types gives the answer for their values. */
  ghost predicate ComparisonsRight(s: IntType, t: IntType) {
    forall op, a: Operand, b: Operand ::
      IsComparison(op) && a.ty == s && b.ty == t && a.Valid() && b.Valid() ==> RightAnswer(op, a, b)
  }

  ghost predicate RightAnswer(op: Op, a: Operand, b: Operand)
    requires IsComparison(op) && a.Valid() && b.Valid()
  {
    var x, y := a.Value(), b.Value();
    match op
    case Gt => Operated(op, a, b) == Flag(x > y)
    case Ge => Operated(op, a, b) == Flag(x >= y)
    case Lt => Operated(op, a, b) == Flag(x < y)
    case Le => Operated(op, a, b) == Flag(x <= y)
    case Eq => Operated(op, a, b) == Flag(x == y)
    case Ne => Operated(op, a, b) == Flag(x != y)
  }

  /** The types give valid code and leave no operand to be misread: in an unsigned comparison both are
      unsigned, in a signed one an unsigned operand is narrower than the other. */
  predicate TypesCompare(s: IntType, t: IntType) {
    && !(s.isEnum && t.isEnum && s.width != t.width)
    && if (s.unsigned && !s.isEnum) || (t.unsigned && !t.isEnum) then s.unsigned && t.unsigned
       else (s.unsigned ==> s.width < t.width) && (t.unsigned ==> t.width < s.width)
  }

  lemma ComparisonTheorem(s: IntType, t: IntType)
    requires s.width > 0 && t.width > 0
    ensures ComparisonsRight(s, t) <==> TypesCompare(s, t)
  {
    if TypesCompare(s, t) {
      forall op, a: Operand, b: Operand
        | IsComparison(op) && a.ty == s && b.ty == t && a.Valid() && b.Valid()
        ensures RightAnswer(op, a, b)
      {
        CountedValue(a, b);
        CountedValue(b, a);
      }
    } else {
      var op, a, b := Misread(s, t);
      assert !RightAnswer(op, a, b);
    }
  }

  /** An operand that is misread, next to a zero; or any two operands that are not compared at all. */
  lemma Misread(s: IntType, t: IntType) returns (op: Op, a: Operand, b: Operand)
    requires s.width > 0 && t.width > 0 && !TypesCompare(s, t)
    ensures IsComparison(op) && a.ty == s && b.ty == t && a.Valid() && b.Valid() && !RightAnswer(op, a, b)
  {
    if !Operable(s, t) {
      return Eq, Operand(s, Word(s.width, 0)), Operand(t, Word(t.width, 0));
    }
    var first := if UnsignedCompare(s, t) then !s.unsigned else s.unsigned && s.width >= t.width;
    if first {
      a, b := MisreadOf(s, t), Operand(t, Word(t.width, 0));
      op := if UnsignedCompare(s, t) then Lt else Gt;
    } else {
      a, b := Operand(s, Word(s.width, 0)), MisreadOf(t, s);
      op := if UnsignedCompare(s, t) then Gt else Lt;
    }
    MisreadCounts(if first then s else t, if first then t else s);
    ZeroCounts(if first then b else a, if first then a else b);
    hide Pow2, Counted, Word.Signed;
  }

  lemma ZeroCounts(zero: Operand, other: Operand)
    requires zero.Valid() && other.Valid() && Operable(zero.ty, other.ty) && zero.word.bits == 0
    ensures zero.Value() == 0 && Counted(zero, other) == 0
  {
    CountedValue(zero, other);
  }

  /** The operand counts on the other side of zero. */
  lemma MisreadCounts(s: IntType, t: IntType)
    requires s.width > 0 && t.width > 0 && Operable(s, t)
    requires if UnsignedCompare(s, t) then !s.unsigned else s.unsigned && s.width >= t.width
    ensures var a, zero := MisreadOf(s, t), Operand(t, Word(t.width, 0));
            && a.Valid() && zero.Valid()
            && if UnsignedCompare(s, t) then a.Value() < 0 < Counted(a, zero) else Counted(a, zero) < 0 < a.Value()
  {
    assert Pow2(s.width) == 2 * Pow2(s.width - 1);
    var a, zero := MisreadOf(s, t), Operand(t, Word(t.width, 0));
    CountedValue(a, zero);
    PromotedResidue(a, t.width);
    ModBound(a.Value(), Pow2(Max(s.width, t.width)));
  }

  /** Minus one in an unsigned comparison, the upper half's first number in a signed one. */
  function MisreadOf(s: IntType, t: IntType): Operand
    requires s.width > 0
  {
    Operand(s, Word(s.width, if UnsignedCompare(s, t) then Pow2(s.width) - 1 else Pow2(s.width - 1)))
  }
}
