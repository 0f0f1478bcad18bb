/** Folding cross-reference expressions in 64-bit arithmetic, against their meaning on words of the
    width each expression has. */
module XrefFolder {
  import opened Options
  import Words

  // ---------- powers of two, bits ----------

  function Pow2(n: nat): (p: nat)
    ensures p > 0
  {
    if n == 0 then 1 else 2 * Pow2(n - 1)
  }

  type BitOp = (bool, bool) -> bool

  /** The low `n` bits of two numbers, combined bit by bit. */
  function Bits(op: BitOp, a: nat, b: nat, n: nat): (r: nat)
    ensures r < Pow2(n)
    decreases n
  {
    if n == 0 then 0
    else (if op(a % 2 == 1, b % 2 == 1) then 1 else 0) + 2 * Bits(op, a / 2, b / 2, n - 1)
  }

  function Bit(a: nat, i: nat): bool
    decreases i
  {
    if i == 0 then a % 2 == 1 else Bit(a / 2, i - 1)
  }

  /** Each bit of the combination is the combination of the bits. */
  lemma {:induction false} BitsAt(op: BitOp, a: nat, b: nat, n: nat, i: nat)
    requires i < n
    ensures Bit(Bits(op, a, b, n), i) == op(Bit(a, i), Bit(b, i))
    decreases n
  {
    if i > 0 {
      BitsAt(op, a / 2, b / 2, n - 1, i - 1);
    }
  }

  lemma HalfMod(bit: nat, x: nat, p: nat)
    requires bit < 2 && p > 0
    ensures (bit + 2 * x) % (2 * p) == bit + 2 * (x % p)
  {
    var q, r := x / p, x % p;
    assert x == p * q + r;
    assert bit + 2 * x - (bit + 2 * r) == (2 * p) * q by {
      assert (2 * p) * q == 2 * (p * q);
    }
    Words.MultipleMod(q, 2 * p);
    Words.ModEqual(bit + 2 * x, bit + 2 * r, 2 * p);
    Words.SmallMod(bit + 2 * r, 2 * p);
  }

  /** Fewer bits are the remainder of more. */
  lemma {:induction false} BitsTruncate(op: BitOp, a: nat, b: nat, n: nat, w: nat)
    requires w <= n
    ensures Bits(op, a, b, n) % Pow2(w) == Bits(op, a, b, w)
    decreases n
  {
    if w > 0 {
      BitsTruncate(op, a / 2, b / 2, n - 1, w - 1);
      HalfMod(if op(a % 2 == 1, b % 2 == 1) then 1 else 0, Bits(op, a / 2, b / 2, n - 1), Pow2(w - 1));
    }
  }

  function ShiftLeft(a: nat, n: nat): nat
    decreases n
  {
    if n == 0 then a else ShiftLeft(2 * a, n - 1)
  }

  function ShiftRight(a: nat, n: nat): (r: nat)
    ensures r <= a
    decreases n
  {
    if n == 0 then a else ShiftRight(a / 2, n - 1)
  }

  const AND: BitOp := (x: bool, y: bool) => x && y
  const OR: BitOp := (x: bool, y: bool) => x || y
  const XOR: BitOp := (x: bool, y: bool) => x != y

  /** `x & mask`, the mask having the low `w` bits set. */
  function Mask(x: nat, w: nat): nat {
    Bits(AND, x, Pow2(w) - 1, 64)
  }

  lemma PowTwice(w: nat)
    requires w > 0
    ensures Pow2(w) == 2 * Pow2(w - 1)
  {
  }

  lemma AndStep(x: nat, half: nat, n: nat)
    requires n > 0
    ensures Bits(AND, x, 1 + 2 * half, n) == x % 2 + 2 * Bits(AND, x / 2, half, n - 1)
  {
    assert (1 + 2 * half) / 2 == half;
  }

  lemma {:induction false} AndOnes(x: nat, w: nat, n: nat)
    requires w <= n
    ensures Bits(AND, x, Pow2(w) - 1, n) == x % Pow2(w)
    decreases n
  {
    hide Pow2, Bits;
    if w == 0 {
      PowZero();
      AndZero(x, n);
    } else {
      PowTwice(w);
      var half := Pow2(w - 1) - 1;
      assert Pow2(w) - 1 == 1 + 2 * half;
      AndStep(x, half, n);
      AndOnes(x / 2, w - 1, n - 1);
      HalfMod(x % 2, x / 2, Pow2(w - 1));
      assert x == x % 2 + 2 * (x / 2);
    }
  }

  lemma PowZero()
    ensures Pow2(0) == 1 && forall x: nat :: x % 1 == 0
  {
  }

  lemma {:induction false} AndZero(x: nat, n: nat)
    ensures Bits(AND, x, 0, n) == 0
    decreases n
  {
    if n > 0 { AndZero(x / 2, n - 1); }
  }

  lemma {:induction false} Pow2Split(w: nat, n: nat)
    requires w <= n
    ensures Pow2(n) == Pow2(w) * Pow2(n - w)
  {
    hide Pow2;
    if w == 0 {
      PowZero();
      assert Pow2(n) == 1 * Pow2(n);
    } else {
      PowTwice(w);
      PowTwice(n);
      Pow2Split(w - 1, n - 1);
      assert 2 * (Pow2(w - 1) * Pow2(n - w)) == (2 * Pow2(w - 1)) * Pow2(n - w);
    }
  }

  /** Working in 64 bits and masking is working in `w` bits. */
  lemma MaskWord(a: int, w: nat)
    requires w <= 64
    ensures Mask(a % Pow2(64), w) == a % Pow2(w)
  {
    hide Pow2, Bits;
    AndOnes(a % Pow2(64), w, 64);
    Pow2Split(w, 64);
    var q := a / Pow2(64);
    assert a - a % Pow2(64) == Pow2(64) * q == Pow2(w) * (Pow2(64 - w) * q);
    Words.MultipleMod(Pow2(64 - w) * q, Pow2(w));
    Words.ModEqual(a, a % Pow2(64), Pow2(w));
  }

  lemma {:induction false} Pow2Monotone(w: nat, n: nat)
    requires w <= n
    ensures Pow2(w) <= Pow2(n)
  {
    if w < n { Pow2Monotone(w, n - 1); }
  }

  // ---------- expressions ----------

  datatype Binary = Add | Sub | Mul | And | Or | Xor | Shl | LShr | AShr

  datatype Predicate = EQ | NE | UGT | UGE | ULT | ULE | SGT | SGE | SLT | SLE

  /** Operations are constant expressions unless `Inst` marks one as an instruction; a global without
      an address stands for every leaf the folder cannot resolve. */
  datatype Expr =
    | Const(width: nat, value: nat)
    | Global(address: Option<nat>)
    | Bin(op: Binary, lhs: Expr, rhs: Expr)
    | ICmp(pred: Predicate, lhs: Expr, rhs: Expr)
    | Select(cond: Expr, ifTrue: Expr, ifFalse: Expr)
    | ZExt(op1: Expr, width: nat)
    | SExt(op1: Expr, width: nat)
    | Trunc(op1: Expr, width: nat)
    | Cast(op1: Expr)
    | Inst(op1: Expr)

  /** The width of an expression's type; pointers have 64 bits. */
  function Width(e: Expr): nat {
    match e
    case Const(w, _) => w
    case Global(_) => 64
    case Bin(_, l, _) => Width(l)
    case ICmp(_, _, _) => 1
    case Select(_, t, _) => Width(t)
    case ZExt(_, w) => w
    case SExt(_, w) => w
    case Trunc(_, w) => w
    case Cast(o) => Width(o)
    case Inst(o) => Width(o)
  }

  /** What the types of LLVM guarantee, for words of at most 64 bits. */
  predicate WellTyped(e: Expr) {
    && 1 <= Width(e) <= 64
    && match e
       case Const(w, v) => v < Pow2(w)
       case Global(a) => a.Some? ==> a.value < Pow2(Width(e))
       case Bin(_, l, r) => WellTyped(l) && WellTyped(r) && Width(l) == Width(r)
       case ICmp(_, l, r) => WellTyped(l) && WellTyped(r) && Width(l) == Width(r)
       case Select(c, t, f) =>
         WellTyped(c) && WellTyped(t) && WellTyped(f) && Width(c) == 1 && Width(t) == Width(f)
       case ZExt(o, w) => WellTyped(o) && Width(o) < w
       case SExt(o, w) => WellTyped(o) && Width(o) < w
       case Trunc(o, w) => WellTyped(o) && w < Width(o)
       case Cast(o) => WellTyped(o)
       case Inst(o) => WellTyped(o) && !o.Const? && !o.Global? && !o.Inst?
  }

  // ---------- the meaning ----------

  /** A word read as a signed number. */
  function AsSigned(a: nat, w: nat): int
    requires w > 0
  {
    if a < Pow2(w - 1) then a else a - Pow2(w)
  }

  function ArithmeticShift(x: int, n: nat): int
    decreases n
  {
    if n == 0 then x else ArithmeticShift(x / 2, n - 1)
  }

  predicate IsSigned(p: Predicate) {
    p.SGT? || p.SGE? || p.SLT? || p.SLE?
  }

  /** Comparing two words, of which the signed readings are given as well. */
  function Compare(p: Predicate, a: nat, b: nat, sa: int, sb: int): bool {
    match p
    case EQ => a == b
    case NE => a != b
    case UGT => a > b
    case UGE => a >= b
    case ULT => a < b
    case ULE => a <= b
    case SGT => sa > sb
    case SGE => sa >= sb
    case SLT => sa < sb
    case SLE => sa <= sb
  }

  /** On words of width `w`: none is poison, a shift by the width or more. */
  function Meaning(op: Binary, a: nat, b: nat, w: nat): Option<nat>
    requires w > 0
  {
    match op
    case Add => Some((a + b) % Pow2(w))
    case Sub => Some((a - b) % Pow2(w))
    case Mul => Some((a * b) % Pow2(w))
    case And => Some(Bits(AND, a, b, w))
    case Or => Some(Bits(OR, a, b, w))
    case Xor => Some(Bits(XOR, a, b, w))
    case Shl => if b < w then Some(ShiftLeft(a, b) % Pow2(w)) else None
    case LShr => if b < w then Some(ShiftRight(a, b)) else None
    case AShr => if b < w then Some(ArithmeticShift(AsSigned(a, w), b) % Pow2(w)) else None
  }

  /** The value of an expression in LLVM's semantics; none for poison and for globals whose address
      is not known. */
  function Denote(e: Expr): Option<nat>
    requires WellTyped(e)
  {
    hide Pow2, Meaning, AsSigned, Compare;
    match e
    case Const(_, v) => Some(v)
    case Global(a) => a
    case Bin(op, l, r) =>
      if Denote(l).None? || Denote(r).None? then None
      else Meaning(op, Denote(l).value, Denote(r).value, Width(l))
    case ICmp(p, l, r) =>
      if Denote(l).None? || Denote(r).None? then None
      else
        var a, b, w := Denote(l).value, Denote(r).value, Width(l);
        Some(if Compare(p, a, b, AsSigned(a, w), AsSigned(b, w)) then 1 else 0)
    case Select(c, t, f) =>
      if Denote(c).None? then None else if Denote(c).value == 1 then Denote(t) else Denote(f)
    case ZExt(o, _) => Denote(o)
    case SExt(o, w) =>
      if Denote(o).None? then None else Some(AsSigned(Denote(o).value, Width(o)) % Pow2(w))
    case Trunc(o, w) => if Denote(o).None? then None else Some(Denote(o).value % Pow2(w))
    case Cast(o) => Denote(o)
    case Inst(o) => Denote(o)
  }

  // ---------- the folder ----------

  /** The folder's signed reading: 32-bit words are cast to a signed byte. */
  function Signed(a: nat, w: nat): int
    requires w > 0
  {
    if w == 1 then (if a % 2 == 1 then -1 else 0)
    else if w == 8 || w == 32 then AsSigned(a % Pow2(8), 8)
    else if w == 16 then AsSigned(a % Pow2(16), 16)
    else if w == 64 then AsSigned(a, 64)
    else Bits(XOR, a, Pow2(w - 1), 64) - Pow2(w - 1)
  }

  /** One operation in 64-bit arithmetic, masked to the width of the left operand. */
  function Apply(op: Binary, a: nat, b: nat, w: nat): nat
    requires w > 0
  {
    match op
    case Add => Mask((a + b) % Pow2(64), w)
    case Sub => Mask((a - b) % Pow2(64), w)
    case Mul => Mask((a * b) % Pow2(64), w)
    case And => Mask(Bits(AND, a, b, 64), w)
    case Or => Mask(Bits(OR, a, b, 64), w)
    case Xor => Mask(Bits(XOR, a, b, 64), w)
    case Shl => Mask(ShiftLeft(a, b % 64) % Pow2(64), w)
    case LShr => Mask(ShiftRight(a, b % 64), w)
    case AShr => Mask(ArithmeticShift(Signed(a, w), b % 64) % Pow2(64), w)
  }

  /** Sign extension: not masked to the width extended to, and the mask in front of it is none of
      the bits when that width is 64, the shift that makes it counting modulo 64. */
  function FoldSExt(a: nat, src: nat, dest: nat): nat
    requires 1 <= src < dest <= 64
  {
    (Bits(XOR, Mask(a, dest % 64), Pow2(src - 1), 64) - Pow2(src - 1)) % Pow2(64)
  }

  /** What the folder hands back: a value, and whether an error is recorded by then. */
  datatype Folded = Folded(value: nat, failed: bool)

  /** The folder, `err` saying whether an error is recorded already. There is one error for the whole
      expression: an instruction met with an error gives zero, a comparison drops whatever was
      recorded before it ends, and a selection goes no further than a condition with an error. */
  function Fold(e: Expr, err: bool): Folded
    requires WellTyped(e)
  {
    hide Pow2, Apply, Mask, Signed, FoldSExt, Compare;
    match e
    case Const(_, v) => Folded(v, err)
    case Global(a) => if a.Some? then Folded(a.value, err) else Folded(0, true)
    case Bin(op, l, r) =>
      var x := Fold(l, err);
      var y := Fold(r, x.failed);
      Folded(Apply(op, x.value, y.value, Width(l)), y.failed)
    case ICmp(p, l, r) =>
      var a, w := Fold(l, err).value, Width(l);
      var b := Fold(r, Fold(l, err).failed).value;
      Folded(if Compare(p, a, b, Signed(a, w), Signed(b, w)) then 1 else 0, false)
    case Select(c, t, f) =>
      if Fold(c, err).failed then Folded(0, true)
      else if Fold(c, err).value != 0 then Fold(t, false) else Fold(f, false)
    case ZExt(o, w) =>
      if w >= 64 then Fold(o, err) else Folded(Mask(Fold(o, err).value, w), Fold(o, err).failed)
    case SExt(o, w) => Folded(FoldSExt(Fold(o, err).value, Width(o), w), Fold(o, err).failed)
    case Trunc(o, w) =>
      if w == 64 then Fold(o, err) else Folded(Mask(Fold(o, err).value, w), Fold(o, err).failed)
    case Cast(o) => Fold(o, err)
    case Inst(o) => if err then Folded(0, true) else Fold(o, false)
  }

  // ---------- one operation ----------

  lemma ModBound(a: int, p: nat)
    requires p > 0
    ensures 0 <= a % p < p
  {
  }

  /** The words whose signed reading the folder gets right. */
  predicate Readable(a: nat, w: nat) {
    w != 32 || a < 128 || a >= 0x1_0000_0000 - 128
  }

  /** The words of 32 bits that an arithmetic shift gets right: all bits behind the signed byte that
      are not shifted out are its sign. */
  predicate ShiftReadable(a: nat, b: nat) {
    var kept := Pow2(if b < 8 then 8 else b);
    if a % 256 < 128 then a < kept else a + kept >= 0x1_0000_0000
  }

  lemma ApplyMeans(op: Binary, a: nat, b: nat, w: nat)
    requires op.AShr? && w == 32 ==> ShiftReadable(a, b)
    requires 1 <= w <= 64 && a < Pow2(w) && b < Pow2(w) && Meaning(op, a, b, w).Some?
    ensures Some(Apply(op, a, b, w)) == Meaning(op, a, b, w) && Apply(op, a, b, w) < Pow2(w)
  {
    hide Mask, Bits, Pow2, AsSigned, Signed, ArithmeticShift, ShiftLeft, ShiftReadable;
    match op
    case Add => MaskWord(a + b, w); ModBound(a + b, Pow2(w));
    case Sub => MaskWord(a - b, w); ModBound(a - b, Pow2(w));
    case Mul => MaskWord(a * b, w); ModBound(a * b, Pow2(w));
    case And => BitwiseMeans(AND, a, b, w);
    case Or => BitwiseMeans(OR, a, b, w);
    case Xor => BitwiseMeans(XOR, a, b, w);
    case Shl => MaskWord(ShiftLeft(a, b), w); ModBound(ShiftLeft(a, b), Pow2(w));
    case LShr =>
      MaskSmall(ShiftRight(a, b), w);
    case AShr =>
      if w == 32 {
        ShiftMeansIff(a, b);
      } else {
        SignedMeansIff(a, w);
        MaskWord(ArithmeticShift(AsSigned(a, w), b), w);
      }
      ModBound(ArithmeticShift(AsSigned(a, w), b), Pow2(w));
  }

  lemma BitwiseMeans(op: BitOp, a: nat, b: nat, w: nat)
    requires w <= 64
    ensures Mask(Bits(op, a, b, 64), w) == Bits(op, a, b, w)
  {
    hide Bits, Pow2;
    AndOnes(Bits(op, a, b, 64), w, 64);
    BitsTruncate(op, a, b, 64, w);
  }

  lemma MaskSmall(x: nat, w: nat)
    requires w <= 64 && x < Pow2(w)
    ensures Mask(x, w) == x
  {
    hide Pow2, Bits;
    AndOnes(x, w, 64);
    Words.SmallMod(x, Pow2(w));
  }

  // ---------- the signed reading ----------

  lemma {:induction false} FlipTop(a: nat, k: nat, n: nat)
    requires k < n && a < Pow2(k + 1)
    ensures Bits(XOR, a, Pow2(k), n) == if a < Pow2(k) then a + Pow2(k) else a - Pow2(k)
    decreases n
  {
    if k == 0 {
      XorZero(a / 2, n - 1);
    } else {
      PowTwice(k);
      PowTwice(k + 1);
      FlipTop(a / 2, k - 1, n - 1);
    }
  }

  lemma {:induction false} XorZero(a: nat, n: nat)
    requires a == 0
    ensures Bits(XOR, a, 0, n) == 0
    decreases n
  {
    if n > 0 { XorZero(a / 2, n - 1); }
  }

  lemma SmallPowers()
    ensures Pow2(0) == 1 && Pow2(1) == 2 && Pow2(7) == 128 && Pow2(8) == 256 && Pow2(31) == 0x8000_0000
    ensures Pow2(32) == 0x1_0000_0000
  {
    assert Pow2(8) == 256;
    assert Pow2(16) == 0x1_0000;
    assert Pow2(24) == 0x100_0000;
  }

  /** The folder's signed reading of a word is right at every width but 32, and there exactly for
      the words that a signed byte can hold. */
  lemma SignedMeansIff(a: nat, w: nat)
    requires 1 <= w <= 64 && a < Pow2(w)
    ensures Signed(a, w) == AsSigned(a, w) <==> Readable(a, w)
  {
    hide Pow2, Bits;
    SmallPowers();
    if w == 8 || w == 16 {
      Words.SmallMod(a, Pow2(w));
    } else if w == 32 {
      LowByte(a);
    } else if w != 1 && w != 64 {
      PowTwice(w);
      FlipTop(a, w - 1, 64);
    }
  }

  lemma {:induction false} ShiftIsDiv(x: int, n: nat)
    ensures ArithmeticShift(x, n) == x / Pow2(n)
    decreases n
  {
    if n > 0 {
      ShiftIsDiv(x / 2, n - 1);
      DivTwice(x, Pow2(n - 1));
    }
  }

  lemma DivTwice(x: int, p: nat)
    requires p > 0
    ensures x / 2 / p == x / (2 * p)
  {
    var bit, h := x % 2, x / 2;
    var q, r := h / p, h % p;
    assert x == (2 * p) * q + (2 * r + bit) by {
      assert h == p * q + r;
      assert (2 * p) * q == 2 * (p * q);
    }
    DivIs(x, 2 * p, q, 2 * r + bit);
  }

  lemma DivIs(x: int, p: nat, q: int, r: nat)
    requires p > 0 && x == p * q + r && r < p
    ensures x / p == q
  {
    var d := x / p - q;
    assert p * d == r - x % p by {
      assert p * (x / p - q) == p * (x / p) - p * q;
    }
    Words.SmallMultiple(d, p);
  }

  /** What a number shifted by `n` comes to, in terms of the bits that are lost. */
  lemma DivRange(x: int, p: int)
    requires p > 0
    ensures x / p == 0 <==> 0 <= x < p
    ensures x / p == -1 <==> -p <= x < 0
  {
    if 0 <= x < p { DivIs(x, p, 0, x); }
    if -p <= x < 0 { DivIs(x, p, -1, x + p); }
    assert x == p * (x / p) + x % p;
  }

  lemma DivApart(x: int, y: int, p: nat)
    requires p > 0 && x >= y + p
    ensures x / p > y / p
  {
    var d := x / p - y / p;
    assert x == p * (x / p) + x % p && y == p * (y / p) + y % p;
    assert p * d == p * (x / p) - p * (y / p);
    Words.Grows(d, p);
  }

  /** The folder's reading and the right one, of a 32-bit word, differ by a multiple of 256. */
  lemma ReadingsApart(a: nat)
    requires a < 0x1_0000_0000
    ensures
      var s, t := Signed(a, 32), AsSigned(a, 32);
      && -128 <= s < 128 && -0x8000_0000 <= t < 0x8000_0000 && (s < 0 <==> a % 256 >= 128)
      && t == (if a < 0x8000_0000 then a else a - 0x1_0000_0000)
      && (s == t || s + 256 <= t || t + 256 <= s)
  {
    hide Pow2;
    SmallPowers();
    assert a == 256 * (a / 256) + a % 256;
  }

  /** Shifted by the same amount they agree exactly for readable words. */
  lemma ShiftsAgreeIff(a: nat, b: nat)
    requires a < 0x1_0000_0000 && b < 32
    ensures Signed(a, 32) / Pow2(b) == AsSigned(a, 32) / Pow2(b) <==> ShiftReadable(a, b)
  {
    hide Pow2, Signed, AsSigned;
    var s, t, p := Signed(a, 32), AsSigned(a, 32), Pow2(b);
    ReadingsApart(a);
    SmallPowers();
    if b < 8 {
      Pow2Monotone(b, 8);
      if s != t { if s < t { DivApart(t, s, p); } else { DivApart(s, t, p); } }
      assert s == t <==> ShiftReadable(a, b);
    } else {
      Pow2Monotone(8, b);
      Pow2Monotone(b, 31);
      DivRange(s, p);
      DivRange(t, p);
    }
  }

  /** An arithmetic shift of a 32-bit word is right exactly for these words. */
  lemma ShiftMeansIff(a: nat, b: nat)
    requires a < Pow2(32) && b < 32
    ensures Some(Apply(AShr, a, b, 32)) == Meaning(AShr, a, b, 32) <==> ShiftReadable(a, b)
  {
    hide Pow2, Bits, Mask, Signed, AsSigned, ArithmeticShift, ShiftReadable;
    SmallPowers();
    var s, t := Signed(a, 32), AsSigned(a, 32);
    ReadingsApart(a);
    ShiftIsDiv(s, b);
    ShiftIsDiv(t, b);
    ShiftsAgreeIff(a, b);
    MaskWord(s / Pow2(b), 32);
    SmallShift(s, Pow2(b));
    SmallShift(t, Pow2(b));
    SameWord(s / Pow2(b), t / Pow2(b));
  }

  lemma SmallShift(x: int, p: nat)
    requires p > 0 && -0x8000_0000 <= x < 0x8000_0000
    ensures -0x8000_0000 <= x / p < 0x8000_0000
  {
  }

  lemma SameWord(x: int, y: int)
    requires -0x8000_0000 <= x < 0x8000_0000 && -0x8000_0000 <= y < 0x8000_0000
    ensures x % 0x1_0000_0000 == y % 0x1_0000_0000 <==> x == y
  {
  }

  lemma LowByte(a: nat)
    requires a < 0x1_0000_0000
    ensures (if a % 256 < 128 then a % 256 else a % 256 - 256)
            == (if a < 0x8000_0000 then a else a - 0x1_0000_0000)
            <==> a < 128 || a >= 0x1_0000_0000 - 128
  {
    assert a == 256 * (a / 256) + a % 256;
  }

  /** Comparing 200 with 100 as signed 32-bit numbers comes out wrong. */
  lemma SignedCompareWrong()
    ensures
      var e := ICmp(SGT, Const(32, 200), Const(32, 100));
      WellTyped(e) && Denote(e) == Some(1) && Fold(e, false) == Folded(0, false)
  {
    hide Pow2;
    SmallPowers();
  }

  /** The words whose sign extension the folder gets right: those that are not negative, and zero
      alone when extending to 64 bits. */
  predicate Extendable(a: nat, src: nat, dest: nat)
    requires src > 0
  {
    if dest == 64 then a == 0 else a < Pow2(src - 1)
  }

  lemma SExtMeansIff(a: nat, src: nat, dest: nat)
    requires 1 <= src < dest <= 64 && a < Pow2(src)
    ensures FoldSExt(a, src, dest) == AsSigned(a, src) % Pow2(dest) <==> Extendable(a, src, dest)
  {
    hide Pow2, Bits;
    Pow2Monotone(src, dest);
    Pow2Monotone(dest, 64);
    PowTwice(src);
    if dest == 64 {
      SExtAll(a, src);
    } else {
      Pow2Monotone(dest, 63);
      PowTwice(64);
      MaskSmall(a, dest);
      FlipTop(a, src - 1, 64);
    }
    if a < Pow2(src - 1) {
      Words.SmallMod(a, Pow2(64));
      Words.SmallMod(a, Pow2(dest));
    } else {
      WrapAround(a - Pow2(src), Pow2(64));
      WrapAround(a - Pow2(src), Pow2(dest));
    }
  }

  lemma SExtAll(a: nat, src: nat)
    requires 1 <= src < 64
    ensures FoldSExt(a, src, 64) == 0
  {
    hide Pow2, Bits;
    PowZero();
    AndZero(a, 64);
    FlipTop(0, src - 1, 64);
    Words.SmallMod(0, Pow2(64));
  }

  lemma WrapAround(x: int, p: int)
    requires -p <= x < 0
    ensures x % p == x + p
  {
    Words.ModEqual(x, x + p, p);
    Words.SmallMod(x + p, p);
    Words.MultipleMod(-1, p);
  }

  // ---------- the value of an expression ----------

  /** Every signed operation that is evaluated is given words for which the folder's reading does no
      harm. */
  predicate Exact(e: Expr)
    requires WellTyped(e)
  {
    hide Pow2, Denote, Readable, ShiftReadable;
    match e
    case Const(_, _) => true
    case Global(_) => true
    case Bin(op, l, r) =>
      && Exact(l) && Exact(r)
      && (op.AShr? && Width(l) == 32 && Denote(l).Some? && Denote(r).Some? ==>
            ShiftReadable(Denote(l).value, Denote(r).value))
    case ICmp(p, l, r) =>
      && Exact(l) && Exact(r)
      && (IsSigned(p) && Denote(l).Some? && Denote(r).Some? ==>
            Readable(Denote(l).value, Width(l)) && Readable(Denote(r).value, Width(r)))
    case Select(c, t, f) =>
      Exact(c) && (Denote(c).Some? ==> if Denote(c).value == 1 then Exact(t) else Exact(f))
    case ZExt(o, _) => Exact(o)
    case SExt(o, w) => Exact(o) && (Denote(o).Some? ==> Extendable(Denote(o).value, Width(o), w))
    case Trunc(o, _) => Exact(o)
    case Cast(o) => Exact(o)
    case Inst(o) => Exact(o)
  }

  /** No operation reads a word as signed, but at widths where the folder does so rightly. */
  predicate Unsigned(e: Expr) {
    match e
    case Const(_, _) => true
    case Global(_) => true
    case Bin(op, l, r) => Unsigned(l) && Unsigned(r) && (op == AShr ==> Width(l) != 32)
    case ICmp(p, l, r) => Unsigned(l) && Unsigned(r) && (p in {SGT, SGE, SLT, SLE} ==> Width(l) != 32)
    case Select(c, t, f) => Unsigned(c) && Unsigned(t) && Unsigned(f)
    case ZExt(o, _) => Unsigned(o)
    case SExt(_, _) => false
    case Trunc(o, _) => Unsigned(o)
    case Cast(o) => Unsigned(o)
    case Inst(o) => Unsigned(o)
  }

  /** Such expressions are exact, whatever their values. */
  lemma {:induction false} UnsignedExact(e: Expr)
    requires WellTyped(e) && Unsigned(e)
    ensures Exact(e)
  {
    hide Pow2, Denote;
    match e
    case Const(_, _) =>
    case Global(_) =>
    case Bin(_, l, r) => UnsignedExact(l); UnsignedExact(r);
    case ICmp(_, l, r) => UnsignedExact(l); UnsignedExact(r);
    case Select(c, t, f) => UnsignedExact(c); UnsignedExact(t); UnsignedExact(f);
    case ZExt(o, _) => UnsignedExact(o);
    case SExt(_, _) =>
    case Trunc(o, _) => UnsignedExact(o);
    case Cast(o) => UnsignedExact(o);
    case Inst(o) => UnsignedExact(o);
  }

  /** Every well-typed expression that has a value folds to exactly that value, which fits its
      width, and to no error. */
  lemma {:induction false} FoldIsMeaning(e: Expr)
    requires WellTyped(e) && Exact(e) && Denote(e).Some?
    ensures Fold(e, false) == Folded(Denote(e).value, false) && Denote(e).value < Pow2(Width(e))
  {
    hide Apply, Meaning, Mask, Pow2, AsSigned, Signed, Readable, ShiftReadable, Extendable, FoldSExt;
    match e
    case Const(w, v) =>
    case Global(a) =>
    case Bin(op, l, r) =>
      FoldIsMeaning(l);
      FoldIsMeaning(r);
      ApplyMeans(op, Denote(l).value, Denote(r).value, Width(l));
    case ICmp(p, l, r) =>
      FoldIsMeaning(l);
      FoldIsMeaning(r);
      OneFits();
      SignedMeansIff(Denote(l).value, Width(l));
      SignedMeansIff(Denote(r).value, Width(r));
    case Select(c, t, f) =>
      FoldIsMeaning(c);
      OneFits();
      if Denote(c).value == 1 { FoldIsMeaning(t); } else { FoldIsMeaning(f); }
    case ZExt(o, w) =>
      FoldIsMeaning(o);
      Pow2Monotone(Width(o), w);
      if w < 64 { MaskSmall(Denote(o).value, w); }
    case SExt(o, w) =>
      FoldIsMeaning(o);
      SExtMeansIff(Denote(o).value, Width(o), w);
      ModBound(AsSigned(Denote(o).value, Width(o)), Pow2(w));
    case Trunc(o, w) =>
      FoldIsMeaning(o);
      TruncMeans(Denote(o).value, Width(o), w);
    case Cast(o) => FoldIsMeaning(o);
    case Inst(o) => FoldIsMeaning(o);
  }

  lemma OneFits()
    ensures Pow2(1) == 2
  {
  }

  lemma TruncMeans(x: nat, n: nat, w: nat)
    requires w < n <= 64 && x < Pow2(n)
    ensures Mask(x, w) == x % Pow2(w) < Pow2(w)
  {
    hide Pow2, Bits;
    AndOnes(x, w, 64);
    ModBound(x, Pow2(w));
  }

  // ---------- the operations, one by one ----------

  lemma {:induction false} ShiftLeftIs(a: nat, n: nat)
    ensures ShiftLeft(a, n) == a * Pow2(n)
    decreases n
  {
    if n > 0 {
      ShiftLeftIs(2 * a, n - 1);
      assert (2 * a) * Pow2(n - 1) == a * (2 * Pow2(n - 1));
    }
  }

  lemma {:induction false} ShiftRightIs(a: nat, n: nat)
    ensures ShiftRight(a, n) == a / Pow2(n)
    decreases n
  {
    if n > 0 {
      ShiftRightIs(a / 2, n - 1);
      DivTwice(a, Pow2(n - 1));
    }
  }

  lemma {:induction false} BitIs(a: nat, i: nat)
    ensures Bit(a, i) <==> a / Pow2(i) % 2 == 1
    decreases i
  {
    if i > 0 {
      BitIs(a / 2, i - 1);
      DivTwice(a, Pow2(i - 1));
    }
  }

  /** Bit `i` of a number. */
  predicate BitAt(a: nat, i: nat) {
    a / Pow2(i) % 2 == 1
  }

  lemma BitwiseIs(op: BitOp, a: nat, b: nat, w: nat)
    ensures forall i: nat | i < w :: BitAt(Bits(op, a, b, w), i) <==> op(BitAt(a, i), BitAt(b, i))
  {
    hide Bits, Pow2;
    forall i: nat | i < w
      ensures BitAt(Bits(op, a, b, w), i) <==> op(BitAt(a, i), BitAt(b, i))
    {
      BitsAt(op, a, b, w, i);
      BitIs(Bits(op, a, b, w), i);
      BitIs(a, i);
      BitIs(b, i);
    }
  }

  /** The signed reading of a word is the number of its class between the two halves of the range. */
  lemma SignedIs(a: nat, w: nat)
    requires w > 0 && a < Pow2(w)
    ensures 0 - Pow2(w - 1) <= AsSigned(a, w) < Pow2(w - 1)
    ensures (AsSigned(a, w) - a) % Pow2(w) == 0
  {
    hide Pow2;
    PowTwice(w);
    Words.MultipleMod(0, Pow2(w));
    Words.MultipleMod(-1, Pow2(w));
  }

  /** `v` is what an operation makes of two words of width `w`, in arithmetic. */
  ghost predicate ResultOf(op: Binary, a: nat, b: nat, w: nat, v: nat)
    requires w > 0
  {
    && v < Pow2(w)
    && (op.Add? ==> v == (a + b) % Pow2(w))
    && (op.Sub? ==> v == (a - b) % Pow2(w))
    && (op.Mul? ==> v == (a * b) % Pow2(w))
    && (op.And? ==> forall i: nat | i < w :: BitAt(v, i) <==> BitAt(a, i) && BitAt(b, i))
    && (op.Or? ==> forall i: nat | i < w :: BitAt(v, i) <==> BitAt(a, i) || BitAt(b, i))
    && (op.Xor? ==> forall i: nat | i < w :: BitAt(v, i) <==> BitAt(a, i) != BitAt(b, i))
    && (op.Shl? ==> b < w && v == a * Pow2(b) % Pow2(w))
    && (op.LShr? ==> b < w && v == a / Pow2(b))
    && (op.AShr? ==> b < w && v == (AsSigned(a, w) / Pow2(b)) % Pow2(w))
  }

  /** What an operation folds to. */
  lemma FoldOperates(op: Binary, l: Expr, r: Expr)
    requires WellTyped(Bin(op, l, r)) && Exact(Bin(op, l, r)) && Denote(Bin(op, l, r)).Some?
    ensures Denote(l).Some? && Denote(r).Some? && !Fold(Bin(op, l, r), false).failed
    ensures ResultOf(op, Denote(l).value, Denote(r).value, Width(l), Fold(Bin(op, l, r), false).value)
  {
    hide Fold, Exact, Pow2, Bits, BitAt, ShiftLeft, ShiftRight, ArithmeticShift, AsSigned;
    FoldIsMeaning(Bin(op, l, r));
    var a, b, w := Denote(l).value, Denote(r).value, Width(l);
    BitwiseIs(AND, a, b, w);
    BitwiseIs(OR, a, b, w);
    BitwiseIs(XOR, a, b, w);
    ShiftLeftIs(a, b);
    ShiftRightIs(a, b);
    ShiftIsDiv(AsSigned(a, w), b);
  }

  /** What a comparison folds to, for each of the ten predicates. */
  lemma FoldCompares(p: Predicate, l: Expr, r: Expr)
    requires WellTyped(ICmp(p, l, r)) && Exact(ICmp(p, l, r)) && Denote(l).Some? && Denote(r).Some?
    ensures Fold(ICmp(p, l, r), false).value <= 1
    ensures
      var holds, a, b, w := Fold(ICmp(p, l, r), false).value == 1, Denote(l).value, Denote(r).value, Width(l);
      var s, t := AsSigned(a, w), AsSigned(b, w);
      && (p.EQ? ==> (holds <==> a == b))
      && (p.NE? ==> (holds <==> a != b))
      && (p.UGT? ==> (holds <==> a > b))
      && (p.UGE? ==> (holds <==> a >= b))
      && (p.ULT? ==> (holds <==> a < b))
      && (p.ULE? ==> (holds <==> a <= b))
      && (p.SGT? ==> (holds <==> s > t))
      && (p.SGE? ==> (holds <==> s >= t))
      && (p.SLT? ==> (holds <==> s < t))
      && (p.SLE? ==> (holds <==> s <= t))
  {
    hide Fold, Exact, Pow2, AsSigned;
    FoldIsMeaning(ICmp(p, l, r));
  }

  // ---------- the error of an expression ----------

  /** What can happen to the recorded error: a leaf without an address adds to it, a comparison drops
      it. */
  datatype Mark = Gap | Drop

  /** The marks met in the order of evaluation. */
  ghost function Trail(e: Expr, err: bool): seq<Mark>
    requires WellTyped(e)
  {
    hide Fold, Pow2;
    match e
    case Const(_, _) => []
    case Global(a) => if a.Some? then [] else [Gap]
    case Bin(_, l, r) => Trail(l, err) + Trail(r, Fold(l, err).failed)
    case ICmp(_, l, r) => Trail(l, err) + Trail(r, Fold(l, err).failed) + [Drop]
    case Select(c, t, f) =>
      Trail(c, err) + (if Fold(c, err).failed then []
                       else if Fold(c, err).value != 0 then Trail(t, false) else Trail(f, false))
    case ZExt(o, _) => Trail(o, err)
    case SExt(o, _) => Trail(o, err)
    case Trunc(o, _) => Trail(o, err)
    case Cast(o) => Trail(o, err)
    case Inst(o) => if err then [] else Trail(o, false)
  }

  /** Whether an error is recorded after these marks: the last one decides. */
  predicate After(marks: seq<Mark>, err: bool) {
    if marks == [] then err else marks[|marks| - 1].Gap?
  }

  /** No comparison drops a gap for good: another follows the last comparison behind one. */
  predicate EndsInGap(marks: seq<Mark>) {
    Gap in marks ==> marks[|marks| - 1].Gap?
  }

  lemma AfterBoth(a: seq<Mark>, b: seq<Mark>, err: bool)
    ensures After(a + b, err) == After(b, After(a, err))
  {
    if b == [] { assert a + b == a; }
  }

  lemma {:induction false} FailedIsLast(e: Expr, err: bool)
    requires WellTyped(e)
    ensures Fold(e, err).failed == After(Trail(e, err), err)
  {
    hide Apply, Mask, Pow2, Signed, FoldSExt, Compare;
    match e
    case Const(_, _) =>
    case Global(_) =>
    case Bin(_, l, r) =>
      FailedIsLast(l, err);
      FailedIsLast(r, Fold(l, err).failed);
      AfterBoth(Trail(l, err), Trail(r, Fold(l, err).failed), err);
    case ICmp(_, _, _) =>
    case Select(c, t, f) =>
      FailedIsLast(c, err);
      if !Fold(c, err).failed {
        var chosen := if Fold(c, err).value != 0 then t else f;
        FailedIsLast(chosen, false);
        AfterBoth(Trail(c, err), Trail(chosen, false), err);
      } else {
        assert Trail(c, err) + [] == Trail(c, err);
      }
    case ZExt(o, _) => FailedIsLast(o, err);
    case SExt(o, _) => FailedIsLast(o, err);
    case Trunc(o, _) => FailedIsLast(o, err);
    case Cast(o) => FailedIsLast(o, err);
    case Inst(o) => if !err { FailedIsLast(o, false); }
  }

  /** No shift that is evaluated shifts by its width or more. */
  predicate ShiftsInRange(e: Expr)
    requires WellTyped(e)
  {
    hide Pow2, Denote;
    match e
    case Const(_, _) => true
    case Global(_) => true
    case Bin(op, l, r) =>
      && ShiftsInRange(l) && ShiftsInRange(r)
      && ((op.Shl? || op.LShr? || op.AShr?) && Denote(r).Some? ==> Denote(r).value < Width(l))
    case ICmp(_, l, r) => ShiftsInRange(l) && ShiftsInRange(r)
    case Select(c, t, f) =>
      && ShiftsInRange(c)
      && (Denote(c).Some? ==> if Denote(c).value == 1 then ShiftsInRange(t) else ShiftsInRange(f))
    case ZExt(o, _) => ShiftsInRange(o)
    case SExt(o, _) => ShiftsInRange(o)
    case Trunc(o, _) => ShiftsInRange(o)
    case Cast(o) => ShiftsInRange(o)
    case Inst(o) => ShiftsInRange(o)
  }

  lemma PairMeaninglessIff(l: Expr, r: Expr)
    requires WellTyped(l) && Exact(l) && WellTyped(r)
    requires Denote(l).None? <==> Gap in Trail(l, false)
    requires Denote(r).None? <==> Gap in Trail(r, false)
    ensures Denote(l).None? || Denote(r).None?
            <==> Gap in Trail(l, false) + Trail(r, Fold(l, false).failed)
  {
    hide Denote, Fold, Trail, Exact, Pow2;
    if Denote(l).Some? {
      FoldIsMeaning(l);
    }
  }

  /** An expression has no value exactly if the folder meets a leaf without an address. */
  lemma {:induction false} MeaninglessIff(e: Expr)
    requires WellTyped(e) && Exact(e) && ShiftsInRange(e)
    ensures Denote(e).None? <==> Gap in Trail(e, false)
  {
    hide Apply, Bits, ShiftLeft, ShiftRight, ArithmeticShift, Mask, Pow2, Signed, AsSigned, FoldSExt;
    hide Compare, Readable, ShiftReadable, Extendable;
    match e
    case Const(_, _) =>
    case Global(_) =>
    case Bin(_, l, r) =>
      MeaninglessIff(l);
      MeaninglessIff(r);
      PairMeaninglessIff(l, r);
    case ICmp(_, l, r) =>
      MeaninglessIff(l);
      MeaninglessIff(r);
      PairMeaninglessIff(l, r);
    case Select(c, t, f) =>
      MeaninglessIff(c);
      if Denote(c).Some? {
        FoldIsMeaning(c);
        OneFits();
        MeaninglessIff(if Denote(c).value == 1 then t else f);
      }
    case ZExt(o, _) => MeaninglessIff(o);
    case SExt(o, _) => MeaninglessIff(o);
    case Trunc(o, _) => MeaninglessIff(o);
    case Cast(o) => MeaninglessIff(o);
    case Inst(o) => MeaninglessIff(o);
  }

  /** An expression without a value is reported, and only such, exactly if no comparison drops its
      error for good. */
  lemma ReportedIff(e: Expr)
    requires WellTyped(e) && Exact(e) && ShiftsInRange(e)
    ensures (Fold(e, false).failed <==> Denote(e).None?) <==> EndsInGap(Trail(e, false))
  {
    hide Denote, Fold, Trail, Exact, ShiftsInRange, Pow2;
    MeaninglessIff(e);
    FailedIsLast(e, false);
  }

  // ---------- a condition on the text of the expression ----------

  /** Some leaf has no address. */
  predicate HasGap(e: Expr) {
    match e
    case Const(_, _) => false
    case Global(a) => a.None?
    case Bin(_, l, r) => HasGap(l) || HasGap(r)
    case ICmp(_, l, r) => HasGap(l) || HasGap(r)
    case Select(c, t, f) => HasGap(c) || HasGap(t) || HasGap(f)
    case ZExt(o, _) => HasGap(o)
    case SExt(o, _) => HasGap(o)
    case Trunc(o, _) => HasGap(o)
    case Cast(o) => HasGap(o)
    case Inst(o) => HasGap(o)
  }

  predicate HasComparison(e: Expr) {
    match e
    case Const(_, _) => false
    case Global(_) => false
    case Bin(_, l, r) => HasComparison(l) || HasComparison(r)
    case ICmp(_, _, _) => true
    case Select(c, t, f) => HasComparison(c) || HasComparison(t) || HasComparison(f)
    case ZExt(o, _) => HasComparison(o)
    case SExt(o, _) => HasComparison(o)
    case Trunc(o, _) => HasComparison(o)
    case Cast(o) => HasComparison(o)
    case Inst(o) => HasComparison(o)
  }

  /** No comparison is over, or comes in an operation after, a leaf without an address. */
  predicate Quiet(e: Expr) {
    match e
    case Const(_, _) => true
    case Global(_) => true
    case Bin(_, l, r) => Quiet(l) && Quiet(r) && (HasGap(l) ==> !HasComparison(r))
    case ICmp(_, l, r) => !HasGap(l) && !HasGap(r)
    case Select(c, t, f) => Quiet(c) && Quiet(t) && Quiet(f)
    case ZExt(o, _) => Quiet(o)
    case SExt(o, _) => Quiet(o)
    case Trunc(o, _) => Quiet(o)
    case Cast(o) => Quiet(o)
    case Inst(o) => Quiet(o)
  }

  lemma {:induction false} TrailOf(e: Expr, err: bool)
    requires WellTyped(e)
    ensures Gap in Trail(e, err) ==> HasGap(e)
    ensures Drop in Trail(e, err) ==> HasComparison(e)
  {
    hide Fold, Pow2;
    match e
    case Const(_, _) =>
    case Global(_) =>
    case Bin(_, l, r) => TrailOf(l, err); TrailOf(r, Fold(l, err).failed);
    case ICmp(_, l, r) => TrailOf(l, err); TrailOf(r, Fold(l, err).failed);
    case Select(c, t, f) => TrailOf(c, err); TrailOf(t, false); TrailOf(f, false);
    case ZExt(o, _) => TrailOf(o, err);
    case SExt(o, _) => TrailOf(o, err);
    case Trunc(o, _) => TrailOf(o, err);
    case Cast(o) => TrailOf(o, err);
    case Inst(o) => if !err { TrailOf(o, false); }
  }

  lemma EndsInGapBoth(a: seq<Mark>, b: seq<Mark>)
    requires EndsInGap(a) && EndsInGap(b) && (Gap in a ==> Drop !in b)
    ensures EndsInGap(a + b)
  {
    if b == [] {
      assert a + b == a;
    } else {
      assert b[|b| - 1] in b;
    }
  }

  lemma {:induction false} QuietTrail(e: Expr, err: bool)
    requires WellTyped(e) && Quiet(e)
    ensures EndsInGap(Trail(e, err))
  {
    hide Fold, Pow2, HasGap, HasComparison;
    match e
    case Const(_, _) =>
    case Global(_) =>
    case Bin(_, l, r) =>
      var again := Fold(l, err).failed;
      QuietTrail(l, err);
      QuietTrail(r, again);
      TrailOf(l, err);
      TrailOf(r, again);
      EndsInGapBoth(Trail(l, err), Trail(r, again));
    case ICmp(_, l, r) =>
      TrailOf(l, err);
      TrailOf(r, Fold(l, err).failed);
    case Select(c, t, f) =>
      QuietTrail(c, err);
      FailedIsLast(c, err);
      if Fold(c, err).failed {
        assert Trail(c, err) + [] == Trail(c, err);
      } else {
        var chosen := if Fold(c, err).value != 0 then t else f;
        QuietTrail(chosen, false);
        EndsInGapBoth(Trail(c, err), Trail(chosen, false));
      }
    case ZExt(o, _) => QuietTrail(o, err);
    case SExt(o, _) => QuietTrail(o, err);
    case Trunc(o, _) => QuietTrail(o, err);
    case Cast(o) => QuietTrail(o, err);
    case Inst(o) => if !err { QuietTrail(o, false); }
  }

  /** Such expressions are reported exactly if they have no value, whatever else they contain. */
  lemma QuietReported(e: Expr)
    requires WellTyped(e) && Exact(e) && ShiftsInRange(e) && Quiet(e)
    ensures Fold(e, false).failed <==> Denote(e).None?
  {
    hide Denote, Fold, Trail, Exact, ShiftsInRange, Quiet, Pow2;
    ReportedIff(e);
    QuietTrail(e, false);
  }

  /** Two that are not: comparing a global without an address with zero, and adding a comparison of
      other numbers to it, fold to a number and no error. */
  lemma ComparisonDropsErrors()
    ensures
      var e := ICmp(EQ, Global(None), Const(64, 0));
      WellTyped(e) && Denote(e) == None && Fold(e, false) == Folded(1, false)
    ensures
      var e := Bin(Add, Trunc(Global(None), 1), ICmp(EQ, Const(64, 0), Const(64, 0)));
      WellTyped(e) && Denote(e) == None && !Fold(e, false).failed
  {
    hide Pow2, Signed, Apply, Mask;
  }

  /** What is given up on account of an error is zero. */
  lemma StoppedIsZero(c: Expr, t: Expr, f: Expr, o: Expr)
    requires WellTyped(Select(c, t, f)) && Fold(c, false).failed && WellTyped(Inst(o))
    ensures Fold(Select(c, t, f), false) == Folded(0, true) && Fold(Inst(o), true) == Folded(0, true)
    ensures Fold(Global(None), false) == Folded(0, true)
  {
    hide Pow2;
  }
}
