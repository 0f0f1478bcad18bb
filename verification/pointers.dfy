/** Turning integer addresses into pointers: indexed pointers and the trees they come from. */
module Pointers {
  import opened Options
  import opened Words

  /** A type pointed to, by name and allocation size. */
  datatype Elem = Elem(name: nat, size: nat)

  type Sized = e: Elem | 0 < e.size < 0x8000_0000 witness Elem(0, 1)

  /** Values of the program before and after.  `Scaled` and `Offset` are the pointers the rewriting
      makes: an index in units of an element, and a number of bytes; `Indexed` indexes bytes by the
      low half of a value. */
  datatype Value =
    | Const(c: int)
    | IntVar(id: nat)
    | PtrVar(id: nat, to: Sized)
    | Global(id: nat, to: Sized)
    | Add(lhs: Value, rhs: Value)
    | Sub(lhs: Value, rhs: Value)
    | PtrToInt(p: Value)
    | IntToPtr(i: Value, to: Sized)
    | BitCast(p: Value, to: Sized)
    | Scaled(base: Value, to: Sized, index: int)
    | Offset(base: Value, bytes: int, to: Sized)
    | Indexed(base: Value, amount: Value, to: Sized)

  /** What the variables hold, and where the globals are. */
  type Env = (bool, nat) -> int

  /** A number read as a signed word of 32 bits. */
  function Signed32(x: int): int {
    if x % U32 < U32 / 2 then x % U32 else x % U32 - U32
  }

  /** The value of an address, up to multiples of 2 to the 64. */
  function Address(v: Value, env: Env): int {
    match v
    case Const(c) => c
    case IntVar(id) => env(false, id)
    case PtrVar(id, _) => env(false, id)
    case Global(id, _) => env(true, id)
    case Add(l, r) => Address(l, env) + Address(r, env)
    case Sub(l, r) => Address(l, env) - Address(r, env)
    case PtrToInt(p) => Address(p, env)
    case IntToPtr(i, _) => Address(i, env)
    case BitCast(p, _) => Address(p, env)
    case Scaled(b, to, n) => Address(b, env) + n * to.size
    case Offset(b, n, _) => Address(b, env) + n
    case Indexed(b, i, _) => Address(b, env) + Signed32(Address(i, env))
  }

  /** Two addresses are the same word. */
  predicate Same(a: int, b: int) {
    a % U64 == b % U64
  }

  lemma SameOffset(a: int, b: int, c: int)
    requires Same(a, b)
    ensures Same(a + c, b + c) && Same(c - a, c - b) && Same(a - c, b - c)
  {
    ModEqual(a, b, U64);
    ModEqual(b, a, U64);
    ModEqual(a + c, b + c, U64);
    ModEqual(c - a, c - b, U64);
    ModEqual(a - c, b - c, U64);
  }

  /** A signed word is the number of its class from the least to the greatest of 32 bits. */
  lemma Signed32Is(x: int)
    ensures -0x8000_0000 <= Signed32(x) < 0x8000_0000
    ensures (Signed32(x) - x) % 0x1_0000_0000 == 0
  {
    MultipleMod(0, U32);
    MultipleMod(-1, U32);
    ModEqual(Signed32(x), x, U32);
  }

  /** A constant of 64 bits fits if it is in the lowest or the highest part of the range. */
  lemma FitsIff(c: nat)
    requires c < U64
    ensures Fits(c) <==> c < 0x8000_0000 || c >= U64 - 0x8000_0000
  {
    hide Signed32;
    var s := Signed32(c);
    Signed32Is(c);
    ModEqual(s, c, U64);
    SmallMod(c, U64);
    if s >= 0 {
      SmallMod(s, U64);
    } else {
      ModEqual(s, s + U64, U64);
      MultipleMod(-1, U64);
      SmallMod(s + U64, U64);
    }
    if c < 0x8000_0000 || c >= U64 - 0x8000_0000 {
      SignedNear(c);
    }
  }

  lemma SignedNear(c: nat)
    requires c < 0x8000_0000 || U64 - 0x8000_0000 <= c < U64
    ensures Signed32(c) == if c < 0x8000_0000 then c else c - U64
  {
    if c >= 0x8000_0000 {
      ModEqual(c, c - U64 + U32, U32);
      MultipleMod(U32 - 1, U32);
      SmallMod(c - U64 + U32, U32);
    }
  }

  /** What a pointer points to; none for integers. */
  function PointsTo(v: Value): Option<Sized> {
    match v
    case PtrVar(_, to) => Some(to)
    case Global(_, to) => Some(to)
    case IntToPtr(_, to) => Some(to)
    case BitCast(_, to) => Some(to)
    case Scaled(_, to, _) => Some(to)
    case Offset(_, _, to) => Some(to)
    case Indexed(_, _, to) => Some(to)
    case _ => None
  }

  /** A constant fits in a signed word of 32 bits. */
  predicate Fits(c: int) {
    Same(Signed32(c), c)
  }

  // ---------- indexed pointers ----------

  /** A pointer without its casts and constant offsets, and the sum of those. */
  function Strip(v: Value): (Value, int) {
    match v
    case BitCast(p, _) => Strip(p)
    case Scaled(b, to, n) => var (s, k) := Strip(b); (s, k + n * to.size)
    case Offset(b, n, _) => var (s, k) := Strip(b); (s, k + n)
    case _ => (v, 0)
  }

  lemma {:induction false} StripAddress(v: Value, env: Env)
    ensures Address(Strip(v).0, env) + Strip(v).1 == Address(v, env)
  {
    match v
    case BitCast(p, _) => StripAddress(p, env);
    case Scaled(b, _, _) => StripAddress(b, env);
    case Offset(b, _, _) => StripAddress(b, env);
    case _ =>
  }

  /** A cast, unless the type is right already. */
  function CastTo(v: Value, to: Sized): Value {
    if PointsTo(v) == Some(to) then v else BitCast(v, to)
  }

  lemma CastAddress(v: Value, to: Sized, env: Env)
    ensures Address(CastTo(v, to), env) == Address(v, env)
  {
  }

  /** Division toward zero, as the host's integers divide. */
  function Truncated(a: int, b: int): int
    requires b > 0
  {
    if a >= 0 then a / b else -(-a / b)
  }

  /** The sizes of the two element types divide each other, and the index is a whole number of
      elements of the first. */
  predicate Divides(index: int, from: Sized, to: Sized) {
    (from.size % to.size == 0 || to.size % from.size == 0)
    && (if index < 0 then -index % from.size == 0 else index % from.size == 0)
  }

  /** A pointer `rhs` bytes from `lhs`. */
  function GetIndexedPointer(lhs: Value, rhs: Value, to: Sized): Value
    requires PointsTo(lhs).Some?
  {
    if rhs.Const? then
      var index := Signed32(rhs.c);
      var (base, k) := Strip(lhs);
      var from := PointsTo(lhs).value;
      if base.Global? && k == 0 then BitCast(base, to)
      else if base.Global? && k > 0 then Offset(base, k, to)
      else if Divides(index, from, to) then CastTo(Scaled(lhs, from, Truncated(index, from.size)), to)
      else Indexed(lhs, rhs, to)
    else Indexed(lhs, rhs, to)
  }

  /** The guard of the branch that forgets the index. */
  predicate ForgetsIndex(lhs: Value, rhs: Value) {
    rhs.Const? && Strip(lhs).0.Global? && Strip(lhs).1 >= 0
  }

  lemma TruncatedExact(a: int, b: int)
    requires b > 0 && (if a < 0 then -a % b == 0 else a % b == 0)
    ensures Truncated(a, b) * b == a
  {
    var m := if a < 0 then -a else a;
    assert m == b * (m / b) + m % b;
  }

  /** The pointer made, in terms of the pointer and the value it was made from. */
  lemma IndexedAddress(lhs: Value, rhs: Value, to: Sized, env: Env)
    requires PointsTo(lhs).Some?
    ensures Address(GetIndexedPointer(lhs, rhs, to), env)
            == Address(lhs, env) + if ForgetsIndex(lhs, rhs) then 0 else Signed32(Address(rhs, env))
  {
    hide Signed32;
    if rhs.Const? {
      var index, from := Signed32(rhs.c), PointsTo(lhs).value;
      var (base, k) := Strip(lhs);
      StripAddress(lhs, env);
      if !ForgetsIndex(lhs, rhs) && Divides(index, from, to) {
        TruncatedExact(index, from.size);
        CastAddress(Scaled(lhs, from, Truncated(index, from.size)), to, env);
      }
    }
  }

  /** The scaled form of an index is the same address as the plain one in bytes. */
  lemma ScaledIsBytes(lhs: Value, from: Sized, to: Sized, index: int, env: Env)
    requires Divides(index, from, to)
    ensures Address(Scaled(lhs, from, Truncated(index, from.size)), env) == Address(Offset(lhs, index, to), env)
  {
    TruncatedExact(index, from.size);
  }

  /** An indexed pointer is the sum of its parts exactly when the index fits in 32 bits; behind a
      global variable, at no negative offset from it, only when the index is zero. */
  lemma IndexedIff(lhs: Value, rhs: Value, to: Sized, env: Env)
    requires PointsTo(lhs).Some?
    ensures Same(Address(GetIndexedPointer(lhs, rhs, to), env), Address(lhs, env) + Address(rhs, env))
            <==> if ForgetsIndex(lhs, rhs) then Same(rhs.c, 0) else Fits(Address(rhs, env))
  {
    hide Signed32;
    IndexedAddress(lhs, rhs, to, env);
    var a, b := Address(lhs, env), Address(rhs, env);
    ModEqual(a, a + b, U64);
    ModEqual(a + Signed32(b), a + b, U64);
    ModEqual(Signed32(b), b, U64);
    ModEqual(0, b, U64);
    SmallMod(0, U64);
  }

  /** One size is a multiple of the other. */
  ghost predicate Commensurable(a: Sized, b: Sized) {
    exists k: nat :: a.size == k * b.size || b.size == k * a.size
  }

  lemma MultipleIff(a: nat, b: nat)
    requires b > 0
    ensures a % b == 0 <==> exists k: nat :: a == k * b
  {
    if a % b == 0 {
      var k: nat := a / b;
      assert a == b * (a / b) + a % b;
      assert a == k * b;
    }
    if k: nat :| a == k * b {
      MultipleMod(k, b);
    }
  }

  lemma DividesIff(index: int, from: Sized, to: Sized)
    ensures Divides(index, from, to) <==> Commensurable(from, to) && exists j: int :: index == j * from.size
  {
    MultipleIff(from.size, to.size);
    MultipleIff(to.size, from.size);
    var m: nat := if index < 0 then -index else index;
    MultipleIff(m, from.size);
    if k: nat :| m == k * from.size {
      var j: int := if index < 0 then 0 - k else k;
      assert index == j * from.size;
    }
    if j: int :| index == j * from.size {
      NotNegative(j, from.size);
      assert m == (if index < 0 then -j else j) * from.size;
    }
  }

  lemma NotNegative(j: int, n: nat)
    requires n > 0
    ensures j < 0 ==> j * n < 0
    ensures j >= 0 ==> j * n >= 0
  {
  }

  /** A constant index that is a whole number of elements is used as such, if the size of one type is
      a multiple of the other's; any other is an index of bytes. */
  lemma IndexedForm(lhs: Value, c: int, to: Sized)
    requires PointsTo(lhs).Some? && !Strip(lhs).0.Global?
    ensures
      var from, index, r := PointsTo(lhs).value, Signed32(c), GetIndexedPointer(lhs, Const(c), to);
      if Commensurable(from, to) && exists j: int :: index == j * from.size then
        exists j: int :: index == j * from.size && r == CastTo(Scaled(lhs, from, j), to)
      else r == Indexed(lhs, Const(c), to)
  {
    hide Signed32, Strip, CastTo, Truncated, Commensurable, Divides;
    var from, index := PointsTo(lhs).value, Signed32(c);
    DividesIff(index, from, to);
    if Divides(index, from, to) {
      ExactQuotient(index, from, to);
    }
  }

  lemma ExactQuotient(index: int, from: Sized, to: Sized)
    requires Divides(index, from, to)
    ensures index == Truncated(index, from.size) * from.size
  {
    TruncatedExact(index, from.size);
  }

  // ---------- trees ----------

  /** The pointer an integer was made from. */
  function FindPointer(v: Value): Option<Value> {
    match v
    case PtrToInt(p) => if FindPointer(p).Some? then FindPointer(p) else Some(p)
    case _ => None
  }

  /** Casts are applied to pointers and integers as their names say. */
  predicate WellTyped(v: Value) {
    match v
    case Add(l, r) => WellTyped(l) && WellTyped(r) && PointsTo(l).None? && PointsTo(r).None?
    case Sub(l, r) => WellTyped(l) && WellTyped(r) && PointsTo(l).None? && PointsTo(r).None?
    case PtrToInt(p) => WellTyped(p) && PointsTo(p).Some?
    case IntToPtr(i, _) => WellTyped(i) && PointsTo(i).None?
    case BitCast(p, _) => WellTyped(p) && PointsTo(p).Some?
    case Scaled(b, _, _) => WellTyped(b) && PointsTo(b).Some?
    case Offset(b, _, _) => WellTyped(b) && PointsTo(b).Some?
    case Indexed(b, i, _) => WellTyped(b) && PointsTo(b).Some?
    case _ => true
  }

  lemma FindPointerMeans(v: Value, env: Env)
    requires WellTyped(v) && FindPointer(v).Some?
    ensures PointsTo(FindPointer(v).value).Some? && Address(FindPointer(v).value, env) == Address(v, env)
  {
  }

  /** Negating a 32-bit constant. */
  function Negated(c: int): int {
    Signed32(-Signed32(c))
  }

  /** A pointer to an element of the given type for an address.  `shared` tells which instructions
      have more than one use. */
  function GetPointer(v: Value, to: Sized, shared: Value -> bool): (r: Value)
    requires WellTyped(v)
    ensures PointsTo(r) == Some(to)
    decreases v
  {
    if v.IntToPtr? then GetPointer(v.i, to, shared)
    else if v.PtrToInt? then GetPointer(v.p, to, shared)
    else if PointsTo(v) == Some(to) then v
    else if v.Const? then IntToPtr(v, to)
    else if v.Add? then
      var base := AddBase(v.lhs, v.rhs, to, shared);
      if base.None? then IntToPtr(v, to)
      else GetIndexedPointer(base.value.0, if base.value.1 then v.lhs else v.rhs, to)
    else if v.Sub? then
      if FindPointer(v.lhs).None? || !v.rhs.Const? then IntToPtr(v, to)
      else
        assert PointsTo(FindPointer(v.lhs).value).Some? by {
          FindPointerMeans(v.lhs, (b, n) => 0);
        }
        GetIndexedPointer(FindPointer(v.lhs).value, Const(Negated(v.rhs.c)), to)
    else if v.BitCast? then GetPointer(v.p, to, shared)
    else if v.IntVar? then IntToPtr(v, to)
    else BitCast(v, to)
  }

  /** The operand of an addition that is a pointer or is made one, and whether it is the right one. */
  function AddBase(l: Value, r: Value, to: Sized, shared: Value -> bool): (b: Option<(Value, bool)>)
    requires WellTyped(l) && WellTyped(r)
    ensures b.Some? ==> PointsTo(b.value.0).Some?
    decreases Add(l, r), 0
  {
    var p, q := FindPointer(l), FindPointer(r);
    if p.Some? && q.Some? then None
    else if q.Some? then
      assert PointsTo(q.value).Some? by {
        FindPointerMeans(r, (b, n) => 0);
      }
      Some((q.value, true))
    else if p.Some? then
      assert PointsTo(p.value).Some? by {
        FindPointerMeans(l, (b, n) => 0);
      }
      Some((p.value, false))
    else if !l.Const? && r.Const? && shared(l) then Some((GetPointer(l, to, shared), false))
    else if l.Const? && !r.Const? && shared(r) then Some((GetPointer(r, to, shared), true))
    else None
  }

  // ---------- when the address is kept ----------

  /** No leaf is a global. */
  predicate NoGlobal(v: Value) {
    match v
    case Global(_, _) => false
    case Add(l, r) => NoGlobal(l) && NoGlobal(r)
    case Sub(l, r) => NoGlobal(l) && NoGlobal(r)
    case PtrToInt(p) => NoGlobal(p)
    case IntToPtr(i, _) => NoGlobal(i)
    case BitCast(p, _) => NoGlobal(p)
    case Scaled(b, _, _) => NoGlobal(b)
    case Offset(b, _, _) => NoGlobal(b)
    case Indexed(b, i, _) => NoGlobal(b) && NoGlobal(i)
    case _ => true
  }

  /** A number added to `part` fits in 32 bits, and is no constant on top of a global, but zero. */
  predicate OffsetFits(part: Value, index: Value, env: Env) {
    && Fits(Address(index, env))
    && (index.Const? ==> NoGlobal(part) || Same(index.c, 0))
  }

  /** The offsets that can become indices fit: what is added to a pointer, a constant added to
      anything else, and the negation of a constant subtracted from a pointer. */
  predicate OffsetsFit(v: Value, env: Env) {
    match v
    case IntToPtr(i, _) => OffsetsFit(i, env)
    case PtrToInt(p) => OffsetsFit(p, env)
    case BitCast(p, _) => OffsetsFit(p, env)
    case Add(l, r) =>
      if l.PtrToInt? && r.PtrToInt? then true
      else if l.PtrToInt? then OffsetFits(l, r, env)
      else if r.PtrToInt? then OffsetFits(r, l, env)
      else
        && (r.Const? && !l.Const? ==> OffsetsFit(l, env) && OffsetFits(l, r, env))
        && (l.Const? && !r.Const? ==> OffsetsFit(r, env) && OffsetFits(r, l, env))
    case Sub(l, r) =>
      l.PtrToInt? && r.Const? ==> Fits(-r.c) && (NoGlobal(l) || Same(r.c, 0))
    case _ => true
  }

  lemma {:induction false} StripNoGlobal(v: Value)
    requires NoGlobal(v)
    ensures !Strip(v).0.Global?
  {
    match v
    case BitCast(p, _) => StripNoGlobal(p);
    case Scaled(b, _, _) => StripNoGlobal(b);
    case Offset(b, _, _) => StripNoGlobal(b);
    case _ =>
  }

  lemma {:induction false} FindNoGlobal(v: Value)
    requires NoGlobal(v) && FindPointer(v).Some?
    ensures NoGlobal(FindPointer(v).value)
  {
    if FindPointer(v.p).Some? { FindNoGlobal(v.p); }
  }

  lemma IndexedNoGlobal(lhs: Value, rhs: Value, to: Sized)
    requires PointsTo(lhs).Some? && NoGlobal(lhs) && NoGlobal(rhs)
    ensures NoGlobal(GetIndexedPointer(lhs, rhs, to))
  {
    hide Strip, Signed32, Divides, Truncated;
    StripNoGlobal(lhs);
  }

  /** A pointer found in a tree without globals is without globals. */
  lemma {:induction false} GetNoGlobal(v: Value, to: Sized, shared: Value -> bool)
    requires WellTyped(v) && NoGlobal(v)
    ensures NoGlobal(GetPointer(v, to, shared))
    decreases v
  {
    hide GetIndexedPointer, Negated;
    if v.IntToPtr? {
      GetNoGlobal(v.i, to, shared);
    } else if v.PtrToInt? {
      GetNoGlobal(v.p, to, shared);
    } else if PointsTo(v) != Some(to) {
      if v.Add? {
        var base := AddBase(v.lhs, v.rhs, to, shared);
        if base.Some? {
          var (b, right) := base.value;
          var part, index := if right then v.rhs else v.lhs, if right then v.lhs else v.rhs;
          if FindPointer(part).Some? { FindNoGlobal(part); } else { GetNoGlobal(part, to, shared); }
          IndexedNoGlobal(b, index, to);
        }
      } else if v.Sub? {
        if FindPointer(v.lhs).Some? && v.rhs.Const? {
          FindPointerMeans(v.lhs, (b, n) => 0);
          FindNoGlobal(v.lhs);
          IndexedNoGlobal(FindPointer(v.lhs).value, Const(Negated(v.rhs.c)), to);
        }
      } else if v.BitCast? {
        GetNoGlobal(v.p, to, shared);
      }
    }
  }

  lemma SameTransitive(a: int, b: int, c: int)
    requires Same(a, b) && Same(b, c)
    ensures Same(a, c)
  {
  }

  lemma Reflexive(a: int)
    ensures Same(a, a)
  {
  }

  /** A pointer found for an address denotes that address, whatever instructions are shared. */
  lemma {:induction false} PointerDenotes(v: Value, to: Sized, shared: Value -> bool, env: Env)
    requires WellTyped(v) && OffsetsFit(v, env)
    ensures Same(Address(GetPointer(v, to, shared), env), Address(v, env))
    decreases v
  {
    hide Signed32, Same, GetIndexedPointer, Strip, NoGlobal, Fits, Negated;
    Reflexive(Address(v, env));
    if v.IntToPtr? {
      PointerDenotes(v.i, to, shared, env);
    } else if v.PtrToInt? {
      PointerDenotes(v.p, to, shared, env);
    } else if PointsTo(v) != Some(to) {
      if v.Add? {
        AddDenotes(v.lhs, v.rhs, to, shared, env);
      } else if v.Sub? {
        if FindPointer(v.lhs).Some? && v.rhs.Const? {
          SubKept(v.lhs, v.rhs.c, to, shared, env);
        }
      } else if v.BitCast? {
        PointerDenotes(v.p, to, shared, env);
      }
    }
  }

  lemma {:induction false} AddDenotes(l: Value, r: Value, to: Sized, shared: Value -> bool, env: Env)
    requires WellTyped(Add(l, r)) && OffsetsFit(Add(l, r), env)
    ensures Same(Address(GetPointer(Add(l, r), to, shared), env), Address(Add(l, r), env))
    decreases Add(l, r), 0
  {
    hide Signed32, Same, GetIndexedPointer, Strip, ForgetsIndex, Fits, NoGlobal, OffsetFits;
    var base := AddBase(l, r, to, shared);
    if base.None? {
      Reflexive(Address(Add(l, r), env));
    } else {
      var (b, right) := base.value;
      var part, index := if right then r else l, if right then l else r;
      if FindPointer(part).Some? {
        FindPointerMeans(part, env);
        Reflexive(Address(part, env));
        IndexKept(part, b, index, to, shared, env);
      } else {
        PointerDenotes(part, to, shared, env);
        IndexKept(part, b, index, to, shared, env);
      }
      IndexedIff(b, index, to, env);
      SameOffset(Address(b, env), Address(part, env), Address(index, env));
      SameTransitive(Address(GetIndexedPointer(b, index, to), env), Address(b, env) + Address(index, env),
                     Address(part, env) + Address(index, env));
    }
  }

  /** What fits the tree fits the pointer found in it. */
  lemma IndexKept(part: Value, base: Value, index: Value, to: Sized, shared: Value -> bool, env: Env)
    requires WellTyped(part) && OffsetFits(part, index, env)
    requires base == if FindPointer(part).Some? then FindPointer(part).value else GetPointer(part, to, shared)
    ensures if ForgetsIndex(base, index) then Same(index.c, 0) else Fits(Address(index, env))
  {
    hide Signed32, Same, GetPointer, Strip, Fits, NoGlobal;
    if index.Const? && NoGlobal(part) {
      if FindPointer(part).Some? { FindNoGlobal(part); } else { GetNoGlobal(part, to, shared); }
      StripNoGlobal(base);
    }
  }

  lemma NegatedIs(c: int)
    ensures Negated(c) == Signed32(-c) && Signed32(Negated(c)) == Negated(c)
  {
    var s := Signed32(c);
    ModEqual(s, c, U32);
    ModEqual(-s, -c, U32);
    assert s % U32 == c % U32 by {
      MultipleMod(-1, U32);
      MultipleMod(0, U32);
    }
    MultipleMod(if -c % U32 < U32 / 2 then 0 else -1, U32);
    ModEqual(Signed32(-c), -c, U32);
  }

  /** Subtracting a constant from a pointer is right exactly when the negated constant fits: not for
      the least 32-bit number; and behind a global only for zero. */
  lemma SubStepIff(l: Value, c: int, to: Sized, shared: Value -> bool, env: Env)
    requires WellTyped(Sub(l, Const(c))) && FindPointer(l).Some?
    ensures Same(Address(GetPointer(Sub(l, Const(c)), to, shared), env), Address(Sub(l, Const(c)), env))
            <==> if ForgetsIndex(FindPointer(l).value, Const(Negated(c))) then Same(c, 0) else Fits(-c)
  {
    hide Signed32, GetIndexedPointer, Strip, ForgetsIndex, Negated;
    var b, n := FindPointer(l).value, Negated(c);
    FindPointerMeans(l, env);
    IndexedAddress(b, Const(n), to, env);
    NegatedIs(c);
    var a := Address(b, env);
    ModEqual(a + n, a - c, U64);
    ModEqual(n, -c, U64);
    ModEqual(a, a - c, U64);
    ModEqual(c, 0, U64);
  }

  lemma SubKept(l: Value, c: int, to: Sized, shared: Value -> bool, env: Env)
    requires WellTyped(Sub(l, Const(c))) && OffsetsFit(Sub(l, Const(c)), env) && FindPointer(l).Some?
    ensures Same(Address(GetPointer(Sub(l, Const(c)), to, shared), env), Address(Sub(l, Const(c)), env))
  {
    hide Signed32, Same, GetIndexedPointer, GetPointer, Strip, Fits, NoGlobal, Negated;
    SubStepIff(l, c, to, shared, env);
    if NoGlobal(l) {
      FindNoGlobal(l);
      StripNoGlobal(FindPointer(l).value);
    }
  }

  // ---------- how the pointer is made ----------

  lemma FindIs(v: Value)
    requires WellTyped(v)
    ensures FindPointer(v) == if v.PtrToInt? then Some(v.p) else None
  {
  }

  /** An addition with one operand made from a pointer is indexed from that pointer by the other. */
  lemma AdditionIndexed(l: Value, r: Value, to: Sized, shared: Value -> bool)
    requires WellTyped(Add(l, r)) && (l.PtrToInt? != r.PtrToInt?)
    ensures
      var p, index := if l.PtrToInt? then l.p else r.p, if l.PtrToInt? then r else l;
      PointsTo(p).Some? && GetPointer(Add(l, r), to, shared) == GetIndexedPointer(p, index, to)
  {
    hide GetIndexedPointer, FindPointer;
    FindIs(l);
    FindIs(r);
  }

  /** No integer is turned into a pointer. */
  predicate NoCast(v: Value) {
    match v
    case Add(l, r) => NoCast(l) && NoCast(r)
    case Sub(l, r) => NoCast(l) && NoCast(r)
    case PtrToInt(p) => NoCast(p)
    case IntToPtr(_, _) => false
    case BitCast(p, _) => NoCast(p)
    case Scaled(b, _, _) => NoCast(b)
    case Offset(b, _, _) => NoCast(b)
    case Indexed(b, i, _) => NoCast(b) && NoCast(i)
    case _ => true
  }

  /** An address that comes from a pointer: one already, a pointer plus or minus something, or a
      shared address that does plus a constant. */
  predicate FromPointer(v: Value, shared: Value -> bool) {
    match v
    case Const(_) => false
    case IntVar(_) => false
    case Add(l, r) =>
      || l.PtrToInt? != r.PtrToInt?
      || (!l.PtrToInt? && r.Const? && !l.Const? && shared(l) && FromPointer(l, shared))
      || (!r.PtrToInt? && l.Const? && !r.Const? && shared(r) && FromPointer(r, shared))
    case Sub(l, r) => l.PtrToInt? && r.Const?
    case _ => true
  }

  /** Stripping casts and constant offsets leaves everything that turns integers into pointers. */
  lemma {:induction false} StripKeepsCasts(v: Value)
    ensures NoCast(Strip(v).0) <==> NoCast(v)
  {
    match v
    case BitCast(p, _) => StripKeepsCasts(p);
    case Scaled(b, _, _) => StripKeepsCasts(b);
    case Offset(b, _, _) => StripKeepsCasts(b);
    case _ =>
  }

  lemma IndexedNoCast(lhs: Value, rhs: Value, to: Sized)
    requires PointsTo(lhs).Some? && NoCast(lhs) && NoCast(rhs)
    ensures NoCast(GetIndexedPointer(lhs, rhs, to))
  {
    hide Strip, Signed32, Divides, Truncated;
    StripKeepsCasts(lhs);
  }

  /** In a tree that turns no integer into a pointer, the pointer found does not either exactly when
      the address comes from one. */
  lemma {:induction false} TracedIff(v: Value, to: Sized, shared: Value -> bool)
    requires WellTyped(v) && NoCast(v)
    ensures NoCast(GetPointer(v, to, shared)) <==> FromPointer(v, shared)
    decreases v
  {
    hide GetIndexedPointer, Negated, Strip;
    if v.PtrToInt? {
      TracedIff(v.p, to, shared);
    } else if PointsTo(v) != Some(to) {
      if v.Add? {
        AdditionTraced(v.lhs, v.rhs, to, shared);
      } else if v.Sub? {
        if v.lhs.PtrToInt? && v.rhs.Const? {
          IndexedNoCast(v.lhs.p, Const(Negated(v.rhs.c)), to);
        }
        FindIs(v.lhs);
      } else if v.BitCast? {
        TracedIff(v.p, to, shared);
      }
    }
  }

  lemma {:induction false} AdditionTraced(l: Value, r: Value, to: Sized, shared: Value -> bool)
    requires WellTyped(Add(l, r)) && NoCast(Add(l, r))
    ensures NoCast(GetPointer(Add(l, r), to, shared)) <==> FromPointer(Add(l, r), shared)
    decreases Add(l, r), 0
  {
    hide GetIndexedPointer, Strip, FindPointer;
    FindIs(l);
    FindIs(r);
    if l.PtrToInt? != r.PtrToInt? {
      AdditionIndexed(l, r, to, shared);
      if l.PtrToInt? { IndexedNoCast(l.p, r, to); } else { IndexedNoCast(r.p, l, to); }
    } else if !l.PtrToInt? && r.Const? && !l.Const? && shared(l) {
      TracedIff(l, to, shared);
      IndexedCast(GetPointer(l, to, shared), r, to);
    } else if !l.PtrToInt? && l.Const? && !r.Const? && shared(r) {
      TracedIff(r, to, shared);
      IndexedCast(GetPointer(r, to, shared), l, to);
    }
  }

  lemma IndexedCast(lhs: Value, rhs: Value, to: Sized)
    requires PointsTo(lhs).Some? && rhs.Const?
    ensures NoCast(GetIndexedPointer(lhs, rhs, to)) <==> NoCast(lhs)
  {
    hide Strip, Signed32, Divides, Truncated;
    StripKeepsCasts(lhs);
  }
}
