/** Parsing a printed type gives the type back in normal form, and exactly when it does. */
module TypeRoundTrip {
  import opened Words
  import opened Types
  import opened TypePrinter
  import opened TypeParser

  // ---------- the normal form ----------

  function NormInt(w: nat): PTy {
    if w <= 8 then PInt(8)
    else if w <= 16 then PInt(16)
    else if w <= 32 then PInt(32)
    else if w <= 64 then PInt(64)
    else if w <= 128 then PInt(128)
    else PArray(PInt(8), (w + 7) / 8)
  }

  function Bytes(n: nat): PTy {
    PArray(PInt(8), n)
  }

  /** Integers are rounded up, structures become their ids, a pointer to something without a
      size becomes a pointer to bytes. */
  function Norm(ty: Ty, ids: Ids, defs: seq<StructDef>): PTy {
    match ty
    case Void => PVoid
    case Scalar(kind) => PScalar(kind)
    case Int(w) => NormInt(w)
    case Func(params, variadic, ret) => PFunc(NormAll(params, ids, defs), variadic, Norm(ret, ids, defs))
    case Struct(u) => PRef(if u in ids then ids[u] else 0)
    case Vector(elem, n) => PVector(Norm(elem, ids, defs), n)
    case Array(elem, n) => PArray(Norm(elem, ids, defs), n)
    case Pointer(elem) => PPointer(if IsSized(elem, defs) then Norm(elem, ids, defs) else PInt(8))
    case Other(store, alloc) =>
      if alloc > store then PTuple([Bytes(store), Bytes(alloc - store)]) else Bytes(store)
  }

  function NormAll(tys: seq<Ty>, ids: Ids, defs: seq<StructDef>): (r: seq<PTy>)
    ensures |r| == |tys|
  {
    if tys == [] then [] else [Norm(tys[0], ids, defs)] + NormAll(tys[1..], ids, defs)
  }

  function PaddingTypes(n: nat): seq<PTy> {
    if n == 0 then [] else if n == 1 then [PInt(8)] else [Bytes(n)]
  }

  /** A structure body with its padding made explicit. */
  function NormFields(fields: seq<Field>, expected: nat, alloc: nat, ids: Ids, defs: seq<StructDef>): seq<PTy> {
    if fields == [] then PaddingTypes(Gap(expected, alloc))
    else
      var f := fields[0];
      PaddingTypes(Gap(expected, f.offset)) + [Norm(f.ty, ids, defs)]
      + NormFields(fields[1..], f.offset + f.size, alloc, ids, defs)
  }

  // ---------- when the round trip works ----------

  /** No structure in `open` is met again, by any path through structure elements, array
      elements and pointers to sized types; no array is empty and no structure is empty. */
  ghost predicate Good(ty: Ty, open: set<nat>, defs: seq<StructDef>)
    decreases Universe(defs) - open, ty
  {
    match ty
    case Func(params, _, ret) => (forall p | p in params :: Good(p, open, defs)) && Good(ret, open, defs)
    case Struct(u) =>
      && u < |defs| && defs[u].Body? && u !in open
      && (defs[u].fields != [] || defs[u].alloc != 0)
      && assert u in Universe(defs) - open;
         forall f | f in defs[u].fields :: Good(f.ty, open + {u}, defs)
    case Vector(elem, _) => Good(elem, open, defs)
    case Array(elem, n) => n != 0 && Good(elem, open, defs)
    case Pointer(elem) => !IsSized(elem, defs) || Good(elem, open, defs)
    case _ => true
  }

  lemma {:induction false} GoodAntitone(ty: Ty, a: set<nat>, b: set<nat>, defs: seq<StructDef>)
    requires Good(ty, a, defs) && b <= a
    ensures Good(ty, b, defs)
    decreases Universe(defs) - a, ty
  {
    match ty
    case Func(params, _, ret) =>
      forall p | p in params ensures Good(p, b, defs) { GoodAntitone(p, a, b, defs); }
      GoodAntitone(ret, a, b, defs);
    case Struct(u) =>
      assert u in Universe(defs) - a;
      forall f | f in defs[u].fields ensures Good(f.ty, b + {u}, defs) {
        GoodAntitone(f.ty, a + {u}, b + {u}, defs);
      }
    case Vector(elem, _) => GoodAntitone(elem, a, b, defs);
    case Array(elem, _) => GoodAntitone(elem, a, b, defs);
    case Pointer(elem) => if IsSized(elem, defs) { GoodAntitone(elem, a, b, defs); }
    case _ =>
  }

  /** Every structure the normal form refers to has an id. */
  ghost predicate Known(ty: Ty, ids: Ids, defs: seq<StructDef>) {
    match ty
    case Func(params, _, ret) => (forall p | p in params :: Known(p, ids, defs)) && Known(ret, ids, defs)
    case Struct(u) => u in ids
    case Vector(elem, _) => Known(elem, ids, defs)
    case Array(elem, _) => Known(elem, ids, defs)
    case Pointer(elem) => IsSized(elem, defs) ==> Known(elem, ids, defs)
    case _ => true
  }

  lemma {:induction false} NormStable(ty: Ty, a: Ids, b: Ids, defs: seq<StructDef>)
    requires Known(ty, a, defs) && Extends(a, b)
    ensures Known(ty, b, defs) && Norm(ty, a, defs) == Norm(ty, b, defs)
  {
    match ty
    case Func(params, _, ret) => NormAllStable(params, a, b, defs); NormStable(ret, a, b, defs);
    case Struct(u) =>
    case Vector(elem, _) => NormStable(elem, a, b, defs);
    case Array(elem, _) => NormStable(elem, a, b, defs);
    case Pointer(elem) => if IsSized(elem, defs) { NormStable(elem, a, b, defs); }
    case _ =>
  }

  lemma {:induction false} NormAllStable(tys: seq<Ty>, a: Ids, b: Ids, defs: seq<StructDef>)
    requires (forall p | p in tys :: Known(p, a, defs)) && Extends(a, b)
    ensures (forall p | p in tys :: Known(p, b, defs)) && NormAll(tys, a, defs) == NormAll(tys, b, defs)
  {
    if tys != [] {
      NormStable(tys[0], a, b, defs);
      NormAllStable(tys[1..], a, b, defs);
    }
  }

  lemma {:induction false} NormFieldsStable(
      fields: seq<Field>, expected: nat, alloc: nat, a: Ids, b: Ids, defs: seq<StructDef>)
    requires (forall f | f in fields :: Known(f.ty, a, defs)) && Extends(a, b)
    ensures forall f | f in fields :: Known(f.ty, b, defs)
    ensures NormFields(fields, expected, alloc, a, defs) == NormFields(fields, expected, alloc, b, defs)
    decreases |fields|
  {
    hide Norm, NormFields, Known, Extends;
    if fields != [] {
      var f, next := fields[0], fields[0].offset + fields[0].size;
      assert f in fields && forall g | g in fields :: g == f || g in fields[1..];
      NormStable(f.ty, a, b, defs);
      NormFieldsStable(fields[1..], next, alloc, a, b, defs);
      NormFirst(fields, expected, alloc, a, defs);
      NormFirst(fields, expected, alloc, b, defs);
    } else {
      NormNone(expected, alloc, a, b, defs);
    }
  }

  lemma NormNone(expected: nat, alloc: nat, a: Ids, b: Ids, defs: seq<StructDef>)
    ensures NormFields([], expected, alloc, a, defs) == NormFields([], expected, alloc, b, defs)
  {
  }

  // ---------- numbers ----------

  predicate NoDigit(s: string) {
    s == "" || !IsDigit(s[0])
  }

  lemma {:induction false} DigitsBefore(d: string, s: string)
    requires (forall c | c in d :: IsDigit(c)) && NoDigit(s)
    ensures DigitCount(d + s) == |d|
  {
    if d != "" {
      assert d[0] in d && (d + s)[0] == d[0];
      assert forall c | c in d[1..] :: c in d;
      assert (d + s)[1..] == d[1..] + s;
      DigitsBefore(d[1..], s);
    } else {
      assert d + s == s;
    }
  }

  lemma {:induction false} DecimalValue(n: nat)
    ensures forall c | c in Decimal(n) :: IsDigit(c)
    ensures Value(Decimal(n)) == n
  {
    if n >= 10 {
      DecimalValue(n / 10);
      assert Decimal(n)[..|Decimal(n)| - 1] == Decimal(n / 10);
    } else {
      assert Decimal(n)[..0] == "";
    }
  }

  /** A printed number is read back, and nothing behind it is consumed. */
  lemma NumberRead(n: nat, s: string, range: nat)
    requires NoDigit(s) && n < range
    ensures DigitCount(Decimal(n) + s) > 0
    ensures Number(Decimal(n) + s, range) == n
    ensures AfterNumber(Decimal(n) + s) == s
  {
    DecimalValue(n);
    DigitsBefore(Decimal(n), s);
    assert (Decimal(n) + s)[..|Decimal(n)|] == Decimal(n);
  }

  // ---------- single pieces ----------

  /** The first character of a printed type: no digit and no closing bracket. */
  predicate Opens(s: string) {
    s != "" && !IsDigit(s[0]) && s[0] != '}' && s[0] != ')'
  }

  lemma BytesRead(n: nat, s: string, ids: seq<PBody>)
    requires 0 < n < U64
    ensures ParseType("[Bx" + Decimal(n) + "]" + s, ids) == Ok(Bytes(n), s, ids)
  {
    hide ParseType, Decimal;
    var tail := "x" + (Decimal(n) + ("]" + s));
    assert "[Bx" + Decimal(n) + "]" + s == "[" + ("B" + tail);
    ByteRead(tail, ids);
    CountedRead("[]", "B" + tail, n, ids, s);
  }

  lemma ByteRead(s: string, ids: seq<PBody>)
    ensures ParseType("B" + s, ids) == Ok(PInt(8), s, ids)
  {
    hide ParseElems, ParseCounted, MakeFunc;
    assert ("B" + s)[1..] == s;
  }

  lemma ElemRefused(s: string, ids: seq<PBody>, close: char, sized: bool)
    requires s != "" && s[0] != close
    requires var e := ParseType(s, ids); e.Error? || (e.Ok? && sized && !PIsSized(e.ty, e.ids))
    ensures ParseElems(s, ids, close, sized).Failed?
  {
  }

  lemma CloseRead(s: string, ids: seq<PBody>, close: char, sized: bool)
    ensures ParseElems([close] + s, ids, close, sized) == Elems([], s, ids)
  {
    assert ([close] + s)[1..] == s;
  }

  lemma BytesElemRead(n: nat, s: string, ids: seq<PBody>)
    requires 0 < n < U64
    ensures ParseElems("[Bx" + Decimal(n) + "]" + s, ids, '}', true)
            == Prepend([Bytes(n)], ParseElems(s, ids, '}', true))
  {
    BytesRead(n, s, ids);
    ElemRead("[Bx" + Decimal(n) + "]" + s, ids, '}', true, Bytes(n), s, ids);
  }

  /** Padding in front of more elements. */
  lemma PaddingRead(n: nat, s: string, ids: seq<PBody>)
    requires n < U64
    ensures ParseElems(Padding(n) + s, ids, '}', true) == Prepend(PaddingTypes(n), ParseElems(s, ids, '}', true))
  {
    if n == 0 {
      assert Padding(n) + s == s;
    } else if n == 1 {
      ByteRead(s, ids);
      ElemRead("B" + s, ids, '}', true, PInt(8), s, ids);
    } else {
      BytesElemRead(n, s, ids);
    }
  }

  lemma TwoArrays(a: string, b: string, s: string)
    ensures "{[Bx" + a + "][Bx" + b + "]}" + s == "{" + ("[Bx" + a + "]" + ("[Bx" + b + "]" + ("}" + s)))
  {
    var l, r := "{[Bx" + a + "][Bx" + b + "]}" + s, "{" + ("[Bx" + a + "]" + ("[Bx" + b + "]" + ("}" + s)));
    assert |l| == |r|;
    assert "][Bx" == "]" + "[Bx";
    assert "]}" == "]" + "}";
    assert "{[Bx" == "{" + "[Bx";
  }

  lemma TwoArraysRead(x: nat, y: nat, s: string, ids: seq<PBody>)
    requires 0 < x < U64 && 0 < y < U64
    ensures ParseElems("[Bx" + Decimal(x) + "]" + ("[Bx" + Decimal(y) + "]" + ("}" + s)), ids, '}', true)
            == Elems([Bytes(x), Bytes(y)], s, ids)
  {
    BytesElemRead(x, "[Bx" + Decimal(y) + "]" + ("}" + s), ids);
    BytesElemRead(y, "}" + s, ids);
    assert ("}" + s)[1..] == s;
    assert ParseElems("}" + s, ids, '}', true) == Elems([], s, ids);
  }

  lemma OtherRead(store: nat, alloc: nat, s: string, ids: seq<PBody>)
    requires 0 < store <= alloc < U64
    ensures ParseType(OtherText(store, alloc) + s, ids)
            == Ok(if alloc > store then PTuple([Bytes(store), Bytes(alloc - store)]) else Bytes(store), s, ids)
  {
    if alloc > store {
      TwoArraysRead(store, alloc - store, s, ids);
      TwoArrays(Decimal(store), Decimal(alloc - store), s);
      TupleRead("[Bx" + Decimal(store) + "]" + ("[Bx" + Decimal(alloc - store) + "]" + ("}" + s)), ids,
                [Bytes(store), Bytes(alloc - store)], s);
    } else {
      BytesRead(store, s, ids);
    }
  }

  lemma TupleRead(s: string, ids: seq<PBody>, tys: seq<PTy>, rest: string)
    requires ParseElems(s, ids, '}', true) == Elems(tys, rest, ids) && tys != []
    ensures ParseType("{" + s, ids) == Ok(PTuple(tys), rest, ids)
  {
    assert ("{" + s)[1..] == s;
  }

  lemma IntRead(w: nat, s: string, ids: seq<PBody>)
    requires 0 < w < U32
    ensures ParseType(IntText(w) + s, ids) == Ok(NormInt(w), s, ids)
  {
    hide ParseElems, ParseCounted, MakeFunc;
    if w > 128 {
      BytesRead((w + 7) / 8, s, ids);
    } else {
      assert (IntText(w) + s)[1..] == s;
    }
  }

  lemma ScalarRead(kind: Kind, s: string, ids: seq<PBody>)
    ensures ParseType(KindText(kind) + s, ids) == Ok(PScalar(kind), s, ids)
  {
    assert (KindText(kind) + s)[1..] == s;
  }

  /** What may be printed: sized types, void, and function types. */
  ghost predicate Printable(ty: Ty, defs: seq<StructDef>) {
    Valid(ty, defs) && (IsSized(ty, defs) || ty.Void? || ty.Func?)
  }

  lemma PrintOpens(ty: Ty, ids: Ids, defs: seq<StructDef>)
    requires Printable(ty, defs)
    ensures Opens(Print(ty, ids, defs).text)
  {
  }

  // ---------- the printer's ids and the parser's table ----------

  /** The printer's ids, the parser's table, and the structures whose bodies are under way. */
  datatype Lockstep = Lockstep(ids: Ids, table: seq<PBody>, open: set<nat>, defs: seq<StructDef>) {

    /** Everything but the structures whose printed bodies are complete. */
    function Outside(): set<nat> {
      Universe(defs) - (ids.Keys - open)
    }

    /** A type whose structures all have ids, and lead only to structures that are complete. */
    ghost predicate Settled(ty: Ty) {
      Known(ty, ids, defs) && Good(ty, Outside(), defs)
    }

    ghost predicate AllSettled(fields: seq<Field>) {
      forall f | f in fields :: Settled(f.ty)
    }

    function BodyOf(u: nat): PBody
      requires u < |defs| && defs[u].Body?
    {
      Closed(NormFields(defs[u].fields, 0, defs[u].alloc, ids, defs))
    }

    /** A structure whose body has been printed and parsed. */
    ghost predicate Done(u: nat) {
      && u < |defs| && defs[u].Body? && u in ids && ids[u] < |table|
      && table[ids[u]] == BodyOf(u)
      && (forall f | f in defs[u].fields :: Known(f.ty, ids, defs))
      && Good(Struct(u), Outside(), defs)
    }

    /** Ids are entries of the table, each a different one; bodies under way are open entries. */
    predicate Aligned() {
      && open <= ids.Keys
      && |ids| == |table| <= |defs|
      && (forall u | u in ids :: u < |defs| && ids[u] < |table|)
      && (forall u, v | u in ids && v in ids && u != v :: ids[u] != ids[v])
      && (forall u | u in open :: table[ids[u]] == Open)
    }

    /** The parser's table has one entry for every id the printer has given: open while the
        structure's body is being printed, its normal form afterwards. */
    ghost predicate Sync() {
      && ValidDefs(defs)
      && Aligned()
      && (forall u | u in ids && u !in open :: Done(u))
    }

    /** A later moment with the same bodies under way. */
    predicate Before(other: Lockstep) {
      other.open == open && other.defs == defs && Extends(ids, other.ids)
    }
  }

  type Synced = s: Lockstep | s.Sync() ghost witness Lockstep(map[], [], {}, [])

  lemma IdsFit(ids: Ids, u: nat, defs: seq<StructDef>)
    requires forall v | v in ids :: v < |defs|
    requires u !in ids && u < |defs|
    ensures |ids| < |defs|
  {
    BelowSize(|defs|);
    assert ids.Keys + {u} <= Below(|defs|);
    SubsetSize(ids.Keys + {u}, Below(|defs|));
  }

  lemma BelowSize(n: nat)
    ensures |Below(n)| == n
  {
  }

  lemma {:induction false} SubsetSize(a: set<nat>, b: set<nat>)
    requires a <= b
    ensures |a| <= |b|
  {
    if a != {} {
      var x :| x in a;
      SubsetSize(a - {x}, b - {x});
    }
  }

  lemma DoneStays(s: Lockstep, s': Lockstep, u: nat)
    requires s.Done(u) && s'.defs == s.defs && Extends(s.ids, s'.ids)
    requires s.ids[u] < |s'.table| && s'.table[s.ids[u]] == s.table[s.ids[u]]
    requires s'.Outside() <= s.Outside()
    ensures s'.Done(u)
  {
    NormFieldsStable(s.defs[u].fields, 0, s.defs[u].alloc, s.ids, s'.ids, s.defs);
    GoodAntitone(Struct(u), s.Outside(), s'.Outside(), s.defs);
  }

  lemma SettledStays(s: Lockstep, s': Lockstep, ty: Ty)
    requires s.Settled(ty) && s.Before(s')
    ensures s'.Settled(ty) && Norm(ty, s.ids, s.defs) == Norm(ty, s'.ids, s.defs)
  {
    NormStable(ty, s.ids, s'.ids, s.defs);
    GoodAntitone(ty, s.Outside(), s'.Outside(), s.defs);
  }

  /** The state after `=k`: a new id, with an open entry. */
  function Opened(s: Lockstep, u: nat): Lockstep {
    Lockstep(s.ids[u := |s.ids|], s.table + [Open], s.open + {u}, s.defs)
  }

  lemma OpenedDone(s: Synced, u: nat, v: nat)
    requires u !in s.ids && u < |s.defs| && v in s.ids && v !in s.open
    ensures Opened(s, u).Done(v)
  {
    hide Good, Known, Norm, NormFields, Valid, IsSized, Lockstep.Done;
    var s' := Opened(s, u);
    assert s'.ids.Keys - s'.open == s.ids.Keys - s.open;
    assert s.Done(v);
    SyncFacts(s);
    DoneStays(s, s', v);
  }

  lemma OpenedAligned(s: Lockstep, u: nat)
    requires s.Aligned() && u !in s.ids && u < |s.defs|
    ensures Opened(s, u).Aligned()
  {
    IdsFit(s.ids, u, s.defs);
  }

  lemma OpenedSync(s: Synced, u: nat)
    requires u !in s.ids && u < |s.defs|
    ensures Opened(s, u).Sync()
  {
    hide Lockstep.Aligned, Lockstep.Done, ValidDefs;
    OpenedAligned(s, u);
    forall v | v in Opened(s, u).ids && v !in Opened(s, u).open
      ensures Opened(s, u).Done(v)
    {
      OpenedDone(s, u, v);
    }
  }

  /** The state after the closing brace: the entry gets its body. */
  function Completed(s: Lockstep, u: nat): Lockstep
    requires u in s.ids && s.ids[u] < |s.table| && u < |s.defs| && s.defs[u].Body?
  {
    Lockstep(s.ids, s.table[s.ids[u] := s.BodyOf(u)], s.open - {u}, s.defs)
  }

  lemma SyncFacts(s: Synced)
    ensures s.open <= s.ids.Keys
    ensures forall u | u in s.ids :: u < |s.defs| && s.ids[u] < |s.table|
  {
  }

  lemma CompletedDone(s: Synced, u: nat)
    requires u in s.open && s.defs[u].Body? && (s.defs[u].fields != [] || s.defs[u].alloc != 0)
    requires s.AllSettled(s.defs[u].fields)
    ensures Completed(s, u).Done(u) && Completed(s, u).Outside() + {u} == s.Outside()
  {
    hide Norm, NormFields, Known, Valid, IsSized;
    var s' := Completed(s, u);
    assert s'.Outside() + {u} == s.Outside();
    assert Good(Struct(u), s'.Outside(), s.defs);
  }

  lemma CompletedAligned(s: Lockstep, u: nat)
    requires s.Aligned() && u in s.open && s.defs[u].Body?
    ensures Completed(s, u).Aligned()
  {
  }

  lemma {:induction false} CompletedSync(s: Synced, u: nat)
    requires u in s.open && s.defs[u].Body? && (s.defs[u].fields != [] || s.defs[u].alloc != 0)
    requires s.AllSettled(s.defs[u].fields)
    ensures Completed(s, u).Sync() && Completed(s, u).Settled(Struct(u))
  {
    hide Good, Norm, NormFields, ValidDefs, IsSized, Lockstep.Aligned;
    SyncFacts(s);
    var s' := Completed(s, u);
    CompletedDone(s, u);
    CompletedAligned(s, u);
    forall v | v in s'.ids && v !in s'.open
      ensures s'.Done(v)
    {
      if v != u {
        assert s.Done(v);
        DoneStays(s, s', v);
      }
    }
  }

  /** A good, sized type is sized for the parser as well. */
  lemma {:induction false} NormSized(s: Synced, ty: Ty)
    requires Good(ty, s.open, s.defs) && IsSized(ty, s.defs) && Known(ty, s.ids, s.defs)
    ensures PIsSized(Norm(ty, s.ids, s.defs), s.table)
  {
    match ty
    case Vector(elem, n) =>
      NormSized(s, elem);
      assert Norm(ty, s.ids, s.defs) == PVector(Norm(elem, s.ids, s.defs), n);
    case Array(elem, n) =>
      NormSized(s, elem);
      assert Norm(ty, s.ids, s.defs) == PArray(Norm(elem, s.ids, s.defs), n);
    case Struct(u) =>
      assert s.Done(u);
    case Int(w) =>
      IntSized(w, s.table);
    case _ =>
  }

  lemma IntSized(w: nat, table: seq<PBody>)
    ensures PIsSized(NormInt(w), table)
  {
  }

  // ---------- reading a printed type ----------

  /** What parsing the printed form of `ty` must give, and the state it leaves. */
  ghost predicate Outcome(ty: Ty, suf: string, s: Lockstep, r: Parsed, s': Lockstep) {
    if Good(ty, s.open, s.defs) then
      && s.Before(s') && s'.ids == Print(ty, s.ids, s.defs).ids
      && r == Ok(Norm(ty, s'.ids, s.defs), suf, s'.table)
      && s'.Settled(ty)
    else if ty.Struct? && ty.id in s.open then
      r.Ok? && r.ty.PRef? && !PIsSized(r.ty, r.ids)
    else
      r.Error?
  }

  function TypeText(ty: Ty, s: Lockstep): string {
    Print(ty, s.ids, s.defs).text
  }

  lemma ReferenceRead(k: nat, suf: string, table: seq<PBody>)
    requires k < |table| < U32 && NoDigit(suf)
    ensures ParseType("%" + Decimal(k) + suf, table) == Ok(PRef(k), suf, table)
  {
    hide ParseElems, ParseCounted, MakeFunc, Letter, Decimal, Number, AfterNumber, DigitCount;
    var t := "%" + Decimal(k) + suf;
    assert t[1..] == Decimal(k) + suf;
    NumberRead(k, suf, U32);
  }

  lemma BackReference(u: nat, s: Synced, suf: string)
    requires u in s.ids && NoDigit(suf)
    ensures Outcome(Struct(u), suf, s, ParseType(TypeText(Struct(u), s) + suf, s.table), s)
  {
    assert Print(Struct(u), s.ids, s.defs) == Printed("%" + Decimal(s.ids[u]), s.ids);
    ReferenceRead(s.ids[u], suf, s.table);
    BackReferenceOutcome(u, s, suf);
  }

  lemma BackReferenceOutcome(u: nat, s: Synced, suf: string)
    requires u in s.ids
    ensures Outcome(Struct(u), suf, s, Ok(PRef(s.ids[u]), suf, s.table), s)
  {
    hide ParseType, ParseElems, Good, Valid, IsSized, NormFields;
    SyncFacts(s);
    if u in s.open {
      OpenIsBad(u, s);
    } else {
      assert s.Done(u);
      assert s.Settled(Struct(u));
      GoodAntitone(Struct(u), s.Outside(), s.open, s.defs);
    }
  }

  /** A structure still being printed cannot be met again. */
  lemma OpenIsBad(u: nat, s: Synced)
    requires u in s.open
    ensures !Good(Struct(u), s.open, s.defs) && s.table[s.ids[u]] == Open
  {
  }

  /** What a structure definition with id `k` gives, from what its elements gave. */
  predicate DefinitionOutcome(k: nat, b: Elems, r: Parsed) {
    && (b.Failed? ==> r.Error?)
    && (b.Elems? && b.tys == [] ==> r.Error?)
    && (b.Elems? && b.tys != [] && k < |b.ids| ==> r == Ok(PRef(k), b.rest, b.ids[k := Closed(b.tys)]))
  }

  /** `=k{`: what the parser does with a structure definition, in terms of its elements. */
  lemma DefinitionRead(k: nat, body: string, table: seq<PBody>)
    requires k == |table| < U32
    ensures DefinitionOutcome(k, ParseElems(body, table + [Open], '}', true),
              ParseType("=" + Decimal(k) + "{" + body, table))
  {
    hide ParseCounted, MakeFunc, Letter, Decimal, Number, AfterNumber, DigitCount, PIsSized;
    var t := "=" + Decimal(k) + "{" + body;
    assert t[1..] == Decimal(k) + ("{" + body);
    NumberRead(k, "{" + body, U32);
    assert ("{" + body)[1..] == body;
  }

  /** The elements of a structure, up to and including the closing brace. */
  ghost predicate FieldsOutcome(fields: seq<Field>, expected: nat, alloc: nat, suf: string,
                                s: Lockstep, r: Elems, s': Lockstep) {
    if AllGood(fields, s.open, s.defs) then
      && s.Before(s') && s'.ids == PrintFields(fields, expected, alloc, s.ids, s.defs).ids
      && r == Elems(NormFields(fields, expected, alloc, s'.ids, s.defs), suf, s'.table)
      && s'.AllSettled(fields)
    else
      r.Failed?
  }

  ghost predicate AllGood(fields: seq<Field>, open: set<nat>, defs: seq<StructDef>) {
    forall f | f in fields :: Good(f.ty, open, defs)
  }

  ghost predicate FieldsValid(fields: seq<Field>, defs: seq<StructDef>) {
    forall f | f in fields :: Valid(f.ty, defs) && IsSized(f.ty, defs) && f.offset < U64
  }

  lemma NormFieldsEmpty(fields: seq<Field>, alloc: nat, ids: Ids, defs: seq<StructDef>)
    ensures NormFields(fields, 0, alloc, ids, defs) == [] <==> fields == [] && alloc == 0
  {
  }

  lemma DefinitionGood(u: nat, open: set<nat>, defs: seq<StructDef>)
    requires u < |defs| && defs[u].Body? && u !in open
    ensures Good(Struct(u), open, defs)
            <==> (defs[u].fields != [] || defs[u].alloc != 0) && AllGood(defs[u].fields, open + {u}, defs)
  {
    assert u in Universe(defs) - open;
  }

  lemma DefinitionText(u: nat, s: Lockstep, suf: string)
    requires u !in s.ids && u < |s.defs| && s.defs[u].Body?
    ensures
      var p := PrintFields(s.defs[u].fields, 0, s.defs[u].alloc, Opened(s, u).ids, s.defs);
      && Print(Struct(u), s.ids, s.defs).ids == p.ids
      && TypeText(Struct(u), s) + suf == "=" + Decimal(|s.ids|) + "{" + (p.text + "}" + suf)
  {
    hide PrintFields, Decimal;
    var p := PrintFields(s.defs[u].fields, 0, s.defs[u].alloc, Opened(s, u).ids, s.defs);
    DefinitionPrinted(u, s.ids, s.defs);
    Regroup3("=" + Decimal(|s.ids|) + "{", p.text, "}", suf);
    Regroup3(p.text, "}", suf, "");
  }

  lemma DefinitionPrinted(u: nat, ids: Ids, defs: seq<StructDef>)
    requires u !in ids && u < |defs| && defs[u].Body?
    ensures
      var p := PrintFields(defs[u].fields, 0, defs[u].alloc, ids[u := |ids|], defs);
      Print(Struct(u), ids, defs) == Printed("=" + Decimal(|ids|) + "{" + p.text + "}", p.ids)
  {
    assert u in Universe(defs) - ids.Keys;
  }

  lemma {:induction false} ReadDefinition(u: nat, s: Synced, suf: string) returns (s': Synced)
    requires u !in s.ids && u < |s.defs| && s.defs[u].Body?
    ensures Outcome(Struct(u), suf, s, ParseType(TypeText(Struct(u), s) + suf, s.table), s')
    decreases Universe(s.defs) - s.ids.Keys, Struct(u), 0
  {
    hide Print, PrintFields, ParseType, ParseElems, Norm, NormFields, Good, Known, Valid, IsSized, Decimal,
         Outcome, FieldsOutcome, DefinitionOutcome;
    OpenedSync(s, u);
    var s1: Synced := Opened(s, u);
    assert u in Universe(s.defs) - s.ids.Keys;
    BodyValid(u, s.defs);
    var s2 := ReadFields(s.defs[u].fields, 0, s.defs[u].alloc, s1, suf);
    IdsFit(s.ids, u, s.defs);
    DefinitionText(u, s, suf);
    var body := PrintFields(s.defs[u].fields, 0, s.defs[u].alloc, s1.ids, s.defs).text + "}" + suf;
    DefinitionRead(|s.ids|, body, s.table);
    s' := DefinitionDone(u, s, s2, suf, ParseElems(body, s1.table, '}', true),
                         ParseType(TypeText(Struct(u), s) + suf, s.table));
  }

  lemma BodyValid(u: nat, defs: seq<StructDef>)
    requires ValidDefs(defs) && u < |defs| && defs[u].Body?
    ensures FieldsValid(defs[u].fields, defs) && defs[u].alloc < U64
  {
  }

  /** What the elements gave decides what the whole definition gives. */
  lemma DefinitionDone(u: nat, s: Synced, s2: Synced, suf: string, b: Elems, r: Parsed)
    returns (s': Synced)
    requires u !in s.ids && u < |s.defs| && s.defs[u].Body?
    requires FieldsOutcome(s.defs[u].fields, 0, s.defs[u].alloc, suf, Opened(s, u), b, s2)
    requires DefinitionOutcome(|s.ids|, b, r)
    requires Print(Struct(u), s.ids, s.defs).ids
             == PrintFields(s.defs[u].fields, 0, s.defs[u].alloc, Opened(s, u).ids, s.defs).ids
    ensures Outcome(Struct(u), suf, s, r, s')
  {
    hide Print, PrintFields, ParseType, ParseElems, Good, Known, Valid, IsSized, NormFields;
    s' := s;
    DefinitionGood(u, s.open, s.defs);
    NormFieldsEmpty(s.defs[u].fields, s.defs[u].alloc, s2.ids, s.defs);
    if Good(Struct(u), s.open, s.defs) {
      DefinitionGoodDone(u, s, s2, suf, b, r);
      s' := Completed(s2, u);
    }
  }

  lemma DefinitionGoodDone(u: nat, s: Synced, s2: Synced, suf: string, b: Elems, r: Parsed)
    requires u !in s.ids && u < |s.defs| && s.defs[u].Body?
    requires (s.defs[u].fields != [] || s.defs[u].alloc != 0)
    requires Opened(s, u).Before(s2) && s2.AllSettled(s.defs[u].fields)
    requires s2.ids == PrintFields(s.defs[u].fields, 0, s.defs[u].alloc, Opened(s, u).ids, s.defs).ids
    requires b == Elems(NormFields(s.defs[u].fields, 0, s.defs[u].alloc, s2.ids, s.defs), suf, s2.table)
    requires DefinitionOutcome(|s.ids|, b, r)
    requires Print(Struct(u), s.ids, s.defs).ids
             == PrintFields(s.defs[u].fields, 0, s.defs[u].alloc, Opened(s, u).ids, s.defs).ids
    ensures Completed(s2, u).Sync() && Completed(s2, u).Settled(Struct(u)) && s.Before(Completed(s2, u))
    ensures Completed(s2, u).ids == Print(Struct(u), s.ids, s.defs).ids
    ensures r == Ok(Norm(Struct(u), s2.ids, s.defs), suf, Completed(s2, u).table)
  {
    hide Lockstep.Sync, Lockstep.Settled, Print, PrintFields, ParseType, ParseElems, Good, Known, Valid, IsSized,
         NormFields;
    assert u in Opened(s, u).ids;
    SyncFacts(s);
    SyncFacts(s2);
    CompletedSync(s2, u);
    NormFieldsEmpty(s.defs[u].fields, s.defs[u].alloc, s2.ids, s.defs);
    assert s2.open - {u} == s.open;
  }

  lemma FieldsOpen(fields: seq<Field>, expected: nat, alloc: nat, ids: Ids, suf: string, defs: seq<StructDef>)
    requires FieldsValid(fields, defs)
    ensures NoDigit(PrintFields(fields, expected, alloc, ids, defs).text + "}" + suf)
  {
    if fields != [] {
      assert fields[0] in fields;
      PrintOpens(fields[0].ty, ids, defs);
    }
  }

  lemma FieldsText(fields: seq<Field>, expected: nat, alloc: nat, ids: Ids, defs: seq<StructDef>, suf: string)
    requires fields != []
    ensures
      var f, a := fields[0], Print(fields[0].ty, ids, defs);
      var p := PrintFields(fields, expected, alloc, ids, defs);
      var rest := PrintFields(fields[1..], f.offset + f.size, alloc, a.ids, defs);
      && p.ids == rest.ids
      && p.text + "}" + suf == Padding(Gap(expected, f.offset)) + (a.text + (rest.text + "}" + suf))
  {
    hide Print, Padding;
    var f := fields[0];
    var a := Print(f.ty, ids, defs);
    var rest := PrintFields(fields[1..], f.offset + f.size, alloc, a.ids, defs);
    Regroup3(Padding(Gap(expected, f.offset)), a.text, rest.text, "}" + suf);
    assert PrintFields(fields, expected, alloc, ids, defs).text
        == Padding(Gap(expected, f.offset)) + a.text + rest.text;
  }

  lemma Regroup3(a: string, b: string, c: string, d: string)
    ensures a + b + c + d == a + (b + (c + d))
  {
  }

  lemma {:induction false} NoFieldsRead(expected: nat, alloc: nat, s: Synced, suf: string)
    requires alloc < U64
    ensures FieldsOutcome([], expected, alloc, suf, s,
              ParseElems(PrintFields([], expected, alloc, s.ids, s.defs).text + "}" + suf, s.table, '}', true), s)
  {
    hide Padding, ParseElems, PaddingTypes, Lockstep.Sync;
    assert PrintFields([], expected, alloc, s.ids, s.defs).text + "}" + suf
           == Padding(Gap(expected, alloc)) + ("}" + suf);
    PaddingRead(Gap(expected, alloc), "}" + suf, s.table);
    CloseRead(suf, s.table, '}', true);
  }

  lemma {:induction false} ReadFields(fields: seq<Field>, expected: nat, alloc: nat, s: Synced, suf: string)
    returns (s': Synced)
    requires FieldsValid(fields, s.defs) && alloc < U64
    ensures FieldsOutcome(fields, expected, alloc, suf, s,
              ParseElems(PrintFields(fields, expected, alloc, s.ids, s.defs).text + "}" + suf, s.table, '}', true), s')
    decreases Universe(s.defs) - s.ids.Keys, fields, 0
  {
    hide Print, PrintFields, ParseType, ParseElems, Norm, NormFields, Good, Known, Valid, IsSized, Padding,
         PaddingTypes, Outcome, FieldsOutcome, FieldsValid, Printable, Universe, Extends, Lockstep.Before,
         Lockstep.Sync, Lockstep.Settled;
    if fields == [] {
      NoFieldsRead(expected, alloc, s, suf);
      s' := s;
    } else {
      var f, next := fields[0], fields[0].offset + fields[0].size;
      assert f in fields && f.ty < f;
      FieldsValidFirst(fields, s.defs);
      var a := Print(f.ty, s.ids, s.defs);
      var tail := PrintFields(fields[1..], next, alloc, a.ids, s.defs).text + "}" + suf;
      FieldsText(fields, expected, alloc, s.ids, s.defs, suf);
      PaddingRead(Gap(expected, f.offset), a.text + tail, s.table);
      FieldsOpen(fields[1..], next, alloc, a.ids, suf, s.defs);
      PrintableField(f, s.defs);
      var s1 := ReadType(f.ty, s, tail);
      s' := s;
      if Good(f.ty, s.open, s.defs) {
        OutcomeBefore(f.ty, tail, s, ParseType(TypeText(f.ty, s) + tail, s.table), s1);
        NoneForgotten(s, s1);
        s' := ReadFields(fields[1..], next, alloc, s1, suf);
      }
      FieldsStep(fields, expected, alloc, suf, s, s1, s', tail);
    }
  }

  lemma FieldsValidFirst(fields: seq<Field>, defs: seq<StructDef>)
    requires fields != [] && FieldsValid(fields, defs)
    ensures Valid(fields[0].ty, defs) && IsSized(fields[0].ty, defs) && fields[0].offset < U64
    ensures FieldsValid(fields[1..], defs)
  {
    assert fields[0] in fields;
  }

  lemma NoneForgotten(s: Lockstep, s1: Lockstep)
    requires s.Before(s1)
    ensures s1.defs == s.defs && s1.open == s.open
    ensures Universe(s1.defs) - s1.ids.Keys <= Universe(s.defs) - s.ids.Keys
  {
  }

  lemma OutcomeBefore(ty: Ty, suf: string, s: Lockstep, r: Parsed, s': Lockstep)
    requires Outcome(ty, suf, s, r, s') && Good(ty, s.open, s.defs)
    ensures s.Before(s') && s'.ids == Print(ty, s.ids, s.defs).ids && s'.Settled(ty)
  {
  }

  /** One element read, and the others if it was accepted. */
  lemma FieldsStep(fields: seq<Field>, expected: nat, alloc: nat, suf: string,
                   s: Synced, s1: Synced, s': Synced, tail: string)
    requires fields != [] && FieldsValid(fields, s.defs)
    requires Outcome(fields[0].ty, tail, s, ParseType(TypeText(fields[0].ty, s) + tail, s.table), s1)
    requires Good(fields[0].ty, s.open, s.defs) ==>
               FieldsOutcome(fields[1..], fields[0].offset + fields[0].size, alloc, suf, s1,
                             ParseElems(tail, s1.table, '}', true), s')
    requires
      PrintFields(fields, expected, alloc, s.ids, s.defs).ids
      == PrintFields(fields[1..], fields[0].offset + fields[0].size, alloc,
                     Print(fields[0].ty, s.ids, s.defs).ids, s.defs).ids
    ensures FieldsOutcome(fields, expected, alloc, suf, s,
              Prepend(PaddingTypes(Gap(expected, fields[0].offset)),
                ParseElems(TypeText(fields[0].ty, s) + tail, s.table, '}', true)), s')
  {
    hide Print, PrintFields, ParseType, ParseElems, Norm, NormFields, Good, Known, Valid, IsSized, PaddingTypes,
         Outcome, FieldsValid, Lockstep.Sync;
    FieldFirst(fields, s, s1, tail);
    if Good(fields[0].ty, s.open, s.defs) {
      OutcomeBefore(fields[0].ty, tail, s, ParseType(TypeText(fields[0].ty, s) + tail, s.table), s1);
      FieldThenRest(fields, s1, s');
      FieldsJoined(fields, expected, alloc, suf, s, s1, s', tail);
    }
  }

  lemma PrintableField(f: Field, defs: seq<StructDef>)
    requires Valid(f.ty, defs) && IsSized(f.ty, defs)
    ensures Printable(f.ty, defs) && !f.ty.Func?
  {
  }

  lemma FieldsJoined(fields: seq<Field>, expected: nat, alloc: nat, suf: string,
                     s: Synced, s1: Synced, s': Synced, tail: string)
    requires fields != []
    requires s.Before(s1) && s1.ids == Print(fields[0].ty, s.ids, s.defs).ids
    requires FieldsOutcome(fields[1..], fields[0].offset + fields[0].size, alloc, suf, s1,
                           ParseElems(tail, s1.table, '}', true), s')
    requires AllGood(fields, s.open, s.defs) <==> AllGood(fields[1..], s.open, s.defs)
    requires s1.Before(s') ==> Norm(fields[0].ty, s1.ids, s.defs) == Norm(fields[0].ty, s'.ids, s.defs)
    requires s1.Before(s') && s'.AllSettled(fields[1..]) ==> s'.AllSettled(fields)
    requires
      PrintFields(fields, expected, alloc, s.ids, s.defs).ids
      == PrintFields(fields[1..], fields[0].offset + fields[0].size, alloc, s1.ids, s.defs).ids
    ensures FieldsOutcome(fields, expected, alloc, suf, s,
              Prepend(PaddingTypes(Gap(expected, fields[0].offset)),
                Prepend([Norm(fields[0].ty, s1.ids, s.defs)], ParseElems(tail, s1.table, '}', true))), s')
  {
    hide Print, PrintFields, ParseType, ParseElems, Good, Known, Valid, IsSized, Norm, PaddingTypes, NormFields,
         AllGood, Lockstep.AllSettled, Lockstep.Sync;
    if AllGood(fields, s.open, s.defs) {
      NormFirst(fields, expected, alloc, s'.ids, s.defs);
      RegroupTypes(PaddingTypes(Gap(expected, fields[0].offset)), [Norm(fields[0].ty, s1.ids, s.defs)],
                   NormFields(fields[1..], fields[0].offset + fields[0].size, alloc, s'.ids, s.defs));
    }
  }

  lemma NormFirst(fields: seq<Field>, expected: nat, alloc: nat, ids: Ids, defs: seq<StructDef>)
    requires fields != []
    ensures NormFields(fields, expected, alloc, ids, defs)
            == PaddingTypes(Gap(expected, fields[0].offset)) + [Norm(fields[0].ty, ids, defs)]
               + NormFields(fields[1..], fields[0].offset + fields[0].size, alloc, ids, defs)
  {
  }

  lemma RegroupTypes(a: seq<PTy>, b: seq<PTy>, c: seq<PTy>)
    ensures a + b + c == a + (b + c)
  {
  }

  /** The first element is accepted, or the whole list is refused. */
  lemma FieldFirst(fields: seq<Field>, s: Synced, s1: Synced, tail: string)
    requires fields != [] && FieldsValid(fields, s.defs)
    requires Outcome(fields[0].ty, tail, s, ParseType(TypeText(fields[0].ty, s) + tail, s.table), s1)
    ensures
      var r := ParseElems(TypeText(fields[0].ty, s) + tail, s.table, '}', true);
      if Good(fields[0].ty, s.open, s.defs) then
        r == Prepend([Norm(fields[0].ty, s1.ids, s.defs)], ParseElems(tail, s1.table, '}', true))
      else r.Failed? && !AllGood(fields, s.open, s.defs)
  {
    hide Print, PrintFields, ParseType, ParseElems, Norm, Good, Known, Valid, IsSized, PIsSized;
    var ty := fields[0].ty;
    assert fields[0] in fields;
    PrintOpens(ty, s.ids, s.defs);
    if Good(ty, s.open, s.defs) {
      NormSized(s1, ty);
      ElemRead(TypeText(ty, s) + tail, s.table, '}', true, Norm(ty, s1.ids, s.defs), tail, s1.table);
    } else {
      ElemRefused(TypeText(ty, s) + tail, s.table, '}', true);
    }
  }

  /** What the first element established still holds after the others. */
  lemma FieldThenRest(fields: seq<Field>, s: Synced, s': Synced)
    requires fields != [] && s.Settled(fields[0].ty) && Good(fields[0].ty, s.open, s.defs)
    ensures AllGood(fields, s.open, s.defs) <==> AllGood(fields[1..], s.open, s.defs)
    ensures s.Before(s') ==> Norm(fields[0].ty, s.ids, s.defs) == Norm(fields[0].ty, s'.ids, s.defs)
    ensures s.Before(s') && s'.AllSettled(fields[1..]) ==> s'.AllSettled(fields)
  {
    assert forall f | f in fields :: f == fields[0] || f in fields[1..];
    assert forall f | f in fields[1..] :: f in fields;
    if s.Before(s') {
      SettledStays(s, s', fields[0].ty);
    }
  }

  lemma {:induction false} ReadType(ty: Ty, s: Synced, suf: string) returns (s': Synced)
    requires Printable(ty, s.defs) && NoDigit(suf)
    requires ty.Func? ==> s.open == {}
    ensures Outcome(ty, suf, s, ParseType(TypeText(ty, s) + suf, s.table), s')
    decreases Universe(s.defs) - s.ids.Keys, ty, 1
  {
    match ty
    case Struct(u) =>
      if u in s.ids {
        BackReference(u, s, suf);
        s' := s;
      } else {
        s' := ReadDefinition(u, s, suf);
      }
    case Pointer(elem) => s' := ReadPointer(elem, s, suf);
    case Array(elem, n) => s' := ReadArray(elem, n, s, suf);
    case Vector(elem, n) => s' := ReadVector(elem, n, s, suf);
    case Func(params, variadic, ret) => s' := ReadFunc(params, variadic, ret, s, suf);
    case _ =>
      ReadLeaf(ty, s, suf);
      s' := s;
  }

  lemma {:induction false} ReadLeaf(ty: Ty, s: Synced, suf: string)
    requires Printable(ty, s.defs)
    requires !ty.Struct? && !ty.Pointer? && !ty.Array? && !ty.Vector? && !ty.Func?
    ensures Outcome(ty, suf, s, ParseType(TypeText(ty, s) + suf, s.table), s)
  {
    hide ParseType;
    LeafSettled(ty, s);
    match ty
    case Int(w) => IntRead(w, suf, s.table);
    case Other(store, alloc) => OtherRead(store, alloc, suf, s.table);
    case Scalar(kind) => ScalarRead(kind, suf, s.table);
    case Void => ScalarVoidRead(suf, s.table);
  }

  /** Types without structures are good in any state, and change nothing when printed. */
  lemma LeafSettled(ty: Ty, s: Lockstep)
    requires !ty.Struct? && !ty.Pointer? && !ty.Array? && !ty.Vector? && !ty.Func?
    ensures Good(ty, s.open, s.defs) && s.Settled(ty) && Print(ty, s.ids, s.defs).ids == s.ids
  {
  }

  lemma PointerRead(inner: string, table: seq<PBody>)
    ensures
      var e := ParseType(inner, table);
      var r := ParseType("*" + inner, table);
      && (e.Error? ==> r.Error?)
      && (e.Ok? && e.ty.PVoid? ==> r == Ok(PPointer(PInt(8)), e.rest, e.ids))
      && (e.Ok? && !e.ty.PVoid? && !e.ty.PFunc? ==>
            r == if PIsSized(e.ty, e.ids) then Ok(PPointer(e.ty), e.rest, e.ids) else Error)
  {
    assert ("*" + inner)[1..] == inner;
  }

  lemma {:induction false} ReadPointer(elem: Ty, s: Synced, suf: string) returns (s': Synced)
    requires Valid(Pointer(elem), s.defs) && NoDigit(suf)
    ensures Outcome(Pointer(elem), suf, s, ParseType(TypeText(Pointer(elem), s) + suf, s.table), s')
    decreases Universe(s.defs) - s.ids.Keys, Pointer(elem), 0
  {
    if IsSized(elem, s.defs) {
      PointerText(elem, s, suf);
      s' := ReadType(elem, s, suf);
      PointerDone(elem, s, s', suf);
    } else {
      s' := s;
      PointerText(elem, s, suf);
      ScalarVoidRead(suf, s.table);
      PointerRead("v" + suf, s.table);
      BytePointer(elem, s, suf);
    }
  }

  lemma PointerText(elem: Ty, s: Lockstep, suf: string)
    ensures IsSized(elem, s.defs) ==>
              && Print(Pointer(elem), s.ids, s.defs).ids == Print(elem, s.ids, s.defs).ids
              && TypeText(Pointer(elem), s) + suf == "*" + (TypeText(elem, s) + suf)
    ensures !IsSized(elem, s.defs) ==>
              && Print(Pointer(elem), s.ids, s.defs).ids == s.ids
              && TypeText(Pointer(elem), s) + suf == "*" + ("v" + suf)
  {
    assert "*v" + suf == "*" + ("v" + suf);
  }

  lemma ScalarVoidRead(suf: string, table: seq<PBody>)
    ensures ParseType("v" + suf, table) == Ok(PVoid, suf, table)
  {
    assert ("v" + suf)[1..] == suf;
  }

  lemma {:induction false} BytePointer(elem: Ty, s: Synced, suf: string)
    requires !IsSized(elem, s.defs) && Print(Pointer(elem), s.ids, s.defs).ids == s.ids
    ensures Outcome(Pointer(elem), suf, s, Ok(PPointer(PInt(8)), suf, s.table), s)
  {
    hide Print, ParseType, ParseElems;
    assert Good(Pointer(elem), s.open, s.defs) && Good(Pointer(elem), s.Outside(), s.defs);
    assert Known(Pointer(elem), s.ids, s.defs);
  }

  lemma SizedNorm(elem: Ty, ids: Ids, defs: seq<StructDef>)
    requires IsSized(elem, defs)
    ensures Plain(Norm(elem, ids, defs))
  {
  }

  lemma PointerSettled(elem: Ty, s: Lockstep)
    requires IsSized(elem, s.defs)
    ensures s.Settled(elem) <==> s.Settled(Pointer(elem))
    ensures Good(elem, s.open, s.defs) <==> Good(Pointer(elem), s.open, s.defs)
    ensures Norm(Pointer(elem), s.ids, s.defs) == PPointer(Norm(elem, s.ids, s.defs))
  {
    hide Print, ParseType, ParseElems;
  }

  lemma PointerDone(elem: Ty, s: Synced, s': Synced, suf: string)
    requires IsSized(elem, s.defs)
    requires Outcome(elem, suf, s, ParseType(TypeText(elem, s) + suf, s.table), s')
    requires Print(Pointer(elem), s.ids, s.defs).ids == Print(elem, s.ids, s.defs).ids
    ensures Outcome(Pointer(elem), suf, s, ParseType("*" + (TypeText(elem, s) + suf), s.table), s')
  {
    hide Print, ParseType, ParseElems, Good, Known, Norm, IsSized, PIsSized, Valid;
    PointerRead(TypeText(elem, s) + suf, s.table);
    PointerSettled(elem, s);
    if Good(elem, s.open, s.defs) {
      NormSized(s', elem);
      SizedNorm(elem, s'.ids, s.defs);
      PointerSettled(elem, s');
    }
  }

  lemma CountedRead(brackets: string, inner: string, n: nat, table: seq<PBody>, suf: string)
    requires brackets == "[]" || brackets == "<>"
    requires n < if brackets == "[]" then U64 else U32
    ensures
      var e := ParseType(inner, table);
      var r := ParseType([brackets[0]] + inner, table);
      && (e.Error? || (e.Ok? && !PIsSized(e.ty, e.ids)) ==> r.Error?)
      && (e.Ok? && PIsSized(e.ty, e.ids) && e.rest == "x" + (Decimal(n) + ([brackets[1]] + suf)) ==>
            r == if n == 0 then Error
                 else Ok(if brackets == "[]" then PArray(e.ty, n) else PVector(e.ty, n), suf, e.ids))
  {
    hide ParseElems, MakeFunc, Letter, Decimal, Number, AfterNumber, DigitCount, PIsSized;
    var t := [brackets[0]] + inner;
    assert t[1..] == inner;
    assert ParseType(t, table) == ParseCounted(t, table);
    var rest := Decimal(n) + ([brackets[1]] + suf);
    assert ("x" + rest)[1..] == rest;
    NumberRead(n, [brackets[1]] + suf, if brackets == "[]" then U64 else U32);
    assert ([brackets[1]] + suf)[1..] == suf;
  }

  lemma ElemPrintable(elem: Ty, n: nat, defs: seq<StructDef>)
    requires Printable(Array(elem, n), defs) || Printable(Vector(elem, n), defs)
    ensures Printable(elem, defs) && IsSized(elem, defs) && !elem.Func?
  {
  }

  /** An array or a vector. */
  function Counted(square: bool, elem: Ty, n: nat): Ty {
    if square then Array(elem, n) else Vector(elem, n)
  }

  lemma CountedText(square: bool, elem: Ty, n: nat, s: Lockstep, suf: string)
    ensures
      var ty, brackets := Counted(square, elem, n), if square then "[]" else "<>";
      && Print(ty, s.ids, s.defs).ids == Print(elem, s.ids, s.defs).ids
      && TypeText(ty, s) + suf
         == [brackets[0]] + (TypeText(elem, s) + ("x" + (Decimal(n) + ([brackets[1]] + suf))))
  {
    hide Decimal;
    var brackets := if square then "[]" else "<>";
    CountedPrinted(square, elem, n, s.ids, s.defs);
    CountedRegroup([brackets[0]], TypeText(elem, s), Decimal(n), [brackets[1]], suf);
  }

  lemma CountedPrinted(square: bool, elem: Ty, n: nat, ids: Ids, defs: seq<StructDef>)
    ensures
      var a, brackets := Print(elem, ids, defs), if square then "[]" else "<>";
      Print(Counted(square, elem, n), ids, defs)
      == Printed([brackets[0]] + a.text + "x" + Decimal(n) + [brackets[1]], a.ids)
  {
    hide Decimal;
  }

  lemma CountedRegroup(open: string, a: string, count: string, close: string, suf: string)
    ensures open + a + "x" + count + close + suf == open + (a + ("x" + (count + (close + suf))))
  {
    Regroup3(open + a, "x", count, close + suf);
    assert open + a + "x" + count + close + suf == open + a + "x" + count + (close + suf);
  }

  lemma CountedSettled(square: bool, elem: Ty, n: nat, s: Lockstep)
    requires square || n != 0
    ensures Good(Counted(square, elem, n), s.open, s.defs) <==> n != 0 && Good(elem, s.open, s.defs)
    ensures n != 0 ==> (s.Settled(elem) <==> s.Settled(Counted(square, elem, n)))
    ensures Norm(Counted(square, elem, n), s.ids, s.defs)
            == if square then PArray(Norm(elem, s.ids, s.defs), n) else PVector(Norm(elem, s.ids, s.defs), n)
  {
    hide Print, ParseType, ParseElems;
  }

  /** What the element gave decides what the array or vector gives. */
  lemma CountedDone(square: bool, elem: Ty, n: nat, s: Synced, s': Synced, suf: string)
    requires IsSized(elem, s.defs) && (if square then n < U64 else 0 < n < U32)
    requires
      var tail := "x" + (Decimal(n) + ((if square then "]" else ">") + suf));
      Outcome(elem, tail, s, ParseType(TypeText(elem, s) + tail, s.table), s')
    ensures
      var ty := Counted(square, elem, n);
      Outcome(ty, suf, s, ParseType(TypeText(ty, s) + suf, s.table), s')
  {
    hide Print, ParseType, ParseElems, Good, Known, Norm, IsSized, PIsSized, Valid, Decimal, Counted, TypeText,
         Lockstep.Sync, Lockstep.Settled;
    var brackets := if square then "[]" else "<>";
    var tail := "x" + (Decimal(n) + ([brackets[1]] + suf));
    CountedText(square, elem, n, s, suf);
    CountedRead(brackets, TypeText(elem, s) + tail, n, s.table, suf);
    CountedSettled(square, elem, n, s);
    CountedSettled(square, elem, n, s');
    CountedIs(square, elem, n);
    if Good(elem, s.open, s.defs) {
      SettledKnown(s', elem);
      NormSized(s', elem);
    }
  }

  lemma CountedIs(square: bool, elem: Ty, n: nat)
    ensures !Counted(square, elem, n).Struct?
  {
  }

  lemma SettledKnown(s: Lockstep, ty: Ty)
    requires s.Settled(ty)
    ensures Known(ty, s.ids, s.defs)
  {
  }

  lemma {:induction false} ReadArray(elem: Ty, n: nat, s: Synced, suf: string) returns (s': Synced)
    requires Printable(Array(elem, n), s.defs)
    ensures Outcome(Array(elem, n), suf, s, ParseType(TypeText(Array(elem, n), s) + suf, s.table), s')
    decreases Universe(s.defs) - s.ids.Keys, Array(elem, n), 0
  {
    hide ParseType, TypeText, Outcome, Lockstep.Sync;
    var tail := "x" + (Decimal(n) + ("]" + suf));
    ElemPrintable(elem, n, s.defs);
    assert tail[0] == 'x';
    s' := ReadType(elem, s, tail);
    CountedDone(true, elem, n, s, s', suf);
  }

  lemma {:induction false} ReadVector(elem: Ty, n: nat, s: Synced, suf: string) returns (s': Synced)
    requires Printable(Vector(elem, n), s.defs)
    ensures Outcome(Vector(elem, n), suf, s, ParseType(TypeText(Vector(elem, n), s) + suf, s.table), s')
    decreases Universe(s.defs) - s.ids.Keys, Vector(elem, n), 0
  {
    hide ParseType, TypeText, Outcome, Lockstep.Sync;
    var tail := "x" + (Decimal(n) + (">" + suf));
    ElemPrintable(elem, n, s.defs);
    assert tail[0] == 'x';
    s' := ReadType(elem, s, tail);
    CountedDone(false, elem, n, s, s', suf);
  }

  // ---------- function types ----------

  ghost predicate AllTypesGood(tys: seq<Ty>, open: set<nat>, defs: seq<StructDef>) {
    forall p | p in tys :: Good(p, open, defs)
  }

  ghost predicate AllTypesSettled(tys: seq<Ty>, s: Lockstep) {
    forall p | p in tys :: s.Settled(p)
  }

  ghost predicate Params(tys: seq<Ty>, defs: seq<StructDef>) {
    forall p | p in tys :: Valid(p, defs) && IsSized(p, defs)
  }

  predicate Plain(p: PTy) {
    !p.PVoid? && !p.PToken? && !p.PFunc?
  }

  lemma {:induction false} SizedIsPlain(tys: seq<Ty>, ids: Ids, defs: seq<StructDef>)
    requires Params(tys, defs)
    ensures forall p | p in NormAll(tys, ids, defs) :: Plain(p)
  {
    if tys != [] {
      SizedIsPlain(tys[1..], ids, defs);
      assert IsSized(tys[0], defs);
    }
  }

  lemma ParamsOpen(tys: seq<Ty>, ids: Ids, tail: string, defs: seq<StructDef>)
    requires Params(tys, defs) && NoDigit(tail)
    ensures NoDigit(PrintAll(tys, ids, defs).text + tail)
  {
    if tys != [] {
      PrintOpens(tys[0], ids, defs);
    } else {
      assert PrintAll(tys, ids, defs).text + tail == tail;
    }
  }

  /** The parameters of a function type, followed by anything. */
  ghost predicate ParamsOutcome(tys: seq<Ty>, tail: string, s: Lockstep, r: Elems, s': Lockstep) {
    if AllTypesGood(tys, {}, s.defs) then
      && s.Before(s') && s'.ids == PrintAll(tys, s.ids, s.defs).ids
      && r == Prepend(NormAll(tys, s'.ids, s.defs), ParseElems(tail, s'.table, ')', false))
      && AllTypesSettled(tys, s')
    else r.Failed?
  }

  lemma ParamsText(tys: seq<Ty>, ids: Ids, defs: seq<StructDef>, tail: string)
    ensures tys == [] ==> PrintAll(tys, ids, defs).ids == ids && PrintAll(tys, ids, defs).text + tail == tail
    ensures tys != [] ==>
      var a := Print(tys[0], ids, defs);
      var rest := PrintAll(tys[1..], a.ids, defs);
      && PrintAll(tys, ids, defs).ids == rest.ids
      && PrintAll(tys, ids, defs).text + tail == a.text + (rest.text + tail)
  {
  }

  lemma {:induction false} ReadParams(tys: seq<Ty>, s: Synced, tail: string) returns (s': Synced)
    requires Params(tys, s.defs) && NoDigit(tail) && s.open == {}
    ensures ParamsOutcome(tys, tail, s,
              ParseElems(PrintAll(tys, s.ids, s.defs).text + tail, s.table, ')', false), s')
    decreases Universe(s.defs) - s.ids.Keys, tys, 0
  {
    hide Print, PrintAll, ParseType, ParseElems, Norm, NormAll, Good, Known, Valid, IsSized, Outcome, ParamsOutcome,
         Params, Printable, Universe, Extends, Lockstep.Before, Lockstep.Sync, Lockstep.Settled;
    s' := s;
    ParamsText(tys, s.ids, s.defs, tail);
    if tys == [] {
      NoParamsRead(s, tail);
    } else {
      var ids := Print(tys[0], s.ids, s.defs).ids;
      var rest := PrintAll(tys[1..], ids, s.defs).text + tail;
      assert tys[0] in tys;
      ParamsFirst(tys, s.defs);
      ParamsOpen(tys[1..], ids, tail, s.defs);
      PrintableParam(tys[0], s.defs);
      var s1 := ReadType(tys[0], s, rest);
      NothingOpen(tys[0], rest, s, ParseType(TypeText(tys[0], s) + rest, s.table), s1);
      ParamFirst(tys, s, s1, rest);
      if Good(tys[0], {}, s.defs) {
        NoneForgotten(s, s1);
        s' := ReadParams(tys[1..], s1, tail);
        ParamThenRest(tys, s1, s');
        ParamsJoined(tys, tail, s, s1, s', ParseElems(rest, s1.table, ')', false));
      } else {
        ParamsRefused(tys, tail, s, ParseElems(TypeText(tys[0], s) + rest, s.table, ')', false));
      }
    }
  }

  lemma NoParamsRead(s: Synced, tail: string)
    ensures ParamsOutcome([], tail, s, ParseElems(tail, s.table, ')', false), s)
  {
    hide ParseElems, Lockstep.Sync;
    PrependNothing(ParseElems(tail, s.table, ')', false));
  }

  lemma ParamsFirst(tys: seq<Ty>, defs: seq<StructDef>)
    requires tys != [] && Params(tys, defs)
    ensures Valid(tys[0], defs) && IsSized(tys[0], defs) && Params(tys[1..], defs)
  {
    assert tys[0] in tys;
  }

  lemma ParamsRefused(tys: seq<Ty>, tail: string, s: Lockstep, r: Elems)
    requires tys != [] && !Good(tys[0], {}, s.defs) && r.Failed?
    ensures ParamsOutcome(tys, tail, s, r, s)
  {
    assert tys[0] in tys;
  }

  /** The first parameter is accepted, or the whole list is refused. */
  lemma ParamFirst(tys: seq<Ty>, s: Synced, s1: Synced, rest: string)
    requires tys != [] && Printable(tys[0], s.defs)
    requires Good(tys[0], {}, s.defs) ==>
               ParseType(TypeText(tys[0], s) + rest, s.table) == Ok(Norm(tys[0], s1.ids, s.defs), rest, s1.table)
    requires !Good(tys[0], {}, s.defs) ==> ParseType(TypeText(tys[0], s) + rest, s.table).Error?
    ensures
      var r := ParseElems(TypeText(tys[0], s) + rest, s.table, ')', false);
      if Good(tys[0], {}, s.defs) then
        r == Prepend([Norm(tys[0], s1.ids, s.defs)], ParseElems(rest, s1.table, ')', false))
      else r.Failed?
  {
    hide Print, ParseType, ParseElems, Norm, Good, Printable, Lockstep.Sync;
    PrintOpens(tys[0], s.ids, s.defs);
    if Good(tys[0], {}, s.defs) {
      ElemRead(TypeText(tys[0], s) + rest, s.table, ')', false, Norm(tys[0], s1.ids, s.defs), rest, s1.table);
    } else {
      ElemRefused(TypeText(tys[0], s) + rest, s.table, ')', false);
    }
  }

  lemma PrintableParam(ty: Ty, defs: seq<StructDef>)
    requires Valid(ty, defs) && IsSized(ty, defs)
    ensures Printable(ty, defs) && !ty.Func?
  {
  }

  lemma ParamsJoined(tys: seq<Ty>, tail: string, s: Synced, s1: Synced, s': Synced, r: Elems)
    requires tys != []
    requires s.Before(s1) && s1.ids == Print(tys[0], s.ids, s.defs).ids
    requires ParamsOutcome(tys[1..], tail, s1, r, s')
    requires AllTypesGood(tys, {}, s.defs) <==> AllTypesGood(tys[1..], {}, s.defs)
    requires s1.Before(s') ==> Norm(tys[0], s1.ids, s.defs) == Norm(tys[0], s'.ids, s.defs)
    requires s1.Before(s') && AllTypesSettled(tys[1..], s') ==> AllTypesSettled(tys, s')
    requires PrintAll(tys, s.ids, s.defs).ids == PrintAll(tys[1..], s1.ids, s.defs).ids
    ensures ParamsOutcome(tys, tail, s, Prepend([Norm(tys[0], s1.ids, s.defs)], r), s')
  {
    hide Print, PrintAll, ParseType, ParseElems, Good, Known, Valid, IsSized, Norm;
    if AllTypesGood(tys, {}, s.defs) {
      PrependTwice([Norm(tys[0], s1.ids, s.defs)], NormAll(tys[1..], s'.ids, s.defs),
                   ParseElems(tail, s'.table, ')', false));
    }
  }

  lemma ParamThenRest(tys: seq<Ty>, s: Synced, s': Synced)
    requires tys != [] && s.Settled(tys[0]) && Good(tys[0], {}, s.defs)
    ensures AllTypesGood(tys, {}, s.defs) <==> AllTypesGood(tys[1..], {}, s.defs)
    ensures s.Before(s') ==> Norm(tys[0], s.ids, s.defs) == Norm(tys[0], s'.ids, s.defs)
    ensures s.Before(s') && AllTypesSettled(tys[1..], s') ==> AllTypesSettled(tys, s')
  {
    assert forall f | f in tys :: f == tys[0] || f in tys[1..];
    assert forall f | f in tys[1..] :: f in tys;
    if s.Before(s') {
      SettledStays(s, s', tys[0]);
    }
  }

  function SeparatorTypes(params: nat, variadic: bool): seq<PTy> {
    if variadic then [PToken] else if params == 0 then [PVoid] else []
  }

  lemma SeparatorRead(params: nat, variadic: bool, s: string, table: seq<PBody>)
    ensures ParseElems(Separator(params, variadic) + s, table, ')', false)
            == Prepend(SeparatorTypes(params, variadic), ParseElems(s, table, ')', false))
  {
    var t := Separator(params, variadic) + s;
    if Separator(params, variadic) == "" {
      assert t == s;
    } else {
      assert t[1..] == s;
      ElemRead(t, table, ')', false, SeparatorTypes(params, variadic)[0], s, table);
    }
  }

  lemma FuncMade(params: seq<PTy>, variadic: bool, ret: PTy)
    requires (forall p | p in params :: Plain(p)) && !ret.PToken?
    ensures MakeFunc(params + SeparatorTypes(|params|, variadic) + [ret]) == [PFunc(params, variadic, ret)]
  {
    var tys := params + SeparatorTypes(|params|, variadic) + [ret];
    assert tys[..|tys| - 1] == params + SeparatorTypes(|params|, variadic);
    if SeparatorTypes(|params|, variadic) != [] {
      assert (params + SeparatorTypes(|params|, variadic))[..|params|] == params;
    } else {
      assert params + [] == params;
      assert params[|params| - 1] in params;
    }
  }

  lemma FuncRead(inner: string, table: seq<PBody>, tys: seq<PTy>, f: PTy, suf: string, ids: seq<PBody>)
    ensures
      var b := ParseElems(inner, table, ')', false);
      && (b.Failed? ==> ParseType("(" + inner, table).Error?)
      && (b == Elems(tys, suf, ids) && MakeFunc(tys) == [f] ==> ParseType("(" + inner, table) == Ok(f, suf, ids))
  {
    assert ("(" + inner)[1..] == inner;
  }

  ghost predicate ResultOutcome(ret: Ty, suf: string, s: Lockstep, r: Elems, s': Lockstep) {
    if Good(ret, {}, s.defs) then
      && s.Before(s') && s'.ids == Print(ret, s.ids, s.defs).ids
      && r == Elems([Norm(ret, s'.ids, s.defs)], suf, s'.table)
      && s'.Settled(ret)
    else r.Failed?
  }

  lemma {:induction false} ReadResult(ret: Ty, s: Synced, suf: string) returns (s': Synced)
    requires Printable(ret, s.defs) && !ret.Func? && s.open == {}
    ensures ResultOutcome(ret, suf, s, ParseElems(TypeText(ret, s) + (")" + suf), s.table, ')', false), s')
    decreases Universe(s.defs) - s.ids.Keys, ret, 2
  {
    hide Outcome, ResultOutcome, Printable, TypeText;
    s' := ReadType(ret, s, ")" + suf);
    ResultDone(ret, s, s', suf);
  }

  /** With no body under way a type is read back or refused. */
  lemma NothingOpen(ty: Ty, suf: string, s: Lockstep, r: Parsed, s': Lockstep)
    requires Outcome(ty, suf, s, r, s') && s.open == {}
    ensures Good(ty, {}, s.defs) ==>
              && s.Before(s') && s'.ids == Print(ty, s.ids, s.defs).ids && s'.Settled(ty)
              && r == Ok(Norm(ty, s'.ids, s.defs), suf, s'.table)
    ensures !Good(ty, {}, s.defs) ==> r.Error?
  {
    hide Print, Norm, Good, Known, Lockstep.Settled;
  }

  lemma {:induction false} ResultDone(ret: Ty, s: Synced, s': Synced, suf: string)
    requires Printable(ret, s.defs) && s.open == {}
    requires Outcome(ret, ")" + suf, s, ParseType(TypeText(ret, s) + (")" + suf), s.table), s')
    ensures ResultOutcome(ret, suf, s, ParseElems(TypeText(ret, s) + (")" + suf), s.table, ')', false), s')
  {
    hide Print, ParseType, ParseElems, Norm, Good, Known, Valid, IsSized, Printable, Outcome, Lockstep.Sync,
         Lockstep.Settled;
    PrintOpens(ret, s.ids, s.defs);
    NothingOpen(ret, ")" + suf, s, ParseType(TypeText(ret, s) + (")" + suf), s.table), s');
    if Good(ret, {}, s.defs) {
      CloseRead(suf, s'.table, ')', false);
      ElemRead(TypeText(ret, s) + (")" + suf), s.table, ')', false, Norm(ret, s'.ids, s.defs), ")" + suf, s'.table);
    } else {
      ElemRefused(TypeText(ret, s) + (")" + suf), s.table, ')', false);
    }
  }

  lemma FuncText(params: seq<Ty>, variadic: bool, ret: Ty, s: Lockstep, suf: string)
    ensures
      var ty := Func(params, variadic, ret);
      var ps := PrintAll(params, s.ids, s.defs);
      var rt := Print(ret, ps.ids, s.defs);
      && Print(ty, s.ids, s.defs).ids == rt.ids
      && TypeText(ty, s) + suf
         == "(" + (ps.text + (Separator(|params|, variadic) + (rt.text + (")" + suf))))
  {
    var ps := PrintAll(params, s.ids, s.defs);
    var rt := Print(ret, ps.ids, s.defs);
    assert Print(Func(params, variadic, ret), s.ids, s.defs)
        == Printed("(" + ps.text + Separator(|params|, variadic) + rt.text + ")", rt.ids);
    Regroup(ps.text, Separator(|params|, variadic), rt.text, suf);
  }

  lemma Regroup(a: string, b: string, c: string, suf: string)
    ensures "(" + a + b + c + ")" + suf == "(" + (a + (b + (c + (")" + suf))))
  {
    assert "(" + a + b + c + ")" + suf == ("(" + a + b) + (c + (")" + suf));
  }

  lemma FuncParts(params: seq<Ty>, variadic: bool, ret: Ty, s: Lockstep)
    ensures Good(Func(params, variadic, ret), {}, s.defs) <==> AllTypesGood(params, {}, s.defs) && Good(ret, {}, s.defs)
    ensures AllTypesSettled(params, s) && s.Settled(ret) ==> s.Settled(Func(params, variadic, ret))
    ensures Norm(Func(params, variadic, ret), s.ids, s.defs)
            == PFunc(NormAll(params, s.ids, s.defs), variadic, Norm(ret, s.ids, s.defs))
    ensures Valid(Func(params, variadic, ret), s.defs) ==>
              Params(params, s.defs) && Printable(ret, s.defs) && !ret.Func?
  {
    hide Print, ParseType, ParseElems;
  }

  lemma {:induction false} ReadFunc(params: seq<Ty>, variadic: bool, ret: Ty, s: Synced, suf: string)
    returns (s': Synced)
    requires Valid(Func(params, variadic, ret), s.defs) && s.open == {}
    ensures
      var ty := Func(params, variadic, ret);
      Outcome(ty, suf, s, ParseType(TypeText(ty, s) + suf, s.table), s')
    decreases Universe(s.defs) - s.ids.Keys, Func(params, variadic, ret), 0
  {
    hide Print, PrintAll, ParseType, ParseElems, Norm, NormAll, Good, Known, Valid, IsSized, MakeFunc, Separator,
         SeparatorTypes, Printable, Params, ParamsOutcome, ResultOutcome, Outcome, AllTypesGood, AllTypesSettled,
         Lockstep.Settled;
    s' := s;
    var ty := Func(params, variadic, ret);
    var ids1 := PrintAll(params, s.ids, s.defs).ids;
    var last := Print(ret, ids1, s.defs).text + (")" + suf);
    var inner := PrintAll(params, s.ids, s.defs).text + (Separator(|params|, variadic) + last);
    FuncText(params, variadic, ret, s, suf);
    FuncParts(params, variadic, ret, s);
    PrintOpens(ret, ids1, s.defs);
    SeparatorOpens(|params|, variadic, last);
    var s1 := ReadParams(params, s, Separator(|params|, variadic) + last);
    if AllTypesGood(params, {}, s.defs) {
      ParamsGood(params, Separator(|params|, variadic) + last, s, ParseElems(inner, s.table, ')', false), s1);
      SeparatorRead(|params|, variadic, last, s1.table);
      s' := ReadResult(ret, s1, suf);
      FuncRest(params, variadic, ret, s, s1, s', inner, suf);
    } else {
      FuncRefused(params, variadic, ret, s, s1, inner, Separator(|params|, variadic) + last, suf);
    }
  }

  lemma ParamsGood(tys: seq<Ty>, tail: string, s: Lockstep, r: Elems, s': Lockstep)
    requires ParamsOutcome(tys, tail, s, r, s') && AllTypesGood(tys, {}, s.defs)
    ensures s.Before(s') && s'.ids == PrintAll(tys, s.ids, s.defs).ids && AllTypesSettled(tys, s')
    ensures r == Prepend(NormAll(tys, s'.ids, s.defs), ParseElems(tail, s'.table, ')', false))
  {
  }

  lemma FuncRefused(params: seq<Ty>, variadic: bool, ret: Ty, s: Synced, s1: Synced,
                    inner: string, tail: string, suf: string)
    requires s.open == {} && !AllTypesGood(params, {}, s.defs)
    requires ParamsOutcome(params, tail, s, ParseElems(inner, s.table, ')', false), s1)
    ensures Outcome(Func(params, variadic, ret), suf, s, ParseType("(" + inner, s.table), s)
  {
    hide ParseType, ParseElems, Print, Known, Valid, IsSized, Norm, MakeFunc;
    FuncRead(inner, s.table, [], PVoid, suf, []);
    FuncParts(params, variadic, ret, s);
  }

  /** The parameters and the separator accepted, the result decides. */
  lemma FuncRest(params: seq<Ty>, variadic: bool, ret: Ty, s: Synced, s1: Synced, s': Synced,
                 inner: string, suf: string)
    requires Params(params, s.defs) && Printable(ret, s.defs) && !ret.Func? && s.open == {}
    requires AllTypesGood(params, {}, s.defs) && AllTypesSettled(params, s1) && s.Before(s1)
    requires
      var last := ParseElems(Print(ret, s1.ids, s.defs).text + (")" + suf), s1.table, ')', false);
      && ParseElems(inner, s.table, ')', false)
         == Prepend(NormAll(params, s1.ids, s.defs), Prepend(SeparatorTypes(|params|, variadic), last))
      && ResultOutcome(ret, suf, s1, last, s')
    requires Print(Func(params, variadic, ret), s.ids, s.defs).ids == Print(ret, s1.ids, s.defs).ids
    ensures Outcome(Func(params, variadic, ret), suf, s, ParseType("(" + inner, s.table), s')
  {
    hide Print, PrintAll, ParseType, ParseElems, Norm, NormAll, Good, Known, Valid, IsSized, MakeFunc, Separator,
         SeparatorTypes, Params, Printable, AllTypesGood, AllTypesSettled;
    var ty := Func(params, variadic, ret);
    FuncRead(inner, s.table, [], PVoid, suf, []);
    FuncParts(params, variadic, ret, s);
    if Good(ret, {}, s.defs) {
      FuncDone(params, variadic, ret, s1, s', ParseElems(inner, s.table, ')', false), suf);
      FuncRead(inner, s.table, FuncTypes(params, variadic, ret, s'), Norm(ty, s'.ids, s.defs), suf, s'.table);
      FuncParts(params, variadic, ret, s');
    }
  }

  lemma SeparatorOpens(params: nat, variadic: bool, last: string)
    requires NoDigit(last)
    ensures NoDigit(Separator(params, variadic) + last)
  {
    if Separator(params, variadic) == "" { assert "" + last == last; }
  }

  /** The types between the parentheses. */
  function FuncTypes(params: seq<Ty>, variadic: bool, ret: Ty, s: Lockstep): seq<PTy> {
    NormAll(params, s.ids, s.defs) + SeparatorTypes(|params|, variadic) + [Norm(ret, s.ids, s.defs)]
  }

  lemma {:induction false} FuncDone(params: seq<Ty>, variadic: bool, ret: Ty, s1: Synced, s': Synced, b: Elems,
                                    suf: string)
    requires Params(params, s1.defs) && Printable(ret, s1.defs)
    requires AllTypesSettled(params, s1) && s1.Before(s')
    requires b == Prepend(NormAll(params, s1.ids, s1.defs),
                          Prepend(SeparatorTypes(|params|, variadic),
                                  Elems([Norm(ret, s'.ids, s'.defs)], suf, s'.table)))
    ensures b == Elems(FuncTypes(params, variadic, ret, s'), suf, s'.table)
    ensures MakeFunc(FuncTypes(params, variadic, ret, s'))
            == [PFunc(NormAll(params, s'.ids, s'.defs), variadic, Norm(ret, s'.ids, s'.defs))]
    ensures AllTypesSettled(params, s')
  {
    hide Print, PrintAll, ParseType, ParseElems, Norm, NormAll, Good, Known, Valid, IsSized, MakeFunc, Printable,
         Params, Plain, Prepend, SeparatorTypes, AllTypesSettled, Lockstep.Sync;
    var ps, result := NormAll(params, s'.ids, s'.defs), Norm(ret, s'.ids, s'.defs);
    ParamsStay(params, s1, s');
    SizedIsPlain(params, s'.ids, s'.defs);
    ResultNoToken(ret, s'.ids, s'.defs);
    FuncMade(ps, variadic, result);
    PrependAll(ps, SeparatorTypes(|params|, variadic), [result], suf, s'.table);
  }

  lemma PrependAll(a: seq<PTy>, b: seq<PTy>, c: seq<PTy>, rest: string, table: seq<PBody>)
    ensures Prepend(a, Prepend(b, Elems(c, rest, table))) == Elems(a + b + c, rest, table)
  {
    assert a + (b + c) == a + b + c;
  }

  lemma {:induction false} ResultNoToken(ret: Ty, ids: Ids, defs: seq<StructDef>)
    ensures !Norm(ret, ids, defs).PToken?
  {
  }

  lemma ParamsStay(params: seq<Ty>, s: Synced, s': Synced)
    requires AllTypesSettled(params, s) && s.Before(s')
    ensures AllTypesSettled(params, s') && NormAll(params, s.ids, s.defs) == NormAll(params, s'.ids, s.defs)
  {
    NormAllStable(params, s.ids, s'.ids, s.defs);
    forall t | t in params ensures s'.Settled(t) { SettledStays(s, s', t); }
  }

  // ---------- the round trip ----------

  /** The printed form of a type in any surroundings: exactly the printed characters are
      consumed, the normal form comes back, and every id resolves to the structure it was
      printed for. */
  lemma PrintedTypeParses(ty: Ty, suf: string, defs: seq<StructDef>)
    requires Printable(ty, defs) && ValidDefs(defs) && NoDigit(suf)
    ensures
      var p := Print(ty, map[], defs);
      var r := ParseType(p.text + suf, []);
      if Good(ty, {}, defs) then
        && r.Ok? && r.ty == Norm(ty, p.ids, defs) && r.rest == suf
        && |r.ids| == |p.ids|
        && forall u | u in p.ids ::
             && u < |defs| && defs[u].Body? && p.ids[u] < |r.ids|
             && r.ids[p.ids[u]] == Closed(NormFields(defs[u].fields, 0, defs[u].alloc, p.ids, defs))
      else r.Error?
  {
    hide Print, ParseType, Norm, NormFields, Good, Valid, IsSized, Known;
    var s: Synced := Lockstep(map[], [], {}, defs);
    var s' := ReadType(ty, s, suf);
    if Good(ty, {}, defs) {
      forall u | u in s'.ids
        ensures s'.Done(u)
      {}
    }
  }

  function TranslateType(ty: Ty, defs: seq<StructDef>): string {
    Print(ty, map[], defs).text
  }

  /** The exact condition for a whole specification to come back. */
  lemma RoundTripIff(ty: Ty, defs: seq<StructDef>)
    requires Printable(ty, defs) && ValidDefs(defs)
    ensures ParseSpec(TranslateType(ty, defs)).Ok? <==> IsSized(ty, defs) && Good(ty, {}, defs)
    ensures IsSized(ty, defs) && Good(ty, {}, defs) ==>
              ParseSpec(TranslateType(ty, defs)).ty == Norm(ty, Print(ty, map[], defs).ids, defs)
  {
    hide Outcome, Lockstep.Sync, ParseSpec, Print, Norm, Good, IsSized, Valid;
    var s := Start(defs);
    var s' := ReadType(ty, s, "");
    SpecOutcome(ty, s, s');
  }

  function Start(defs: seq<StructDef>): (s: Synced)
    requires ValidDefs(defs)
  {
    Lockstep(map[], [], {}, defs)
  }

  lemma SpecOutcome(ty: Ty, s: Synced, s': Synced)
    requires Printable(ty, s.defs) && s.ids == map[] && s.table == [] && s.open == {}
    requires Outcome(ty, "", s, ParseType(TypeText(ty, s) + "", s.table), s')
    ensures
      var r := ParseSpec(TranslateType(ty, s.defs));
      && (r.Ok? <==> IsSized(ty, s.defs) && Good(ty, {}, s.defs))
      && (r.Ok? ==> r.ty == Norm(ty, Print(ty, map[], s.defs).ids, s.defs))
  {
    hide Print, ParseType, Norm, Good, Valid, IsSized, PIsSized, Known;
    assert TypeText(ty, s) + "" == TranslateType(ty, s.defs);
    if Good(ty, {}, s.defs) {
      if IsSized(ty, s.defs) {
        NormSized(s', ty);
      } else {
        NormUnsized(ty, s'.ids, s.defs, s'.table);
      }
    }
  }

  lemma NormUnsized(ty: Ty, ids: Ids, defs: seq<StructDef>, table: seq<PBody>)
    requires Printable(ty, defs) && !IsSized(ty, defs)
    ensures !PIsSized(Norm(ty, ids, defs), table)
  {
  }

  // ---------- recursive structures ----------

  /** A structure holding a pointer to itself never comes back. */
  lemma SelfReferenceLost(u: nat, defs: seq<StructDef>)
    requires ValidDefs(defs) && u < |defs| && defs[u].Body?
    requires exists f :: f in defs[u].fields && f.ty == Pointer(Struct(u))
    ensures !ParseSpec(TranslateType(Struct(u), defs)).Ok?
  {
    hide ParseSpec, ParseType, Print;
    assert u in Universe(defs);
    var f :| f in defs[u].fields && f.ty == Pointer(Struct(u));
    assert !Good(Struct(u), {} + {u}, defs);
    assert !Good(f.ty, {} + {u}, defs);
    RoundTripIff(Struct(u), defs);
  }

  /** The linked list of integers that the grammar's documentation spells `=0{*%0i}` is refused:
      its element is a pointer to a structure that has no body yet. */
  lemma DocumentedListRefused()
    ensures ParseSpec("=0{*%0i}").Error?
  {
    hide ParseType, ParseElems;
    assert "{*%0i}"[1..] == "*%0i}";
    OpenPointerRefused();
    ElemRefused("*%0i}", [Open], '}', true);
    assert [] + [Open] == [Open];
    assert "=" + Decimal(0) + "{" + "*%0i}" == "=0{*%0i}";
    DefinitionRead(0, "*%0i}", []);
  }

  lemma OpenPointerRefused()
    ensures ParseType("*%0i}", [Open]).Error?
  {
    hide ParseType;
    assert "%" + Decimal(0) + "i}" == "%0i}";
    ReferenceRead(0, "i}", [Open]);
    assert "*" + "%0i}" == "*%0i}";
    PointerRead("%0i}", [Open]);
  }
}
