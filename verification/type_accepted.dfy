/** What the type parser accepts, from any text at all. */
module TypeAccepted {
  import opened Words
  import opened Types
  import opened TypeParser

  /** A type as the parser sees to it: integers of five widths; parameters of functions that are values,
      though a result may be a function; elements with a size, and not none of them; counts in range
      and not zero; pointers to functions or to something with a size. */
  predicate Built(ty: PTy, ids: seq<PBody>) {
    match ty
    case PInt(w) => w in {8, 16, 32, 64, 128}
    case PFunc(params, _, ret) =>
      && (forall p | p in params :: Built(p, ids) && IsValue(p))
      && Built(ret, ids) && !ret.PToken?
    case PRef(id) => id < |ids|
    case PTuple(elems) => elems != [] && forall e | e in elems :: Built(e, ids) && IsValue(e) && PIsSized(e, ids)
    case PVector(elem, n) => 0 < n < U32 && Built(elem, ids) && IsValue(elem) && PIsSized(elem, ids)
    case PArray(elem, n) => 0 < n < U64 && Built(elem, ids) && IsValue(elem) && PIsSized(elem, ids)
    case PPointer(elem) => Built(elem, ids) && (elem.PFunc? || (IsValue(elem) && PIsSized(elem, ids)))
    case _ => true
  }

  /** Neither void nor the mark of variadic parameters nor a function. */
  predicate IsValue(ty: PTy) {
    !ty.PVoid? && !ty.PToken? && !ty.PFunc?
  }

  /** What has a size is the type of values, and complete if it is a structure. */
  lemma SizedIsValue(ty: PTy, ids: seq<PBody>)
    requires PIsSized(ty, ids)
    ensures IsValue(ty) && (ty.PRef? ==> ty.id < |ids| && ids[ty.id].Closed?)
  {
  }

  predicate AllBuilt(tys: seq<PTy>, ids: seq<PBody>, sized: bool) {
    forall t | t in tys :: Built(t, ids) && (sized ==> PIsSized(t, ids))
  }

  /** The bodies of the structures that are complete are not empty and of such types. */
  predicate TableBuilt(ids: seq<PBody>) {
    forall i | 0 <= i < |ids| && ids[i].Closed? :: ids[i].elems != [] && AllBuilt(ids[i].elems, ids, true)
  }

  /** A later table: what was complete still is. */
  predicate Later(ids: seq<PBody>, ids': seq<PBody>) {
    |ids| <= |ids'| && forall i | 0 <= i < |ids| && ids[i].Closed? :: ids'[i].Closed?
  }

  /** The entries there were are as they were, and all new ones are complete. */
  predicate Added(ids: seq<PBody>, ids': seq<PBody>) {
    ids <= ids' && forall i | |ids| <= i < |ids'| :: ids'[i].Closed?
  }

  lemma {:induction false} SizedLater(ty: PTy, ids: seq<PBody>, ids': seq<PBody>)
    requires PIsSized(ty, ids) && Later(ids, ids')
    ensures PIsSized(ty, ids')
  {
    match ty
    case PVector(elem, _) => SizedLater(elem, ids, ids');
    case PArray(elem, _) => SizedLater(elem, ids, ids');
    case _ =>
  }

  lemma {:induction false} BuiltLater(ty: PTy, ids: seq<PBody>, ids': seq<PBody>)
    requires Built(ty, ids) && Later(ids, ids')
    ensures Built(ty, ids')
  {
    hide PIsSized;
    match ty
    case PFunc(params, _, ret) =>
      forall p | p in params
        ensures Built(p, ids')
      {
        BuiltLater(p, ids, ids');
      }
      BuiltLater(ret, ids, ids');
    case PTuple(elems) =>
      forall e | e in elems
        ensures Built(e, ids') && PIsSized(e, ids')
      {
        BuiltLater(e, ids, ids');
        SizedLater(e, ids, ids');
      }
    case PVector(elem, _) => BuiltLater(elem, ids, ids'); SizedLater(elem, ids, ids');
    case PArray(elem, _) => BuiltLater(elem, ids, ids'); SizedLater(elem, ids, ids');
    case PPointer(elem) =>
      BuiltLater(elem, ids, ids');
      if !elem.PFunc? { SizedLater(elem, ids, ids'); }
    case _ =>
  }

  lemma AllBuiltLater(tys: seq<PTy>, ids: seq<PBody>, ids': seq<PBody>, sized: bool)
    requires AllBuilt(tys, ids, sized) && Later(ids, ids')
    ensures AllBuilt(tys, ids', sized)
  {
    hide Built, PIsSized;
    forall t | t in tys
      ensures Built(t, ids') && (sized ==> PIsSized(t, ids'))
    {
      BuiltLater(t, ids, ids');
      if sized { SizedLater(t, ids, ids'); }
    }
  }

  lemma OpenedTable(ids: seq<PBody>)
    requires TableBuilt(ids)
    ensures TableBuilt(ids + [Open])
  {
    hide AllBuilt;
    forall i | 0 <= i < |ids + [Open]| && (ids + [Open])[i].Closed?
      ensures AllBuilt((ids + [Open])[i].elems, ids + [Open], true)
    {
      AllBuiltLater(ids[i].elems, ids, ids + [Open], true);
    }
  }

  lemma ClosedTable(ids: seq<PBody>, tys: seq<PTy>, ids': seq<PBody>)
    requires TableBuilt(ids') && Added(ids + [Open], ids') && tys != [] && AllBuilt(tys, ids', true)
    ensures
      var table := ids'[|ids| := Closed(tys)];
      TableBuilt(table) && Added(ids, table)
  {
    hide AllBuilt;
    var table := ids'[|ids| := Closed(tys)];
    AllBuiltLater(tys, ids', table, true);
    forall i | 0 <= i < |table| && table[i].Closed?
      ensures table[i].elems != [] && AllBuilt(table[i].elems, table, true)
    {
      if i != |ids| { AllBuiltLater(ids'[i].elems, ids', table, true); }
    }
    assert ids == table[..|ids|];
  }

  lemma LaterAdded(ids: seq<PBody>, ids': seq<PBody>)
    requires Added(ids, ids')
    ensures Later(ids, ids')
  {
  }

  lemma AddedTwice(a: seq<PBody>, b: seq<PBody>, c: seq<PBody>)
    requires Added(a, b) && Added(b, c)
    ensures Added(a, c)
  {
  }

  lemma FuncBuilt(tys: seq<PTy>, ids: seq<PBody>)
    requires AllBuilt(tys, ids, false) && MakeFunc(tys) != []
    ensures Built(MakeFunc(tys)[0], ids)
  {
    hide PIsSized;
    var ret, params := tys[|tys| - 1], tys[..|tys| - 1];
    var last := params[|params| - 1];
    var kept := if last.PToken? || last.PVoid? then params[..|params| - 1] else params;
    assert ret in tys;
    forall p | p in kept
      ensures p in tys && Built(p, ids)
    {
    }
  }

  lemma LetterBuilt(c: char, ids: seq<PBody>)
    requires Letter(c) != []
    ensures Built(Letter(c)[0], ids)
  {
  }

  // ---------- the parser ----------

  /** A successful call gives such a type, and leaves such a table behind. */
  predicate Accepts(r: Parsed, ids: seq<PBody>) {
    r.Ok? ==> Built(r.ty, r.ids) && TableBuilt(r.ids) && Added(ids, r.ids)
  }

  predicate AcceptsAll(r: Elems, ids: seq<PBody>, sized: bool) {
    r.Elems? ==> AllBuilt(r.tys, r.ids, sized) && TableBuilt(r.ids) && Added(ids, r.ids)
  }

  lemma {:induction false} TypeAccepted(s: string, ids: seq<PBody>)
    requires TableBuilt(ids)
    ensures Accepts(ParseType(s, ids), ids)
    decreases |s|, 0
  {
    hide TableBuilt, Added, AllBuilt, PIsSized, MakeFunc, Letter, Number, DigitCount;
    if ParseType(s, ids).Ok? {
      NothingAdded(ids);
      if s[0] == '{' {
        ElemsAccepted(s[1..], ids, '}', true);
        TupleBuilt(ParseElems(s[1..], ids, '}', true).tys, ParseElems(s[1..], ids, '}', true).ids);
      } else if s[0] == '(' {
        ElemsAccepted(s[1..], ids, ')', false);
        FuncBuilt(ParseElems(s[1..], ids, ')', false).tys, ParseElems(s[1..], ids, ')', false).ids);
      } else if s[0] == '*' {
        TypeAccepted(s[1..], ids);
        PointerBuilt(ParseType(s[1..], ids).ty, ParseType(s[1..], ids).ids);
      } else if s[0] == '[' || s[0] == '<' {
        TypeAccepted(s[1..], ids);
        CountedAccepted(s, ids);
      } else if s[0] == '=' {
        var k := 1 + DigitCount(s[1..]) + 1;
        assert AfterNumber(s[1..])[1..] == s[k..];
        OpenedTable(ids);
        ElemsAccepted(s[k..], ids + [Open], '}', true);
        var b := ParseElems(s[k..], ids + [Open], '}', true);
        ClosedTable(ids, b.tys, b.ids);
      } else if s[0] == '%' {
      } else {
        if s[0] != '&' { LetterBuilt(s[0], ids); }
      }
    }
  }

  lemma NothingAdded(ids: seq<PBody>)
    ensures Added(ids, ids)
  {
  }

  lemma TupleBuilt(tys: seq<PTy>, ids: seq<PBody>)
    requires AllBuilt(tys, ids, true)
    ensures tys != [] ==> Built(PTuple(tys), ids)
  {
    forall t | t in tys
      ensures IsValue(t)
    {
      SizedIsValue(t, ids);
    }
  }

  lemma PointerBuilt(ty: PTy, ids: seq<PBody>)
    requires Built(ty, ids)
    ensures Built(PPointer(PInt(8)), ids)
    ensures ty.PFunc? || PIsSized(ty, ids) ==> Built(PPointer(ty), ids)
  {
    if PIsSized(ty, ids) { SizedIsValue(ty, ids); }
  }

  lemma CountedAccepted(s: string, ids: seq<PBody>)
    requires s != "" && (s[0] == '[' || s[0] == '<') && ParseCounted(s, ids).Ok?
    requires Accepts(ParseType(s[1..], ids), ids)
    ensures Accepts(ParseCounted(s, ids), ids)
  {
    hide ParseType, TableBuilt, Added, PIsSized, DigitCount;
    SizedIsValue(ParseType(s[1..], ids).ty, ParseType(s[1..], ids).ids);
  }

  lemma {:induction false} ElemsAccepted(s: string, ids: seq<PBody>, close: char, sized: bool)
    requires TableBuilt(ids)
    ensures AcceptsAll(ParseElems(s, ids, close, sized), ids, sized)
    decreases |s|, 1
  {
    hide ParseType, ParseElems, TableBuilt, Added, PIsSized, Built;
    NothingAdded(ids);
    if s == "" || s[0] == close {
      ElemsEnd(s, ids, close, sized);
    } else {
      ElemsStep(s, ids, close, sized);
      var e := ParseType(s, ids);
      TypeAccepted(s, ids);
      if e.Ok? {
        ElemsAccepted(e.rest, e.ids, close, sized);
        var more := ParseElems(e.rest, e.ids, close, sized);
        if ParseElems(s, ids, close, sized).Elems? {
          AddedTwice(ids, e.ids, more.ids);
          LaterAdded(e.ids, more.ids);
          BuiltLater(e.ty, e.ids, more.ids);
          if sized { SizedLater(e.ty, e.ids, more.ids); }
        }
      }
    }
  }

  /** A whole specification that is accepted gives a type with a size, and every structure in it is
      complete, not empty, and made of such types. */
  lemma SpecAccepted(s: string)
    requires ParseSpec(s).Ok?
    ensures
      var r := ParseSpec(s);
      && Built(r.ty, r.ids) && IsValue(r.ty) && PIsSized(r.ty, r.ids)
      && forall i | 0 <= i < |r.ids| ::
           r.ids[i].Closed? && r.ids[i].elems != [] && AllBuilt(r.ids[i].elems, r.ids, true)
  {
    hide ParseType, PIsSized, Built, AllBuilt;
    TypeAccepted(s, []);
    SizedIsValue(ParseSpec(s).ty, ParseSpec(s).ids);
  }
}
