/** The type parser, as a function on the characters still to be read and the id table. */
module TypeParser {
  import opened Words
  import opened Types

  /** The outcome of one call: a type and what is left, the null result at the end of the
      specification, an error, or the use of a null result as a type. */
  datatype Parsed = Ok(ty: PTy, rest: string, ids: seq<PBody>) | Null | Error | Crash

  datatype Elems = Elems(tys: seq<PTy>, rest: string, ids: seq<PBody>) | Failed | Crashed

  // ---------- numbers ----------

  predicate IsDigit(c: char) {
    '0' <= c <= '9'
  }

  function DigitCount(s: string): (n: nat)
    ensures n <= |s|
  {
    if s == "" || !IsDigit(s[0]) then 0 else 1 + DigitCount(s[1..])
  }

  function DigitValue(c: char): nat
    requires IsDigit(c)
  {
    c as nat - '0' as nat
  }

  function Value(s: string): nat
    requires forall c | c in s :: IsDigit(c)
  {
    if s == "" then 0 else Value(s[..|s| - 1]) * 10 + DigitValue(s[|s| - 1])
  }

  lemma NoValue()
    ensures Value("") == 0
  {
  }

  lemma ValueStep(s: string, c: char)
    requires IsDigit(c) && forall d | d in s :: IsDigit(d)
    ensures Value(s + [c]) == Value(s) * 10 + DigitValue(c)
  {
    assert (s + [c])[..|s|] == s;
  }

  lemma DigitStep(s: string)
    ensures DigitCount(s) == if s == "" || !IsDigit(s[0]) then 0 else 1 + DigitCount(s[1..])
  {
  }

  lemma DigitsAreDigits(s: string)
    ensures forall c | c in s[..DigitCount(s)] :: IsDigit(c)
  {
    if s != "" && IsDigit(s[0]) {
      DigitsAreDigits(s[1..]);
      assert s[..DigitCount(s)] == [s[0]] + s[1..][..DigitCount(s[1..])];
    }
  }

  /** A number read into an unsigned integer of the given range; a number too large for it is
      read as the largest value. */
  function Number(s: string, range: nat): nat
    requires range > 0
  {
    DigitsAreDigits(s);
    var v := Value(s[..DigitCount(s)]);
    if v < range then v else range - 1
  }

  function AfterNumber(s: string): string {
    s[DigitCount(s)..]
  }

  // ---------- the grammar ----------

  function Letter(c: char): (r: seq<PTy>)
    ensures |r| <= 1
  {
    if c == '?' || c == 'b' || c == 'B' then [PInt(8)]
    else if c == 'h' || c == 'H' then [PInt(16)]
    else if c == 'i' || c == 'I' then [PInt(32)]
    else if c == 'l' || c == 'L' then [PInt(64)]
    else if c == 'o' || c == 'O' then [PInt(128)]
    else if c == 'e' then [PScalar(Half)]
    else if c == 'f' then [PScalar(Float)]
    else if c == 'd' then [PScalar(Double)]
    else if c == 'D' then [PScalar(LongDouble)]
    else if c == 'M' then [PScalar(Mmx)]
    else if c == 'Q' then [PScalar(Quad)]
    else if c == 'v' then [PVoid]
    else []
  }

  /** `x`, a number and the closing bracket; zero when that is not what follows. */
  function Count(s: string, close: char, range: nat): (n: nat)
    requires range > 0
    ensures n > 0 ==> s != "" && AfterNumber(s[1..]) != ""
  {
    if s == "" || s[0] != 'x' || DigitCount(s[1..]) == 0 then 0
    else if AfterNumber(s[1..]) == "" || AfterNumber(s[1..])[0] != close then 0
    else Number(s[1..], range)
  }

  /** What the elements of a structure with id `k` make of its definition. */
  function Defined(b: Elems, k: nat): Parsed
    requires b.Elems? ==> k < |b.ids|
  {
    if b.Crashed? then Crash
    else if b.Failed? || b.tys == [] then Error
    else Ok(PRef(k), b.rest, b.ids[k := Closed(b.tys)])
  }

  function ParseType(s: string, ids: seq<PBody>): (r: Parsed)
    ensures r.Ok? ==> |r.rest| < |s| && |r.ids| >= |ids|
    decreases |s|, 1
  {
    if s == "" then Null
    else if s[0] == '{' then
      var b := ParseElems(s[1..], ids, '}', true);
      if b.Crashed? then Crash else if b.Failed? || b.tys == [] then Error
      else Ok(PTuple(b.tys), b.rest, b.ids)
    else if s[0] == '[' then ParseCounted(s, ids)
    else if s[0] == '<' then ParseCounted(s, ids)
    else if s[0] == '*' then
      var e := ParseType(s[1..], ids);
      if e.Crash? then Crash
      else if !e.Ok? then Error
      else if e.ty.PVoid? then Ok(PPointer(PInt(8)), e.rest, e.ids)
      else if !e.ty.PFunc? && !PIsSized(e.ty, e.ids) then Error
      else Ok(PPointer(e.ty), e.rest, e.ids)
    else if s[0] == '(' then
      var b := ParseElems(s[1..], ids, ')', false);
      if b.Crashed? then Crash else if b.Failed? then Error
      else
        var f := MakeFunc(b.tys);
        if f == [] then Error else Ok(f[0], b.rest, b.ids)
    else if s[0] == '&' then Ok(PToken, s[1..], ids)
    else if s[0] == '=' then
      if DigitCount(s[1..]) == 0 || Number(s[1..], U32) != |ids| then Error
      else
        var t := AfterNumber(s[1..]);
        if t == "" || t[0] != '{' then Error
        else
          Defined(ParseElems(t[1..], ids + [Open], '}', true), |ids|)
    else if s[0] == '%' then
      if DigitCount(s[1..]) == 0 || Number(s[1..], U32) >= |ids| then Error
      else Ok(PRef(Number(s[1..], U32)), AfterNumber(s[1..]), ids)
    else
      var l := Letter(s[0]);
      if l == [] then Error else Ok(l[0], s[1..], ids)
  }

  /** `[` type `x` count `]`, and the same between angle brackets for vectors. */
  function ParseCounted(s: string, ids: seq<PBody>): (r: Parsed)
    requires s != "" && (s[0] == '[' || s[0] == '<')
    ensures r.Ok? ==> |r.rest| < |s| && |r.ids| >= |ids|
    decreases |s|, 0
  {
    var e := ParseType(s[1..], ids);
    if e.Null? || e.Crash? then Crash
    else if e.Error? || !PIsSized(e.ty, e.ids) then Error
    else
      var n := if s[0] == '[' then Count(e.rest, ']', U64) else Count(e.rest, '>', U32);
      if n == 0 then Error
      else Ok(if s[0] == '[' then PArray(e.ty, n) else PVector(e.ty, n), AfterNumber(e.rest[1..])[1..], e.ids)
  }

  /** Types up to the closing character, which is consumed; `sized` asks that each has a size. */
  function ParseElems(s: string, ids: seq<PBody>, close: char, sized: bool): (r: Elems)
    ensures r.Elems? ==> |r.rest| < |s| && |r.ids| >= |ids|
    decreases |s|, 2
  {
    if s == "" then Failed
    else if s[0] == close then Elems([], s[1..], ids)
    else
      var e := ParseType(s, ids);
      if e.Crash? then Crashed
      else if !e.Ok? || (sized && !PIsSized(e.ty, e.ids)) then Failed
      else
        var more := ParseElems(e.rest, e.ids, close, sized);
        if more.Elems? then Elems([e.ty] + more.tys, more.rest, more.ids) else more
  }

  /** A function type out of the types between parentheses, the last being the result; empty
      when the list is not one a function can have. */
  function MakeFunc(tys: seq<PTy>): (r: seq<PTy>)
    ensures |r| <= 1
  {
    if |tys| < 2 then []
    else
      var ret, params := tys[|tys| - 1], tys[..|tys| - 1];
      var last := params[|params| - 1];
      if ret.PToken? then []
      else if !last.PToken? && last.PVoid? && |params| != 1 then []
      else
        var kept := if last.PToken? || last.PVoid? then params[..|params| - 1] else params;
        if exists p | p in kept :: p.PVoid? || p.PToken? || p.PFunc? then []
        else [PFunc(kept, last.PToken?, ret)]
  }

  /** The whole specification: nothing may be left over and the type must have a size. */
  function ParseSpec(s: string): Parsed {
    var r := ParseType(s, []);
    if r.Null? then Crash
    else if !r.Ok? then r
    else if r.rest != "" then Error
    else if !PIsSized(r.ty, r.ids) then Error
    else r
  }

  function Prepend(tys: seq<PTy>, e: Elems): Elems {
    if e.Elems? then Elems(tys + e.tys, e.rest, e.ids) else e
  }

  /** One more element of a list. */
  lemma ElemRead(s: string, ids: seq<PBody>, close: char, sized: bool, ty: PTy, rest: string, ids': seq<PBody>)
    requires s != "" && s[0] != close
    requires ParseType(s, ids) == Ok(ty, rest, ids')
    requires sized ==> PIsSized(ty, ids')
    ensures ParseElems(s, ids, close, sized) == Prepend([ty], ParseElems(rest, ids', close, sized))
  {
  }

  lemma PrependTwice(a: seq<PTy>, b: seq<PTy>, r: Elems)
    ensures Prepend(a, Prepend(b, r)) == Prepend(a + b, r)
  {
    if r.Elems? { assert a + (b + r.tys) == a + b + r.tys; }
  }

  lemma PrependNothing(e: Elems)
    ensures Prepend([], e) == e
  {
    if e.Elems? { assert [] + e.tys == e.tys; }
  }

  /** One turn of the loop over the elements of a list. */
  lemma ElemsStep(s: string, ids: seq<PBody>, close: char, sized: bool)
    requires s != "" && s[0] != close
    ensures
      var e := ParseType(s, ids);
      ParseElems(s, ids, close, sized)
      == if e.Crash? then Crashed
         else if !e.Ok? || (sized && !PIsSized(e.ty, e.ids)) then Failed
         else Prepend([e.ty], ParseElems(e.rest, e.ids, close, sized))
  {
  }

  lemma ElemsEnd(s: string, ids: seq<PBody>, close: char, sized: bool)
    requires s == "" || s[0] == close
    ensures ParseElems(s, ids, close, sized) == if s == "" then Failed else Elems([], s[1..], ids)
  {
  }

  /** A definition, up to the elements of its body. */
  lemma DefinitionStep(s: string, ids: seq<PBody>)
    requires s != "" && s[0] == '='
    ensures
      var t := AfterNumber(s[1..]);
      ParseType(s, ids)
      == if DigitCount(s[1..]) == 0 || Number(s[1..], U32) != |ids| || t == "" || t[0] != '{' then Error
         else Defined(ParseElems(t[1..], ids + [Open], '}', true), |ids|)
  {
    hide ParseElems, ParseCounted, MakeFunc, Letter, DigitCount, Number, AfterNumber;
  }

  // ---------- when a null type is used ----------

  /** What is left over of a text is the end of it. */
  predicate IsTail(t: string, s: string) {
    |t| <= |s| && t == s[|s| - |t|..]
  }

  lemma TailOfTail(t: string, s: string, k: nat)
    requires k <= |s| && IsTail(t, s[k..])
    ensures IsTail(t, s)
  {
  }

  /** The last character opens an array or a vector. */
  predicate EndsOpen(s: string) {
    s != "" && (s[|s| - 1] == '[' || s[|s| - 1] == '<')
  }

  lemma OpenTail(t: string, s: string)
    requires IsTail(t, s) && EndsOpen(t)
    ensures EndsOpen(s)
  {
  }

  lemma {:induction false} TypeTail(s: string, ids: seq<PBody>)
    ensures ParseType(s, ids).Ok? ==> IsTail(ParseType(s, ids).rest, s)
    decreases |s|, 0
  {
    hide MakeFunc, PIsSized, Letter, Number, DigitCount, IsTail;
    var r := ParseType(s, ids);
    if r.Ok? {
      if s[0] == '{' || s[0] == '(' {
        ElemsTail(s[1..], ids, if s[0] == '{' then '}' else ')', s[0] == '{');
        TailOfTail(r.rest, s, 1);
      } else if s[0] == '*' {
        TypeTail(s[1..], ids);
        TailOfTail(r.rest, s, 1);
      } else if s[0] == '[' || s[0] == '<' {
        TypeTail(s[1..], ids);
        CountedTail(s, ids);
      } else if s[0] == '=' {
        var k := 1 + DigitCount(s[1..]) + 1;
        assert AfterNumber(s[1..])[1..] == s[k..];
        ElemsTail(s[k..], ids + [Open], '}', true);
        TailOfTail(r.rest, s, k);
      } else {
        RestTail(s, if s[0] == '%' then 1 + DigitCount(s[1..]) else 1);
      }
    }
  }

  lemma RestTail(s: string, k: nat)
    requires k <= |s|
    ensures IsTail(s[k..], s)
  {
  }

  /** What is left behind the bracket that closes an array is left of what followed its element. */
  lemma CountedTail(s: string, ids: seq<PBody>)
    requires s != "" && (s[0] == '[' || s[0] == '<') && ParseCounted(s, ids).Ok?
    requires IsTail(ParseType(s[1..], ids).rest, s[1..])
    ensures IsTail(ParseCounted(s, ids).rest, s)
  {
    hide ParseType, PIsSized, Number, DigitCount, IsTail;
    var rest := ParseType(s[1..], ids).rest;
    var k := 1 + DigitCount(rest[1..]) + 1;
    assert AfterNumber(rest[1..])[1..] == rest[k..];
    RestTail(rest, k);
    TailTransitive(rest[k..], rest, s[1..]);
    TailOfTail(rest[k..], s, 1);
  }

  lemma TailTransitive(a: string, b: string, c: string)
    requires IsTail(a, b) && IsTail(b, c)
    ensures IsTail(a, c)
  {
  }

  lemma {:induction false} ElemsTail(s: string, ids: seq<PBody>, close: char, sized: bool)
    ensures ParseElems(s, ids, close, sized).Elems? ==> IsTail(ParseElems(s, ids, close, sized).rest, s)
    decreases |s|, 1
  {
    hide ParseType, ParseElems, PIsSized, IsTail;
    if s == "" || s[0] == close {
      ElemsEnd(s, ids, close, sized);
      if s != "" { RestTail(s, 1); }
    } else {
      ElemsStep(s, ids, close, sized);
      var e := ParseType(s, ids);
      if e.Ok? {
        TypeTail(s, ids);
        ElemsTail(e.rest, e.ids, close, sized);
        if ParseElems(s, ids, close, sized).Elems? {
          TailTransitive(ParseElems(s, ids, close, sized).rest, e.rest, s);
        }
      }
    }
  }

  /** A null type is used only where the text ends in an opening bracket. */
  lemma {:induction false} TypeCrash(s: string, ids: seq<PBody>)
    ensures ParseType(s, ids).Null? <==> s == ""
    ensures ParseType(s, ids).Crash? ==> EndsOpen(s)
    decreases |s|, 0
  {
    hide MakeFunc, PIsSized, Letter, Number, DigitCount;
    if ParseType(s, ids).Crash? {
      if s[0] == '{' || s[0] == '(' {
        ElemsCrash(s[1..], ids, if s[0] == '{' then '}' else ')', s[0] == '{');
      } else if s[0] == '*' || s[0] == '[' || s[0] == '<' {
        TypeCrash(s[1..], ids);
      } else if s[0] == '=' {
        var k := 1 + DigitCount(s[1..]) + 1;
        assert AfterNumber(s[1..])[1..] == s[k..];
        ElemsCrash(s[k..], ids + [Open], '}', true);
        assert EndsOpen(s[k..]) && IsTail(s[k..], s);
      }
    }
  }

  lemma {:induction false} ElemsCrash(s: string, ids: seq<PBody>, close: char, sized: bool)
    ensures ParseElems(s, ids, close, sized).Crashed? ==> EndsOpen(s)
    decreases |s|, 1
  {
    hide ParseType, ParseElems, PIsSized, IsTail, EndsOpen;
    if s == "" || s[0] == close {
      ElemsEnd(s, ids, close, sized);
    } else {
      ElemsStep(s, ids, close, sized);
      var e := ParseType(s, ids);
      TypeCrash(s, ids);
      if e.Ok? {
        TypeTail(s, ids);
        ElemsCrash(e.rest, e.ids, close, sized);
        if ParseElems(e.rest, e.ids, close, sized).Crashed? { OpenTail(e.rest, s); }
      }
    }
  }

  /** A whole specification makes the parser use a null type only if it is empty or ends in an
      opening bracket. */
  lemma SpecCrash(s: string)
    ensures ParseSpec(s).Crash? ==> s == "" || EndsOpen(s)
  {
    hide ParseType, PIsSized, EndsOpen;
    TypeCrash(s, []);
  }

  /** It does if it is empty, and if it consists of nothing but pointers, arrays and vectors that
      are opened, the last of them no pointer. */
  lemma {:induction false} OpeningsCrash(s: string, ids: seq<PBody>)
    requires EndsOpen(s) && forall c | c in s :: c == '*' || c == '[' || c == '<'
    ensures ParseType(s, ids).Crash?
  {
    assert s[0] in s;
    if |s| > 1 {
      assert forall c | c in s[1..] :: c in s;
      OpeningsCrash(s[1..], ids);
    } else {
      assert s[1..] == "" && ParseType("", ids).Null?;
      assert ParseCounted(s, ids).Crash?;
    }
  }

  lemma SpecCrashes(s: string)
    requires s == "" || (EndsOpen(s) && forall c | c in s :: c == '*' || c == '[' || c == '<')
    ensures ParseSpec(s).Crash?
  {
    hide ParseType;
    if s == "" { TypeCrash(s, []); } else { OpeningsCrash(s, []); }
  }

  // ---------- the parser itself ----------

  /** What one call hands back: a type, the null pointer, an error, or nothing at all because a
      null pointer was used. */
  datatype Result = Type(ty: PTy) | NullType | Invalid | Fault

  /** How a list of types came out. */
  datatype Status = Fine | Bad | Fatal

  /** One call of the parser: the specification, the index into it, and the id table. */
  class Parser {
    const spec: string
    var i: nat
    var ids: seq<PBody>

    constructor (spec: string)
      ensures this.spec == spec && i == 0 && ids == []
    {
      this.spec := spec;
      i, ids := 0, [];
    }

    /** The characters still to be read. */
    function Rest(): string
      reads this
    {
      if i <= |spec| then spec[i..] else ""
    }

    /** The call did what the grammar says. */
    predicate Agrees(r: Result, p: Parsed)
      reads this
    {
      match p
      case Ok(ty, rest, table) => r == Type(ty) && i <= |spec| && Rest() == rest && ids == table
      case Null => r.NullType?
      case Error => r.Invalid?
      case Crash => r.Fault?
    }

    predicate AgreesOnAll(status: Status, tys: seq<PTy>, e: Elems)
      reads this
    {
      match e
      case Elems(all, rest, table) => status.Fine? && tys == all && i <= |spec| && Rest() == rest && ids == table
      case Failed => status.Bad?
      case Crashed => status.Fatal?
    }

    /** A run of digits; `found` is false when there is none. */
    method ReadNumber(range: nat) returns (found: bool, n: nat)
      requires i <= |spec| && range > 0
      modifies this`i
      ensures old(i) <= i <= |spec| && Rest() == AfterNumber(old(Rest()))
      ensures found <==> DigitCount(old(Rest())) > 0
      ensures found ==> n == Number(old(Rest()), range)
    {
      hide DigitCount, Value;
      var v, start := 0, i;
      ghost var s := Rest();
      NoValue();
      while i < |spec| && IsDigit(spec[i])
        invariant start <= i <= |spec|
        invariant forall c | c in spec[start..i] :: IsDigit(c)
        invariant v == Value(spec[start..i])
        invariant DigitCount(s) == i - start + DigitCount(spec[i..])
      {
        assert spec[start..i + 1] == spec[start..i] + [spec[i]];
        assert spec[i..][1..] == spec[i + 1..];
        DigitStep(spec[i..]);
        ValueStep(spec[start..i], spec[i]);
        v := v * 10 + DigitValue(spec[i]);
        i := i + 1;
      }
      DigitStep(spec[i..]);
      assert s[..i - start] == spec[start..i];
      assert s[i - start..] == spec[i..];
      found, n := i > start, if v < range then v else range - 1;
    }

    /** Types up to the closing character. */
    method ReadElems(close: char, sized: bool) returns (status: Status, tys: seq<PTy>)
      requires i <= |spec|
      modifies this
      ensures AgreesOnAll(status, tys, ParseElems(old(Rest()), old(ids), close, sized))
      decreases |spec| - i, 2
    {
      hide ParseType, ParseElems, PIsSized;
      tys := [];
      ghost var whole := ParseElems(Rest(), ids, close, sized);
      PrependNothing(whole);
      while i < |spec| && spec[i] != close
        invariant old(i) <= i <= |spec|
        invariant whole == Prepend(tys, ParseElems(Rest(), ids, close, sized))
      {
        ghost var s, table := Rest(), ids;
        ElemsStep(s, table, close, sized);
        var r := ReadType();
        if r.Fault? {
          return Fatal, [];
        }
        if !r.Type? {
          return Bad, [];
        }
        if sized && !PIsSized(r.ty, ids) {
          return Bad, [];
        }
        PrependTwice(tys, [r.ty], ParseElems(Rest(), ids, close, sized));
        tys := tys + [r.ty];
      }
      ElemsEnd(Rest(), ids, close, sized);
      if i >= |spec| {
        return Bad, [];
      }
      i := i + 1;
      status := Fine;
    }

    method ReadType() returns (r: Result)
      requires i <= |spec|
      modifies this
      ensures Agrees(r, ParseType(old(Rest()), old(ids)))
      ensures r.Type? ==> i > old(i)
      decreases |spec| - i, 1
    {
      if i >= |spec| {
        return NullType;
      }
      match spec[i]
      case '{' => r := ReadTuple();
      case '[' => r := ReadCounted();
      case '<' => r := ReadCounted();
      case '*' => r := ReadPointer();
      case '(' => r := ReadFunc();
      case '=' => r := ReadDefinition();
      case '%' => r := ReadReference();
      case _ => r := ReadLetter();
    }

    method ReadTuple() returns (r: Result)
      requires i < |spec| && spec[i] == '{'
      modifies this
      ensures Agrees(r, ParseType(old(Rest()), old(ids)))
      ensures r.Type? ==> i > old(i)
      decreases |spec| - i, 0
    {
      hide ParseElems, ParseCounted, MakeFunc, Letter;
      i := i + 1;
      assert Rest() == old(Rest())[1..];
      var status, tys := ReadElems('}', true);
      r := if status.Fatal? then Fault else if status.Bad? || tys == [] then Invalid else Type(PTuple(tys));
    }

    method ReadCounted() returns (r: Result)
      requires i < |spec| && (spec[i] == '[' || spec[i] == '<')
      modifies this
      ensures Agrees(r, ParseCounted(old(Rest()), old(ids)))
      ensures r.Type? ==> i > old(i)
      decreases |spec| - i, 0
    {
      hide ParseType, ParseElems, MakeFunc, Letter, PIsSized, DigitCount, Number, AfterNumber, Count;
      var isArray := spec[i] == '[';
      i := i + 1;
      assert Rest() == old(Rest())[1..];
      var e := ReadType();
      if e.Invalid? {
        return Invalid;
      }
      if !e.Type? {
        return Fault;
      }
      if !PIsSized(e.ty, ids) {
        return Invalid;
      }
      var n: nat;
      if isArray {
        n := ReadCount(']', U64);
      } else {
        n := ReadCount('>', U32);
      }
      r := if n == 0 then Invalid else Type(if isArray then PArray(e.ty, n) else PVector(e.ty, n));
    }

    method ReadCount(close: char, range: nat) returns (n: nat)
      requires i <= |spec| && range > 0
      modifies this`i
      ensures n == Count(old(Rest()), close, range)
      ensures n > 0 ==> old(i) <= i <= |spec| && Rest() == AfterNumber(old(Rest())[1..])[1..]
    {
      hide DigitCount, Number, AfterNumber;
      if i >= |spec| || spec[i] != 'x' {
        return 0;
      }
      i := i + 1;
      assert Rest() == old(Rest())[1..];
      var found;
      found, n := ReadNumber(range);
      if !found || i >= |spec| || spec[i] != close {
        return 0;
      }
      ghost var t := Rest();
      i := i + 1;
      assert Rest() == t[1..];
    }

    method ReadPointer() returns (r: Result)
      requires i < |spec| && spec[i] == '*'
      modifies this
      ensures Agrees(r, ParseType(old(Rest()), old(ids)))
      ensures r.Type? ==> i > old(i)
      decreases |spec| - i, 0
    {
      hide ParseElems, ParseCounted, MakeFunc, Letter, PIsSized;
      i := i + 1;
      assert Rest() == old(Rest())[1..];
      var e := ReadType();
      if e.Fault? {
        return Fault;
      }
      if !e.Type? {
        return Invalid;
      }
      if e.ty.PVoid? {
        r := Type(PPointer(PInt(8)));
      } else if !e.ty.PFunc? && !PIsSized(e.ty, ids) {
        r := Invalid;
      } else {
        r := Type(PPointer(e.ty));
      }
    }

    method ReadFunc() returns (r: Result)
      requires i < |spec| && spec[i] == '('
      modifies this
      ensures Agrees(r, ParseType(old(Rest()), old(ids)))
      ensures r.Type? ==> i > old(i)
      decreases |spec| - i, 0
    {
      hide ParseElems, ParseCounted, MakeFunc, Letter, PIsSized;
      i := i + 1;
      assert Rest() == old(Rest())[1..];
      var status, tys := ReadElems(')', false);
      if status.Fatal? {
        return Fault;
      }
      if status.Bad? {
        return Invalid;
      }
      var f := MakeFunc(tys);
      r := if f == [] then Invalid else Type(f[0]);
    }

    /** `=k{`: the new structure enters the table before its body is read. */
    method ReadDefinition() returns (r: Result)
      requires i < |spec| && spec[i] == '='
      modifies this
      ensures Agrees(r, ParseType(old(Rest()), old(ids)))
      ensures r.Type? ==> i > old(i)
      decreases |spec| - i, 0
    {
      hide ParseType, ParseElems, DigitCount, Number, AfterNumber;
      DefinitionStep(Rest(), ids);
      i := i + 1;
      assert Rest() == old(Rest())[1..];
      var found, k := ReadNumber(U32);
      if !found || k != |ids| || i >= |spec| || spec[i] != '{' {
        return Invalid;
      }
      ghost var t := Rest();
      ids := ids + [Open];
      i := i + 1;
      assert Rest() == t[1..];
      r := ReadBody(k);
    }

    /** The elements of structure `k`, which is open until they have been read. */
    method ReadBody(k: nat) returns (r: Result)
      requires i <= |spec| && k < |ids|
      modifies this
      ensures Agrees(r, Defined(ParseElems(old(Rest()), old(ids), '}', true), k))
      ensures r.Type? ==> i >= old(i)
      decreases |spec| - i, 3
    {
      hide ParseElems;
      var status, tys := ReadElems('}', true);
      if status.Fatal? {
        return Fault;
      }
      if status.Bad? || tys == [] {
        return Invalid;
      }
      ids := ids[k := Closed(tys)];
      r := Type(PRef(k));
    }

    method ReadReference() returns (r: Result)
      requires i < |spec| && spec[i] == '%'
      modifies this`i
      ensures Agrees(r, ParseType(old(Rest()), old(ids)))
      ensures r.Type? ==> i > old(i)
    {
      hide ParseElems, ParseCounted, MakeFunc, Letter, PIsSized, DigitCount, Number, AfterNumber;
      i := i + 1;
      assert Rest() == old(Rest())[1..];
      var found, k := ReadNumber(U32);
      r := if !found || k >= |ids| then Invalid else Type(PRef(k));
    }

    method ReadLetter() returns (r: Result)
      requires i < |spec| && spec[i] !in "{[<*(=%"
      modifies this`i
      ensures Agrees(r, ParseType(old(Rest()), old(ids)))
      ensures r.Type? ==> i > old(i)
    {
      hide ParseElems, ParseCounted, MakeFunc, PIsSized, DigitCount, Number, AfterNumber;
      var c := spec[i];
      i := i + 1;
      assert Rest() == old(Rest())[1..];
      if c == '&' {
        return Type(PToken);
      }
      var l := Letter(c);
      r := if l == [] then Invalid else Type(l[0]);
    }
  }

  /** The entry point. */
  method ParseWhole(spec: string) returns (r: Result, ids: seq<PBody>)
    ensures match ParseSpec(spec)
            case Ok(ty, rest, table) => r == Type(ty) && ids == table && rest == ""
            case Error => r.Invalid?
            case Crash => r.Fault?
            case Null => false
  {
    hide ParseType, PIsSized;
    var p := new Parser(spec);
    assert spec[0..] == spec;
    r := p.ReadType();
    ids := p.ids;
    if r.NullType? {
      return Fault, ids;
    }
    if r.Type? && (p.i < |spec| || !PIsSized(r.ty, ids)) {
      return Invalid, ids;
    }
  }
}
