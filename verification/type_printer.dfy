/** The type printer: structures get an id the first time they are met and a back reference
    afterwards; padding is printed as byte arrays. */
module TypePrinter {
  import opened Types

  // ---------- decimal numbers ----------

  function Digit(n: nat): char
    requires n < 10
  {
    '0' + (n as char)
  }

  function Decimal(n: nat): (s: string)
    ensures s != ""
  {
    if n < 10 then [Digit(n)] else Decimal(n / 10) + [Digit(n % 10)]
  }

  // ---------- the printed form, as a function ----------

  type Ids = map<nat, nat>

  /** Ids once given stay. */
  predicate Extends(a: Ids, b: Ids) {
    forall u | u in a :: u in b && b[u] == a[u]
  }

  datatype Printed = Printed(text: string, ids: Ids)

  function Below(n: nat): (r: set<nat>)
    ensures forall u: nat :: u in r <==> u < n
  {
    if n == 0 then {} else Below(n - 1) + {n - 1}
  }

  /** Every structure there is. */
  function Universe(defs: seq<StructDef>): (r: set<nat>)
    ensures forall u: nat :: u in r <==> u < |defs|
  {
    Below(|defs|)
  }

  /** An array of bytes, or one byte. */
  function Padding(n: nat): string {
    if n == 0 then "" else if n == 1 then "B" else "[Bx" + Decimal(n) + "]"
  }

  function KindText(kind: Kind): string {
    match kind
    case Half => "e"
    case Float => "f"
    case Double => "d"
    case Quad => "Q"
    case LongDouble => "D"
    case Mmx => "M"
  }

  function IntText(w: nat): string {
    if w <= 8 then "b"
    else if w <= 16 then "h"
    else if w <= 32 then "i"
    else if w <= 64 then "l"
    else if w <= 128 then "o"
    else "[Bx" + Decimal((w + 7) / 8) + "]"
  }

  function OtherText(store: nat, alloc: nat): string {
    if alloc > store then
      "{[Bx" + Decimal(store) + "][Bx" + Decimal(alloc - store) + "]}"
    else
      "[Bx" + Decimal(store) + "]"
  }

  /** Between the parameters of a function type and its result. */
  function Separator(params: nat, variadic: bool): string {
    if variadic then "&" else if params == 0 then "v" else ""
  }

  function Gap(expected: nat, offset: nat): nat {
    if expected < offset then offset - expected else 0
  }

  function Print(ty: Ty, ids: Ids, defs: seq<StructDef>): (r: Printed)
    ensures Extends(ids, r.ids)
    decreases Universe(defs) - ids.Keys, ty, 0
  {
    match ty
    case Void => Printed("v", ids)
    case Scalar(kind) => Printed(KindText(kind), ids)
    case Int(w) => Printed(IntText(w), ids)
    case Func(params, variadic, ret) =>
      var ps := PrintAll(params, ids, defs);
      var r := Print(ret, ps.ids, defs);
      Printed("(" + ps.text + Separator(|params|, variadic) + r.text + ")", r.ids)
    case Struct(u) =>
      if u in ids then Printed("%" + Decimal(ids[u]), ids)
      else if u < |defs| && defs[u].Body? then
        assert u in Universe(defs) - ids.Keys;
        var b := PrintFields(defs[u].fields, 0, defs[u].alloc, ids[u := |ids|], defs);
        Printed("=" + Decimal(|ids|) + "{" + b.text + "}", b.ids)
      else Printed("", ids)
    case Vector(elem, n) =>
      var e := Print(elem, ids, defs);
      Printed("<" + e.text + "x" + Decimal(n) + ">", e.ids)
    case Array(elem, n) =>
      var e := Print(elem, ids, defs);
      Printed("[" + e.text + "x" + Decimal(n) + "]", e.ids)
    case Pointer(elem) =>
      if IsSized(elem, defs) then
        var e := Print(elem, ids, defs);
        Printed("*" + e.text, e.ids)
      else Printed("*v", ids)
    case Other(store, alloc) => Printed(OtherText(store, alloc), ids)
  }

  function PrintAll(tys: seq<Ty>, ids: Ids, defs: seq<StructDef>): (r: Printed)
    ensures Extends(ids, r.ids)
    decreases Universe(defs) - ids.Keys, tys
  {
    if tys == [] then Printed("", ids)
    else
      var a := Print(tys[0], ids, defs);
      var b := PrintAll(tys[1..], a.ids, defs);
      Printed(a.text + b.text, b.ids)
  }

  /** The elements of a structure from `expected` bytes in, each behind its padding, and the
      padding at the end. */
  function PrintFields(fields: seq<Field>, expected: nat, alloc: nat, ids: Ids, defs: seq<StructDef>): (r: Printed)
    ensures Extends(ids, r.ids)
    decreases Universe(defs) - ids.Keys, fields
  {
    if fields == [] then Printed(Padding(Gap(expected, alloc)), ids)
    else
      var f := fields[0];
      assert f.ty < f;
      var a := Print(f.ty, ids, defs);
      var b := PrintFields(fields[1..], f.offset + f.size, alloc, a.ids, defs);
      Printed(Padding(Gap(expected, f.offset)) + a.text + b.text, b.ids)
  }

  lemma FieldsFrom(fields: seq<Field>, k: nat, expected: nat, alloc: nat, ids: Ids, defs: seq<StructDef>)
    requires k < |fields|
    ensures
      var a := Print(fields[k].ty, ids, defs);
      var b := PrintFields(fields[k + 1..], fields[k].offset + fields[k].size, alloc, a.ids, defs);
      PrintFields(fields[k..], expected, alloc, ids, defs)
      == Printed(Padding(Gap(expected, fields[k].offset)) + a.text + b.text, b.ids)
  {
    assert fields[k..][1..] == fields[k + 1..];
  }

  lemma AllFrom(tys: seq<Ty>, k: nat, ids: Ids, defs: seq<StructDef>)
    requires k < |tys|
    ensures
      var a := Print(tys[k], ids, defs);
      var b := PrintAll(tys[k + 1..], a.ids, defs);
      PrintAll(tys[k..], ids, defs) == Printed(a.text + b.text, b.ids)
  {
    assert tys[k..][1..] == tys[k + 1..];
  }

  lemma FieldsEnd(fields: seq<Field>, expected: nat, alloc: nat, ids: Ids, defs: seq<StructDef>)
    ensures PrintFields(fields[|fields|..], expected, alloc, ids, defs) == Printed(Padding(Gap(expected, alloc)), ids)
    ensures PrintFields(fields[0..], expected, alloc, ids, defs) == PrintFields(fields, expected, alloc, ids, defs)
  {
    assert fields[0..] == fields;
  }

  lemma AllEnd(tys: seq<Ty>, ids: Ids, defs: seq<StructDef>)
    ensures PrintAll(tys[|tys|..], ids, defs) == Printed("", ids)
    ensures PrintAll(tys[0..], ids, defs) == PrintAll(tys, ids, defs)
  {
    assert tys[0..] == tys;
  }

  lemma FuncPrinted(params: seq<Ty>, variadic: bool, ret: Ty, ids: Ids, defs: seq<StructDef>)
    ensures
      var ps := PrintAll(params, ids, defs);
      var r := Print(ret, ps.ids, defs);
      Print(Func(params, variadic, ret), ids, defs)
      == Printed("(" + ps.text + Separator(|params|, variadic) + r.text + ")", r.ids)
  {
  }

  lemma Appended(text: string, a: string, b: string, c: string)
    ensures text + (a + b + c) == text + a + b + c
  {
  }

  lemma AppendedFive(text: string, a: string, b: string, c: string, d: string, e: string)
    ensures text + (a + b + c + d + e) == text + a + b + c + d + e
  {
    Appended(text, a + b + c, d, e);
    Appended(text, a, b, c);
  }

  /** The state of one call of the printer: the stream it appends to and the ids given so far. */
  class Printer {
    const defs: seq<StructDef>
    var ss: string
    var ids: Ids

    constructor (defs: seq<StructDef>)
      ensures this.defs == defs && ss == "" && ids == map[]
    {
      this.defs := defs;
      ss, ids := "", map[];
    }

    /** What is written now, and what will have been written after `p` from here on. */
    predicate Ahead(p: Printed, text: string, last: Ids)
      reads this
    {
      ss + p.text == text && p.ids == last
    }

    method Write(text: string)
      modifies this`ss
      ensures ss == old(ss) + text
    {
      ss := ss + text;
    }

    method WriteInt(width: nat)
      modifies this`ss
      ensures ss == old(ss) + IntText(width)
    {
      if 8 >= width {
        Write("b");
      } else if 16 >= width {
        Write("h");
      } else if 32 >= width {
        Write("i");
      } else if 64 >= width {
        Write("l");
      } else if 128 >= width {
        Write("o");
      } else {
        Write("[Bx" + Decimal((width + 7) / 8) + "]");
      }
    }

    method WritePadding(expected: nat, offset: nat)
      modifies this`ss
      ensures ss == old(ss) + Padding(Gap(expected, offset))
    {
      if expected < offset {
        var diff := offset - expected;
        if diff == 1 {
          Write("B");
        } else {
          Write("[Bx" + Decimal(diff) + "]");
        }
      }
    }

    method TranslateTypeInternal(ty: Ty)
      modifies this
      ensures ss == old(ss) + Print(ty, old(ids), defs).text
      ensures ids == Print(ty, old(ids), defs).ids
      decreases Universe(defs) - ids.Keys, ty, 1
    {
      match ty
      case Void => Write("v");
      case Scalar(kind) => Write(KindText(kind));
      case Int(w) => WriteInt(w);
      case Func(params, variadic, ret) => TranslateFunc(params, variadic, ret);
      case Struct(u) => TranslateStruct(u);
      case Vector(elem, n) => TranslateCounted("<", elem, n, ">");
      case Array(elem, n) => TranslateCounted("[", elem, n, "]");
      case Pointer(elem) => TranslatePointer(elem);
      case Other(store, alloc) => Write(OtherText(store, alloc));
    }

    method TranslateCounted(left: string, elem: Ty, n: nat, right: string)
      modifies this
      ensures ss == old(ss) + (left + Print(elem, old(ids), defs).text + "x" + Decimal(n) + right)
      ensures ids == Print(elem, old(ids), defs).ids
      decreases Universe(defs) - ids.Keys, elem, 2
    {
      hide Print, Decimal;
      ghost var e := Print(elem, ids, defs);
      Write(left);
      TranslateTypeInternal(elem);
      Write("x" + Decimal(n) + right);
      assert old(ss) + left + e.text + ("x" + Decimal(n) + right)
          == old(ss) + (left + e.text + "x" + Decimal(n) + right);
    }

    method TranslatePointer(elem: Ty)
      modifies this
      ensures ss == old(ss) + Print(Pointer(elem), old(ids), defs).text
      ensures ids == Print(Pointer(elem), old(ids), defs).ids
      decreases Universe(defs) - ids.Keys, Pointer(elem), 0
    {
      Write("*");
      if IsSized(elem, defs) {
        TranslateTypeInternal(elem);
      } else {
        Write("v");
      }
    }

    method TranslateFunc(params: seq<Ty>, variadic: bool, ret: Ty)
      modifies this
      ensures ss == old(ss) + Print(Func(params, variadic, ret), old(ids), defs).text
      ensures ids == Print(Func(params, variadic, ret), old(ids), defs).ids
      decreases Universe(defs) - ids.Keys, Func(params, variadic, ret), 0
    {
      hide Print, PrintAll;
      ghost var all := PrintAll(params, ids, defs);
      Write("(");
      TranslateParams(params);
      ghost var r := Print(ret, ids, defs);
      WriteSeparator(params, variadic);
      TranslateTypeInternal(ret);
      Write(")");
      FuncPrinted(params, variadic, ret, old(ids), defs);
      AppendedFive(old(ss), "(", all.text, Separator(|params|, variadic), r.text, ")");
    }

    method WriteSeparator(params: seq<Ty>, variadic: bool)
      modifies this`ss
      ensures ss == old(ss) + Separator(|params|, variadic)
    {
      if variadic {
        Write("&");
      } else if |params| == 0 {
        Write("v");
      }
    }

    method TranslateParams(params: seq<Ty>)
      modifies this
      ensures ss == old(ss) + PrintAll(params, old(ids), defs).text
      ensures ids == PrintAll(params, old(ids), defs).ids
      decreases Universe(defs) - ids.Keys, params
    {
      hide Print, PrintAll;
      ghost var all := PrintAll(params, ids, defs);
      AllEnd(params, ids, defs);
      var k: nat := 0;
      while k < |params|
        invariant k <= |params| && Extends(old(ids), ids)
        invariant Ahead(PrintAll(params[k..], ids, defs), old(ss) + all.text, all.ids)
      {
        AllFrom(params, k, ids, defs);
        ghost var a := Print(params[k], ids, defs);
        Appended(ss, a.text, PrintAll(params[k + 1..], a.ids, defs).text, "");
        TranslateTypeInternal(params[k]);
        k := k + 1;
      }
      AllEnd(params, ids, defs);
    }

    method TranslateStruct(u: nat)
      modifies this
      ensures ss == old(ss) + Print(Struct(u), old(ids), defs).text
      ensures ids == Print(Struct(u), old(ids), defs).ids
      decreases Universe(defs) - ids.Keys, Struct(u), 0
    {
      if u in ids {
        Write("%" + Decimal(ids[u]));
      } else if u < |defs| && defs[u].Body? {
        assert u in Universe(defs) - ids.Keys;
        ids := ids[u := |ids|];
        Write("=" + Decimal(ids[u]) + "{");
        TranslateBody(u);
        Write("}");
      }
    }

    method TranslateBody(u: nat)
      requires u < |defs| && defs[u].Body?
      modifies this
      ensures ss == old(ss) + PrintFields(defs[u].fields, 0, defs[u].alloc, old(ids), defs).text
      ensures ids == PrintFields(defs[u].fields, 0, defs[u].alloc, old(ids), defs).ids
      decreases Universe(defs) - ids.Keys, defs[u].fields
    {
      hide Print, PrintFields, Padding;
      var fields, alloc := defs[u].fields, defs[u].alloc;
      ghost var all := PrintFields(fields, 0, alloc, ids, defs);
      FieldsEnd(fields, 0, alloc, ids, defs);
      var expected: nat, k: nat := 0, 0;
      while k < |fields|
        invariant k <= |fields| && Extends(old(ids), ids)
        invariant Ahead(PrintFields(fields[k..], expected, alloc, ids, defs), old(ss) + all.text, all.ids)
      {
        FieldsFrom(fields, k, expected, alloc, ids, defs);
        assert fields[k].ty < fields[k];
        ghost var a := Print(fields[k].ty, ids, defs);
        Appended(ss, Padding(Gap(expected, fields[k].offset)), a.text,
                 PrintFields(fields[k + 1..], fields[k].offset + fields[k].size, alloc, a.ids, defs).text);
        WritePadding(expected, fields[k].offset);
        TranslateTypeInternal(fields[k].ty);
        expected := fields[k].offset + fields[k].size;
        k := k + 1;
      }
      FieldsEnd(fields, expected, alloc, ids, defs);
      WritePadding(expected, alloc);
    }
  }
}
