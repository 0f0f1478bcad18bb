/** The letters of the type language: which the printer writes, and what each of those it never
    writes reads as. */
module TypeLetters {
  import opened Types
  import opened TypePrinter
  import opened TypeParser

  // ---------- reading ----------

  /** The letters of unsigned integers read as those of signed ones, and the letter of a truth value
      as that of a byte. */
  lemma IntegerRead(c: char, w: nat, s: string, ids: seq<PBody>)
    requires (w == 8 && c in "?bB") || (w == 16 && c in "hH") || (w == 32 && c in "iI")
             || (w == 64 && c in "lL") || (w == 128 && c in "oO")
    ensures ParseType([c] + s, ids) == Ok(PInt(w), s, ids)
  {
    hide ParseElems, ParseCounted, MakeFunc;
    assert ([c] + s)[1..] == s;
  }

  // ---------- printing ----------

  /** An integer is printed with the letter of the smallest one that holds it, and as bytes when there
      is none. */
  lemma IntegersPrinted(w: nat, ids: Ids, defs: seq<StructDef>)
    ensures
      var text := Print(Int(w), ids, defs).text;
      && (w <= 8 ==> text == "b")
      && (8 < w <= 16 ==> text == "h")
      && (16 < w <= 32 ==> text == "i")
      && (32 < w <= 64 ==> text == "l")
      && (64 < w <= 128 ==> text == "o")
      && (128 < w ==> "[Bx" <= text && text[|text| - 1] == ']')
  {
    hide Decimal;
    var d := Decimal((w + 7) / 8);
    assert w > 128 ==> ("[Bx" + d + "]")[..3] == "[Bx";
  }

  /** Padding is unsigned bytes. */
  lemma PaddingPrinted(n: nat)
    ensures n == 0 ==> Padding(n) == ""
    ensures n == 1 ==> Padding(n) == "B"
    ensures n > 1 ==> "[Bx" <= Padding(n) && Padding(n)[|Padding(n)| - 1] == ']'
  {
    hide Decimal;
    assert n > 1 ==> ("[Bx" + Decimal(n) + "]")[..3] == "[Bx";
  }

  /** No letter of a truth value or of an unsigned integer, but of bytes. */
  predicate Plain(s: string) {
    forall c | c in s :: c !in "?HILO"
  }

  lemma PlainConcat(a: string, b: string)
    requires Plain(a) && Plain(b)
    ensures Plain(a + b)
  {
  }

  lemma {:induction false} PlainNumber(n: nat)
    ensures Plain(Decimal(n))
  {
    if n >= 10 { PlainNumber(n / 10); }
  }

  lemma PlainPieces(n: nat, m: nat)
    ensures Plain(Padding(n)) && Plain(IntText(n)) && Plain(OtherText(n, m))
  {
    hide Decimal;
    PlainNumber(n);
    PlainNumber((n + 7) / 8);
    if m > n { PlainNumber(m - n); }
  }

  lemma PlainKind(kind: Kind)
    ensures Plain(KindText(kind))
  {
  }

  lemma PlainFive(a: string, b: string, c: string, d: string, e: string)
    requires Plain(a) && Plain(b) && Plain(c) && Plain(d) && Plain(e)
    ensures Plain(a + b + c + d + e) && Plain(a + b + c + d) && Plain(a + b)
  {
    hide Plain;
    PlainConcat(a, b);
    PlainConcat(a + b, c);
    PlainConcat(a + b + c, d);
    PlainConcat(a + b + c + d, e);
  }

  lemma PlainMarks()
    ensures Plain("") && Plain("v") && Plain("*v") && Plain("*") && Plain("(") && Plain(")") && Plain("&")
    ensures Plain("%") && Plain("=") && Plain("{") && Plain("}") && Plain("[") && Plain("]") && Plain("<") && Plain(">")
    ensures Plain("x")
  {
  }

  lemma {:induction false} PlainPrinted(ty: Ty, ids: Ids, defs: seq<StructDef>)
    ensures Plain(Print(ty, ids, defs).text)
    decreases Universe(defs) - ids.Keys, ty, 0
  {
    hide Plain, Decimal, Padding, IntText, OtherText, KindText, IsSized;
    PlainMarks();
    match ty
    case Void =>
    case Scalar(kind) => PlainKind(kind);
    case Int(w) => PlainPieces(w, 0);
    case Func(params, variadic, ret) =>
      var ps := PrintAll(params, ids, defs);
      PlainAll(params, ids, defs);
      PlainPrinted(ret, ps.ids, defs);
      PlainFive("(", ps.text, Separator(|params|, variadic), Print(ret, ps.ids, defs).text, ")");
    case Struct(u) =>
      if u in ids {
        PlainNumber(ids[u]);
        PlainConcat("%", Decimal(ids[u]));
      } else if u < |defs| && defs[u].Body? {
        assert u in Universe(defs) - ids.Keys;
        PlainNumber(|ids|);
        PlainFields(defs[u].fields, 0, defs[u].alloc, ids[u := |ids|], defs);
        PlainFive("=", Decimal(|ids|), "{",
                  PrintFields(defs[u].fields, 0, defs[u].alloc, ids[u := |ids|], defs).text, "}");
      }
    case Vector(elem, n) =>
      PlainPrinted(elem, ids, defs);
      PlainNumber(n);
      PlainFive("<", Print(elem, ids, defs).text, "x", Decimal(n), ">");
    case Array(elem, n) =>
      PlainPrinted(elem, ids, defs);
      PlainNumber(n);
      PlainFive("[", Print(elem, ids, defs).text, "x", Decimal(n), "]");
    case Pointer(elem) =>
      if IsSized(elem, defs) {
        PlainPrinted(elem, ids, defs);
        PlainConcat("*", Print(elem, ids, defs).text);
      }
    case Other(store, alloc) => PlainPieces(store, alloc);
  }

  lemma {:induction false} PlainAll(tys: seq<Ty>, ids: Ids, defs: seq<StructDef>)
    ensures Plain(PrintAll(tys, ids, defs).text)
    decreases Universe(defs) - ids.Keys, tys
  {
    hide Print;
    if tys != [] {
      PlainPrinted(tys[0], ids, defs);
      PlainAll(tys[1..], Print(tys[0], ids, defs).ids, defs);
    }
  }

  lemma {:induction false} PlainFields(fields: seq<Field>, expected: nat, alloc: nat, ids: Ids, defs: seq<StructDef>)
    ensures Plain(PrintFields(fields, expected, alloc, ids, defs).text)
    decreases Universe(defs) - ids.Keys, fields
  {
    hide Print, Padding;
    if fields == [] {
      PlainPieces(Gap(expected, alloc), 0);
    } else {
      var f := fields[0];
      assert f in fields && f.ty < f;
      PlainPieces(Gap(expected, f.offset), 0);
      PlainPrinted(f.ty, ids, defs);
      PlainFields(fields[1..], f.offset + f.size, alloc, Print(f.ty, ids, defs).ids, defs);
    }
  }

  // ---------- pointers ----------

  /** What an array or vector is made of in the end. */
  function Core(ty: Ty): Ty {
    match ty
    case Vector(elem, _) => Core(elem)
    case Array(elem, _) => Core(elem)
    case _ => ty
  }

  /** Only what comes down to void, a function or a structure without a body has no size. */
  lemma {:induction false} SizedIff(ty: Ty, defs: seq<StructDef>)
    ensures IsSized(ty, defs)
            <==> !Core(ty).Void? && !Core(ty).Func?
                 && (Core(ty).Struct? ==> Core(ty).id < |defs| && defs[Core(ty).id].Body?)
  {
    match ty
    case Vector(elem, _) => SizedIff(elem, defs);
    case Array(elem, _) => SizedIff(elem, defs);
    case _ =>
  }

  /** A pointer is printed in front of what it points to, unless that has no size: then it is a pointer
      to void, and no id is given. */
  lemma PointersPrinted(elem: Ty, ids: Ids, defs: seq<StructDef>)
    ensures
      var core, p := Core(elem), Print(Pointer(elem), ids, defs);
      if core.Void? || core.Func? || (core.Struct? && !(core.id < |defs| && defs[core.id].Body?)) then
        p == Printed("*v", ids)
      else p == Printed("*" + Print(elem, ids, defs).text, Print(elem, ids, defs).ids)
  {
    hide IsSized;
    SizedIff(elem, defs);
  }
}
