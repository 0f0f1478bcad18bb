/** The bytes a printed structure accounts for: padding pieces and elements against the layout. */
module TypeLayout {
  import opened Types
  import opened TypePrinter
  import RoundTrip = TypeRoundTrip

  datatype Piece = Pad(bytes: nat) | Elem(field: Field)

  function PadPiece(n: nat): seq<Piece> {
    if n == 0 then [] else [Pad(n)]
  }

  /** What is printed between the braces of a structure, piece by piece. */
  function Pieces(fields: seq<Field>, expected: nat, alloc: nat): seq<Piece> {
    if fields == [] then PadPiece(Gap(expected, alloc))
    else
      var f := fields[0];
      PadPiece(Gap(expected, f.offset)) + [Elem(f)] + Pieces(fields[1..], f.offset + f.size, alloc)
  }

  function PrintPiece(p: Piece, ids: Ids, defs: seq<StructDef>): Printed {
    match p
    case Pad(n) => Printed(Padding(n), ids)
    case Elem(f) => Print(f.ty, ids, defs)
  }

  function PrintPieces(ps: seq<Piece>, ids: Ids, defs: seq<StructDef>): Printed {
    if ps == [] then Printed("", ids)
    else
      var a := PrintPiece(ps[0], ids, defs);
      var b := PrintPieces(ps[1..], a.ids, defs);
      Printed(a.text + b.text, b.ids)
  }

  function Bytes(ps: seq<Piece>): nat {
    if ps == [] then 0
    else (match ps[0] case Pad(n) => n case Elem(f) => f.size) + Bytes(ps[1..])
  }

  lemma {:induction false} BytesConcat(a: seq<Piece>, b: seq<Piece>)
    ensures Bytes(a + b) == Bytes(a) + Bytes(b)
  {
    if a == [] {
      assert a + b == b;
    } else {
      assert (a + b)[1..] == a[1..] + b;
      BytesConcat(a[1..], b);
    }
  }

  /** How many bytes are covered twice, or lie behind the end of the structure. */
  function Overlap(fields: seq<Field>, expected: nat, alloc: nat): nat {
    if fields == [] then Gap(alloc, expected)
    else Gap(fields[0].offset, expected) + Overlap(fields[1..], fields[0].offset + fields[0].size, alloc)
  }

  /** The printed body is the printed pieces, in order and with nothing between them. */
  lemma {:induction false} BodyIsPieces(fields: seq<Field>, expected: nat, alloc: nat, ids: Ids, defs: seq<StructDef>)
    ensures PrintFields(fields, expected, alloc, ids, defs) == PrintPieces(Pieces(fields, expected, alloc), ids, defs)
    decreases |fields|
  {
    hide Print, Padding, PadPiece, PrintPieces;
    if fields == [] {
      NoPieces(Gap(expected, alloc), ids, defs);
    } else {
      var f := fields[0];
      var a := Print(f.ty, ids, defs);
      var rest := Pieces(fields[1..], f.offset + f.size, alloc);
      BodyIsPieces(fields[1..], f.offset + f.size, alloc, a.ids, defs);
      ElemFirst(f, rest, ids, defs);
      PadFirst(Gap(expected, f.offset), [Elem(f)] + rest, ids, defs);
      Regroup(PadPiece(Gap(expected, f.offset)), [Elem(f)], rest);
      Regroup(Padding(Gap(expected, f.offset)), a.text, PrintPieces(rest, a.ids, defs).text);
    }
  }

  lemma Regroup<T>(a: seq<T>, b: seq<T>, c: seq<T>)
    ensures a + b + c == a + (b + c)
  {
  }

  lemma NoPieces(n: nat, ids: Ids, defs: seq<StructDef>)
    ensures PrintPieces(PadPiece(n), ids, defs) == Printed(Padding(n), ids)
  {
    PadFirst(n, [], ids, defs);
    assert PadPiece(n) + [] == PadPiece(n);
    assert Padding(n) + "" == Padding(n);
  }

  lemma PadFirst(n: nat, rest: seq<Piece>, ids: Ids, defs: seq<StructDef>)
    ensures PrintPieces(PadPiece(n) + rest, ids, defs)
            == Printed(Padding(n) + PrintPieces(rest, ids, defs).text, PrintPieces(rest, ids, defs).ids)
  {
    hide Print;
    if n == 0 {
      assert [] + rest == rest;
    } else {
      assert ([Pad(n)] + rest)[1..] == rest;
    }
  }

  lemma ElemFirst(f: Field, rest: seq<Piece>, ids: Ids, defs: seq<StructDef>)
    ensures
      var a := Print(f.ty, ids, defs);
      var b := PrintPieces(rest, a.ids, defs);
      PrintPieces([Elem(f)] + rest, ids, defs) == Printed(a.text + b.text, b.ids)
  {
    hide Print;
    assert ([Elem(f)] + rest)[1..] == rest;
  }

  /** Padding and elements account for every byte once, but for the overlap. */
  lemma {:induction false} BytesTotal(fields: seq<Field>, expected: nat, alloc: nat)
    ensures expected + Bytes(Pieces(fields, expected, alloc)) == alloc + Overlap(fields, expected, alloc)
  {
    if fields != [] {
      var f := fields[0];
      var rest := Pieces(fields[1..], f.offset + f.size, alloc);
      BytesTotal(fields[1..], f.offset + f.size, alloc);
      BytesConcat([Elem(f)], rest);
      BytesConcat(PadPiece(Gap(expected, f.offset)), [Elem(f)] + rest);
      assert Pieces(fields, expected, alloc) == PadPiece(Gap(expected, f.offset)) + ([Elem(f)] + rest);
    }
  }

  /** The elements in order, none starting before the end of the one before it, all inside. */
  ghost predicate Disjoint(fields: seq<Field>, alloc: nat) {
    && (forall k | 0 < k < |fields| :: fields[k - 1].offset + fields[k - 1].size <= fields[k].offset)
    && (fields != [] ==> fields[|fields| - 1].offset + fields[|fields| - 1].size <= alloc)
  }

  lemma {:induction false} NoOverlap(fields: seq<Field>, expected: nat, alloc: nat)
    requires fields == [] ==> expected <= alloc
    requires fields != [] ==> expected <= fields[0].offset
    ensures Overlap(fields, expected, alloc) == 0 <==> Disjoint(fields, alloc)
  {
    if fields != [] {
      var rest, next := fields[1..], fields[0].offset + fields[0].size;
      if (rest == [] ==> next <= alloc) && (rest != [] ==> next <= rest[0].offset) {
        NoOverlap(rest, next, alloc);
        assert forall k | 0 <= k < |rest| :: rest[k] == fields[k + 1];
        if Disjoint(rest, alloc) {
          forall k | 0 < k < |fields|
            ensures fields[k - 1].offset + fields[k - 1].size <= fields[k].offset
          {
            if k > 1 { assert fields[k] == rest[k - 1] && fields[k - 1] == rest[k - 2]; }
          }
        }
      } else if rest != [] {
        assert fields[1] == rest[0];
      }
    }
  }

  /** Padding plus element sizes is the size of the structure exactly when no two elements
      overlap and none sticks out. */
  lemma PaddingConservesIff(fields: seq<Field>, alloc: nat)
    ensures Bytes(Pieces(fields, 0, alloc)) == alloc <==> Disjoint(fields, alloc)
  {
    BytesTotal(fields, 0, alloc);
    NoOverlap(fields, 0, alloc);
  }

  /** Each element is printed right after bytes totalling its offset. */
  lemma {:induction false} PrintedAtOffset(fields: seq<Field>, expected: nat, alloc: nat, j: nat)
    requires Overlap(fields, expected, alloc) == 0
    requires j < |Pieces(fields, expected, alloc)| && Pieces(fields, expected, alloc)[j].Elem?
    ensures expected + Bytes(Pieces(fields, expected, alloc)[..j]) == Pieces(fields, expected, alloc)[j].field.offset
    decreases |fields|
  {
    var ps := Pieces(fields, expected, alloc);
    if fields != [] {
      var f := fields[0];
      var pad := PadPiece(Gap(expected, f.offset));
      var rest := Pieces(fields[1..], f.offset + f.size, alloc);
      assert ps == pad + [Elem(f)] + rest;
      if j == |pad| {
        assert ps[..j] == pad;
      } else {
        var k := j - |pad| - 1;
        assert ps[j] == rest[k] && ps[..j] == pad + ([Elem(f)] + rest[..k]);
        PrintedAtOffset(fields[1..], f.offset + f.size, alloc, k);
        BytesConcat([Elem(f)], rest[..k]);
        BytesConcat(pad, [Elem(f)] + rest[..k]);
      }
    }
  }

  // ---------- the layout of a structure that was read back ----------

  type Positive = n: nat | n > 0 witness 1

  /** What a data layout says of a type: its allocation size and its alignment. */
  datatype Shape = Shape(size: nat, align: Positive)

  type DataLayout = PTy -> Shape

  /** Bytes and arrays of bytes are what their names say. */
  ghost predicate HasBytes(shape: DataLayout) {
    shape(PInt(8)) == Shape(1, 1) && forall n: nat :: shape(PArray(PInt(8), n)) == Shape(n, 1)
  }

  function RoundUp(a: nat, n: Positive): (r: nat)
    ensures r >= a && (r == a <==> a % n == 0)
  {
    if a % n == 0 then a else a + n - a % n
  }

  /** Where the elements of a structure that is not packed are, the first `at` bytes being taken. */
  function Offsets(elems: seq<PTy>, at: nat, shape: DataLayout): seq<nat> {
    if elems == [] then []
    else
      var start := RoundUp(at, shape(elems[0]).align);
      [start] + Offsets(elems[1..], start + shape(elems[0]).size, shape)
  }

  /** Where its last element ends. */
  function End(elems: seq<PTy>, at: nat, shape: DataLayout): nat {
    if elems == [] then at
    else End(elems[1..], RoundUp(at, shape(elems[0]).align) + shape(elems[0]).size, shape)
  }

  /** Where the elements and the padding were when the structure was printed. */
  function Original(fields: seq<Field>, expected: nat, alloc: nat): seq<nat> {
    if fields == [] then (if expected < alloc then [expected] else [])
    else
      var f := fields[0];
      (if expected < f.offset then [expected] else [])
      + [f.offset] + Original(fields[1..], f.offset + f.size, alloc)
  }

  /** What an element is read back as is as wide as the element is stored, and aligned where the
      element is. */
  predicate Stays(f: Field, ids: Ids, defs: seq<StructDef>, shape: DataLayout) {
    var s := shape(RoundTrip.Norm(f.ty, ids, defs));
    s.size == f.size && f.offset % s.align == 0
  }

  lemma {:induction false} PlacesConcat(a: seq<PTy>, b: seq<PTy>, at: nat, shape: DataLayout)
    ensures Offsets(a + b, at, shape) == Offsets(a, at, shape) + Offsets(b, End(a, at, shape), shape)
    ensures End(a + b, at, shape) == End(b, End(a, at, shape), shape)
  {
    hide RoundUp;
    if a == [] {
      assert a + b == b;
    } else {
      assert (a + b)[1..] == a[1..] + b;
      PlacesConcat(a[1..], b, RoundUp(at, shape(a[0]).align) + shape(a[0]).size, shape);
    }
  }

  lemma PaddingPlaced(n: nat, at: nat, shape: DataLayout)
    requires HasBytes(shape)
    ensures End(RoundTrip.PaddingTypes(n), at, shape) == at + n
    ensures Offsets(RoundTrip.PaddingTypes(n), at, shape) == if n == 0 then [] else [at]
  {
    assert RoundTrip.Bytes(n) == PArray(PInt(8), n);
    if n != 0 {
      var t := RoundTrip.PaddingTypes(n);
      assert t[1..] == [] && shape(t[0]) == Shape(n, 1);
    }
  }

  lemma OnePlaced(ty: PTy, at: nat, shape: DataLayout)
    ensures Offsets([ty], at, shape) == [RoundUp(at, shape(ty).align)]
    ensures End([ty], at, shape) == RoundUp(at, shape(ty).align) + shape(ty).size
  {
    assert [ty][1..] == [];
  }

  /** One element with the padding in front of it, and then the others. */
  lemma FirstPlaced(fields: seq<Field>, expected: nat, alloc: nat, at: nat, ids: Ids, defs: seq<StructDef>,
                    shape: DataLayout)
    requires HasBytes(shape) && fields != []
    ensures
      var f := fields[0];
      var s, gap := shape(RoundTrip.Norm(f.ty, ids, defs)), Gap(expected, f.offset);
      var start := RoundUp(at + gap, s.align);
      var all := RoundTrip.NormFields(fields, expected, alloc, ids, defs);
      var rest := RoundTrip.NormFields(fields[1..], f.offset + f.size, alloc, ids, defs);
      && Offsets(all, at, shape)
         == (if gap == 0 then [] else [at]) + [start] + Offsets(rest, start + s.size, shape)
      && End(all, at, shape) == End(rest, start + s.size, shape)
  {
    hide Offsets, End, HasBytes, RoundUp, RoundTrip.Norm, RoundTrip.PaddingTypes;
    var f := fields[0];
    var gap, ty := Gap(expected, f.offset), RoundTrip.Norm(f.ty, ids, defs);
    var pad := RoundTrip.PaddingTypes(gap);
    var rest := RoundTrip.NormFields(fields[1..], f.offset + f.size, alloc, ids, defs);
    PaddingPlaced(gap, at, shape);
    OnePlaced(ty, at + gap, shape);
    PlacesConcat(pad, [ty], at, shape);
    PlacesConcat(pad + [ty], rest, at, shape);
  }

  /** Nothing ever moves back: what is behind by some bytes ends behind by at least as many. */
  lemma {:induction false} EndsBehind(fields: seq<Field>, expected: nat, alloc: nat, at: nat, ids: Ids,
                                      defs: seq<StructDef>, shape: DataLayout)
    requires HasBytes(shape) && at >= expected && Overlap(fields, expected, alloc) == 0
    requires forall f | f in fields :: shape(RoundTrip.Norm(f.ty, ids, defs)).size >= f.size
    ensures End(RoundTrip.NormFields(fields, expected, alloc, ids, defs), at, shape) - at >= alloc - expected
    decreases |fields|
  {
    hide End, Offsets, HasBytes, RoundTrip.Norm, RoundTrip.NormFields;
    if fields == [] {
      NonePlaced(expected, alloc, at, ids, defs, shape);
    } else {
      var f := fields[0];
      var s := shape(RoundTrip.Norm(f.ty, ids, defs));
      FirstPlaced(fields, expected, alloc, at, ids, defs, shape);
      EndsBehind(fields[1..], f.offset + f.size, alloc, RoundUp(at + Gap(expected, f.offset), s.align) + s.size,
                 ids, defs, shape);
    }
  }

  lemma NonePlaced(expected: nat, alloc: nat, at: nat, ids: Ids, defs: seq<StructDef>, shape: DataLayout)
    requires HasBytes(shape)
    ensures
      var all := RoundTrip.NormFields([], expected, alloc, ids, defs);
      && End(all, at, shape) == at + Gap(expected, alloc)
      && Offsets(all, at, shape) == if expected < alloc then [at] else []
  {
    PaddingPlaced(Gap(expected, alloc), at, shape);
  }

  lemma {:induction false} LayoutFrom(fields: seq<Field>, expected: nat, alloc: nat, ids: Ids,
                                      defs: seq<StructDef>, shape: DataLayout)
    requires HasBytes(shape) && Overlap(fields, expected, alloc) == 0
    requires forall f | f in fields :: shape(RoundTrip.Norm(f.ty, ids, defs)).size >= f.size
    ensures
      var all := RoundTrip.NormFields(fields, expected, alloc, ids, defs);
      Offsets(all, expected, shape) == Original(fields, expected, alloc) && End(all, expected, shape) == alloc
      <==> forall f | f in fields :: Stays(f, ids, defs, shape)
    decreases |fields|
  {
    hide End, Offsets, HasBytes, RoundTrip.Norm, RoundTrip.NormFields;
    if fields == [] {
      NonePlaced(expected, alloc, expected, ids, defs, shape);
    } else {
      var f, rest := fields[0], fields[1..];
      var s := shape(RoundTrip.Norm(f.ty, ids, defs));
      var next := f.offset + f.size;
      FirstPlaced(fields, expected, alloc, expected, ids, defs, shape);
      assert expected + Gap(expected, f.offset) == f.offset;
      assert fields == [f] + rest;
      if Stays(f, ids, defs, shape) {
        LayoutFrom(rest, next, alloc, ids, defs, shape);
        var pad := if expected < f.offset then [expected] else [];
        SameTail(pad + [f.offset], Offsets(RoundTrip.NormFields(rest, next, alloc, ids, defs), next, shape),
                 Original(rest, next, alloc));
      } else {
        EndsBehind(rest, next, alloc, RoundUp(f.offset, s.align) + s.size, ids, defs, shape);
      }
    }
  }

  lemma SameTail<T>(a: seq<T>, b: seq<T>, c: seq<T>)
    ensures a + b == a + c <==> b == c
  {
    assert (a + b)[|a|..] == b && (a + c)[|a|..] == c;
  }

  /** A structure read back has everything where it was, up to its last byte, exactly when every
      element is read back as wide as it was stored and aligned where it was: no integer of 24 bits,
      which comes back with 32, and no element of a packed structure in an odd place. */
  lemma LayoutKeptIff(fields: seq<Field>, alloc: nat, ids: Ids, defs: seq<StructDef>, shape: DataLayout)
    requires HasBytes(shape) && Disjoint(fields, alloc)
    requires forall f | f in fields :: shape(RoundTrip.Norm(f.ty, ids, defs)).size >= f.size
    ensures
      var all := RoundTrip.NormFields(fields, 0, alloc, ids, defs);
      Offsets(all, 0, shape) == Original(fields, 0, alloc) && End(all, 0, shape) == alloc
      <==> forall f | f in fields :: Stays(f, ids, defs, shape)
  {
    hide End, Offsets, HasBytes, RoundTrip.Norm, RoundTrip.NormFields, Stays, Disjoint;
    NoOverlap(fields, 0, alloc);
    LayoutFrom(fields, 0, alloc, ids, defs, shape);
  }
}
