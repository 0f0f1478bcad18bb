/** The types the type printer walks and the types the type parser builds. */
module Types {
  import opened Words

  /** The floating-point types and the MMX type. */
  datatype Kind = Half | Float | Double | Quad | LongDouble | Mmx

  /** An LLVM type.  A structure is its identity: a number into the list of definitions.
      `Opaque` types are those without a letter of their own; only their sizes matter. */
  datatype Ty =
    | Void
    | Scalar(kind: Kind)
    | Int(width: nat)
    | Func(params: seq<Ty>, variadic: bool, ret: Ty)
    | Struct(id: nat)
    | Vector(elem: Ty, count: nat)
    | Array(elem: Ty, count: nat)
    | Pointer(elem: Ty)
    | Other(store: nat, alloc: nat)

  /** A structure element, with its offset and store size as the data layout gives them. */
  datatype Field = Field(ty: Ty, offset: nat, size: nat)

  /** A structure definition; `Declared` is one without a body. */
  datatype StructDef = Declared | Body(fields: seq<Field>, alloc: nat)

  /** What the parser builds.  `Ref` is a structure with an id of its own, `Tuple` a literal
      structure, `Token` the stand-in for variadic parameters. */
  datatype PTy =
    | PVoid
    | PToken
    | PScalar(kind: Kind)
    | PInt(width: nat)
    | PFunc(params: seq<PTy>, variadic: bool, ret: PTy)
    | PRef(id: nat)
    | PTuple(elems: seq<PTy>)
    | PVector(elem: PTy, count: nat)
    | PArray(elem: PTy, count: nat)
    | PPointer(elem: PTy)

  /** An entry of the parser's id table: the body is missing while it is being parsed. */
  datatype PBody = Open | Closed(elems: seq<PTy>)

  /** Whether values of the type have a size: not void, not a function, no structure without a
      body. */
  predicate IsSized(ty: Ty, defs: seq<StructDef>) {
    match ty
    case Void => false
    case Func(_, _, _) => false
    case Struct(id) => id < |defs| && defs[id].Body?
    case Vector(elem, _) => IsSized(elem, defs)
    case Array(elem, _) => IsSized(elem, defs)
    case _ => true
  }

  /** The parser's reading of the same question, against its id table. */
  predicate PIsSized(ty: PTy, ids: seq<PBody>) {
    match ty
    case PVoid => false
    case PToken => false
    case PFunc(_, _, _) => false
    case PRef(id) => id < |ids| && ids[id].Closed?
    case PVector(elem, _) => PIsSized(elem, ids)
    case PArray(elem, _) => PIsSized(elem, ids)
    case _ => true
  }

  /** What LLVM itself guarantees of a type that can be printed: sizes fit the host's integers,
      array and vector elements, parameters and structure elements are sized. */
  ghost predicate Valid(ty: Ty, defs: seq<StructDef>) {
    match ty
    case Int(w) => 0 < w < U32
    case Func(params, _, ret) =>
      && (forall p | p in params :: Valid(p, defs) && IsSized(p, defs))
      && Valid(ret, defs) && (ret.Void? || IsSized(ret, defs))
    case Struct(id) => id < |defs|
    case Vector(elem, n) => Valid(elem, defs) && 0 < n < U32
    case Array(elem, n) => Valid(elem, defs) && !elem.Void? && !elem.Func? && n < U64
    case Pointer(elem) => Valid(elem, defs) && !elem.Void?
    case Other(s, a) => 0 < s <= a < U64
    case _ => true
  }

  ghost predicate ValidDefs(defs: seq<StructDef>) {
    && |defs| < U32
    && forall u | 0 <= u < |defs| && defs[u].Body? ::
         && defs[u].alloc < U64
         && (forall f | f in defs[u].fields ::
               Valid(f.ty, defs) && IsSized(f.ty, defs) && f.offset < U64 && f.size < U64)
  }
}
