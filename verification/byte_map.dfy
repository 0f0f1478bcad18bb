/** The bytes of a program: what a sequence of mappings means, and how a map keyed by end addresses
    with flags on every byte represents it. */
module ByteMap {
  import opened Options
  import opened Words

  /** A successful call of `MapRange`. */
  datatype Mapping = Mapping(begin: Address, data: seq<Byte>, writeable: bool, executable: bool) {
    function End(): nat {
      begin + |data|
    }

    /** The address of byte `i`. */
    function At(i: nat): nat {
      begin + i
    }

    predicate Holds(a: nat) {
      begin <= a < End()
    }
  }

  type History = seq<Mapping>

  datatype Meta = Meta(nextByteIsInRange: bool, nextByteStartsNewRange: bool,
                       isFunctionHead: bool, isVariableHead: bool, isWriteable: bool, isExecutable: bool)

  /** A mapped vector of bytes and the flags beside it. */
  datatype Range = Range(data: seq<Byte>, meta: seq<Meta>)

  /** Ranges by the address just behind their last byte. */
  type Bytes = map<nat, Range>

  /** A pointer to a byte and its flags: a range and an offset into it. */
  datatype Slot = Slot(range: nat, offset: nat)

  // ---------- what a history means ----------

  /** Mappings are not empty, end below the last address, and do not overlap. */
  ghost predicate Proper(h: History) {
    && (forall k | 0 <= k < |h| :: h[k].data != [] && h[k].End() < U64)
    && (forall k, l | 0 <= k < l < |h| :: h[k].End() <= h[l].begin || h[l].End() <= h[k].begin)
  }

  /** The mapping an address belongs to. */
  function Find(h: History, a: nat): (r: Option<nat>)
    ensures r.Some? ==> r.value < |h| && h[r.value].Holds(a)
    ensures r.None? ==> forall k | 0 <= k < |h| :: !h[k].Holds(a)
  {
    if h == [] then None
    else if h[|h| - 1].Holds(a) then Some(|h| - 1)
    else Find(h[..|h| - 1], a)
  }

  lemma FindUnique(h: History, a: nat, k: nat)
    requires Proper(h) && k < |h| && h[k].Holds(a)
    ensures Find(h, a) == Some(k)
  {
    var l := Find(h, a).value;
    assert l == k || l < k || k < l;
  }

  function SlotOf(h: History, a: nat): Option<Slot> {
    match Find(h, a)
    case None => None
    case Some(k) => Some(Slot(h[k].End(), a - h[k].begin))
  }

  /** A mapping was made before the one that starts where it ends. */
  predicate LinkedAt(h: History, k: nat)
    requires k < |h|
  {
    exists l | k < l < |h| :: h[l].begin == h[k].End()
  }

  function Links(h: History): (r: set<nat>)
    ensures forall k | 0 <= k < |h| && LinkedAt(h, k) :: h[k].End() in r
    ensures forall e | e in r :: exists k :: 0 <= k < |h| && LinkedAt(h, k) && h[k].End() == e
  {
    set k | 0 <= k < |h| && LinkedAt(h, k) :: h[k].End()
  }

  // ---------- the representation ----------

  /** One range for every mapping, under its end. */
  ghost predicate Rep(bytes: Bytes, h: History) {
    && Proper(h)
    && (forall k | 0 <= k < |h| :: Stored(bytes, h[k]))
    && (forall e | e in bytes :: exists k :: 0 <= k < |h| && h[k].End() == e)
  }

  predicate Stored(bytes: Bytes, m: Mapping) {
    m.End() in bytes && bytes[m.End()].data == m.data && |bytes[m.End()].meta| == |m.data|
  }

  /** The flags of byte `i` of a mapping, given the addresses of functions and variables and the
      ends that are linked to a later mapping. */
  function Expected(m: Mapping, i: nat, funcs: set<Address>, vars: set<Address>, links: set<nat>): Meta {
    Meta(i + 1 < |m.data|, i + 1 == |m.data| && m.End() in links,
         m.At(i) in funcs, m.At(i) in vars, m.writeable, m.executable)
  }

  ghost predicate FlagsOf(bytes: Bytes, m: Mapping, funcs: set<Address>, vars: set<Address>, links: set<nat>)
    requires Stored(bytes, m)
  {
    forall i | 0 <= i < |m.data| :: bytes[m.End()].meta[i] == Expected(m, i, funcs, vars, links)
  }

  ghost predicate Flags(bytes: Bytes, h: History, funcs: set<Address>, vars: set<Address>, links: set<nat>)
    requires Rep(bytes, h)
  {
    forall k | 0 <= k < |h| :: FlagsOf(bytes, h[k], funcs, vars, links)
  }

  lemma EndsDiffer(h: History, k: nat, l: nat)
    requires Proper(h) && k < |h| && l < |h| && k != l
    ensures h[k].End() != h[l].End()
  {
    assert k < l || l < k;
  }

  lemma EndIsLink(h: History, k: nat)
    requires Proper(h) && k < |h|
    ensures h[k].End() in Links(h) <==> LinkedAt(h, k)
  {
    hide Proper, LinkedAt;
    forall l | 0 <= l < |h| && h[l].End() == h[k].End()
      ensures l == k
    {
      if l != k { EndsDiffer(h, k, l); }
    }
  }

  /** The range with the smallest end above an address is the only one that can hold it. */
  lemma SmallestEnd(h: History, a: nat, k: nat)
    requires Proper(h) && k < |h| && a < h[k].End()
    requires forall l | 0 <= l < |h| && a < h[l].End() :: h[k].End() <= h[l].End()
    ensures Find(h, a) == if h[k].begin <= a then Some(k) else None
  {
    if h[k].begin <= a {
      FindUnique(h, a, k);
    } else {
      forall l | 0 <= l < |h|
        ensures !h[l].Holds(a)
      {
        if l < k {
        } else if k < l {
        }
      }
    }
  }

  // ---------- changing one byte's flags ----------

  function WithMeta(bytes: Bytes, s: Slot, meta: Meta): Bytes
    requires s.range in bytes && s.offset < |bytes[s.range].meta|
  {
    bytes[s.range := bytes[s.range].(meta := bytes[s.range].meta[s.offset := meta])]
  }

  lemma WithMetaRep(bytes: Bytes, h: History, s: Slot, meta: Meta)
    requires Rep(bytes, h) && s.range in bytes && s.offset < |bytes[s.range].meta|
    ensures Rep(WithMeta(bytes, s, meta), h)
  {
    var bytes' := WithMeta(bytes, s, meta);
    forall k | 0 <= k < |h|
      ensures Stored(bytes', h[k])
    {
      assert Stored(bytes, h[k]);
    }
  }

  /** Changing the flags of one byte, when those expected of all others stay. */
  lemma WithMetaFlags(bytes: Bytes, h: History, k: nat, i: nat,
                      funcs: set<Address>, vars: set<Address>, links: set<nat>,
                      funcs': set<Address>, vars': set<Address>, links': set<nat>)
    requires Rep(bytes, h) && Flags(bytes, h, funcs, vars, links) && k < |h| && i < |h[k].data|
    requires forall l, j | 0 <= l < |h| && 0 <= j < |h[l].data| && (l != k || j != i) ::
               Expected(h[l], j, funcs', vars', links') == Expected(h[l], j, funcs, vars, links)
    ensures
      var bytes' := WithMeta(bytes, Slot(h[k].End(), i), Expected(h[k], i, funcs', vars', links'));
      Rep(bytes', h) && Flags(bytes', h, funcs', vars', links')
  {
    hide Proper, Expected;
    var s, meta := Slot(h[k].End(), i), Expected(h[k], i, funcs', vars', links');
    assert Stored(bytes, h[k]);
    WithMetaRep(bytes, h, s, meta);
    var bytes' := WithMeta(bytes, s, meta);
    forall l | 0 <= l < |h|
      ensures FlagsOf(bytes', h[l], funcs', vars', links')
    {
      assert FlagsOf(bytes, h[l], funcs, vars, links);
      if l != k { EndsDiffer(h, k, l); }
    }
  }

  lemma NotEmpty(bytes: Bytes, h: History, k: nat)
    requires Rep(bytes, h) && k < |h|
    ensures h[k].data != []
  {
  }

  lemma MetaAt(bytes: Bytes, h: History, k: nat, i: nat,
               funcs: set<Address>, vars: set<Address>, links: set<nat>)
    requires Rep(bytes, h) && Flags(bytes, h, funcs, vars, links) && k < |h| && i < |h[k].data|
    ensures Proper(h) && h[k].End() in bytes && i < |bytes[h[k].End()].meta|
    ensures bytes[h[k].End()].meta[i] == Expected(h[k], i, funcs, vars, links)
  {
    assert Stored(bytes, h[k]) && FlagsOf(bytes, h[k], funcs, vars, links);
  }

  lemma MarkFunction(bytes: Bytes, h: History, a: Address, k: nat,
                     funcs: set<Address>, vars: set<Address>, links: set<nat>)
    requires Rep(bytes, h) && Flags(bytes, h, funcs, vars, links) && k < |h| && h[k].Holds(a)
    ensures
      var s := Slot(h[k].End(), a - h[k].begin);
      && s.range in bytes && s.offset < |bytes[s.range].meta|
      && var bytes' := WithMeta(bytes, s, bytes[s.range].meta[s.offset].(isFunctionHead := true));
         Rep(bytes', h) && Flags(bytes', h, funcs + {a}, vars, links)
  {
    hide Rep, Flags, Proper;
    MetaAt(bytes, h, k, a - h[k].begin, funcs, vars, links);
    OthersStay(h, a, k, funcs, vars, links);
    WithMetaFlags(bytes, h, k, a - h[k].begin, funcs, vars, links, funcs + {a}, vars, links);
  }

  lemma MarkVariable(bytes: Bytes, h: History, a: Address, k: nat,
                     funcs: set<Address>, vars: set<Address>, links: set<nat>)
    requires Rep(bytes, h) && Flags(bytes, h, funcs, vars, links) && k < |h| && h[k].Holds(a)
    ensures
      var s := Slot(h[k].End(), a - h[k].begin);
      && s.range in bytes && s.offset < |bytes[s.range].meta|
      && var bytes' := WithMeta(bytes, s, bytes[s.range].meta[s.offset].(isVariableHead := true));
         Rep(bytes', h) && Flags(bytes', h, funcs, vars + {a}, links)
  {
    hide Rep, Flags, Proper;
    MetaAt(bytes, h, k, a - h[k].begin, funcs, vars, links);
    OthersStay(h, a, k, funcs, vars, links);
    WithMetaFlags(bytes, h, k, a - h[k].begin, funcs, vars, links, funcs, vars + {a}, links);
  }

  /** Only one byte of one mapping has a given address. */
  lemma OthersStay(h: History, a: Address, k: nat, funcs: set<Address>, vars: set<Address>, links: set<nat>)
    requires Proper(h) && k < |h| && h[k].Holds(a)
    ensures forall l, j | 0 <= l < |h| && 0 <= j < |h[l].data| && (l != k || j != a - h[k].begin) ::
              && Expected(h[l], j, funcs + {a}, vars, links) == Expected(h[l], j, funcs, vars, links)
              && Expected(h[l], j, funcs, vars + {a}, links) == Expected(h[l], j, funcs, vars, links)
  {
    forall l, j | 0 <= l < |h| && 0 <= j < |h[l].data| && (l != k || j != a - h[k].begin)
      ensures h[l].At(j) != a
    {
      if l < k {
      } else if k < l {
      }
    }
  }

  /** The last byte of a mapping learns that another one starts behind it. */
  lemma MarkLink(bytes: Bytes, h: History, k: nat, funcs: set<Address>, vars: set<Address>, links: set<nat>)
    requires Rep(bytes, h) && Flags(bytes, h, funcs, vars, links) && k < |h|
    ensures
      var s := Slot(h[k].End(), |h[k].data| - 1);
      && s.range in bytes && s.offset < |bytes[s.range].meta|
      && var meta := bytes[s.range].meta[s.offset].(nextByteIsInRange := false, nextByteStartsNewRange := true);
         var bytes' := WithMeta(bytes, s, meta);
         Rep(bytes', h) && Flags(bytes', h, funcs, vars, links + {h[k].End()})
  {
    NotEmpty(bytes, h, k);
    hide Rep, Flags;
    MetaAt(bytes, h, k, |h[k].data| - 1, funcs, vars, links);
    forall l, j | 0 <= l < |h| && 0 <= j < |h[l].data| && (l != k || j != |h[k].data| - 1)
      ensures Expected(h[l], j, funcs, vars, links + {h[k].End()}) == Expected(h[l], j, funcs, vars, links)
    {
      if l != k { EndsDiffer(h, k, l); }
    }
    WithMetaFlags(bytes, h, k, |h[k].data| - 1, funcs, vars, links, funcs, vars, links + {h[k].End()});
  }

  // ---------- a new range ----------

  /** A mapping that may be added. */
  ghost predicate Fits(h: History, m: Mapping) {
    m.data != [] && m.End() < U64
    && forall k | 0 <= k < |h| :: h[k].End() <= m.begin || m.End() <= h[k].begin
  }

  function FreshMeta(m: Mapping): seq<Meta> {
    seq(|m.data|, i => Meta(i + 1 < |m.data|, false, false, false, m.writeable, m.executable))
  }

  lemma AddProper(h: History, m: Mapping)
    requires Proper(h) && Fits(h, m)
    ensures Proper(h + [m]) && forall k | 0 <= k < |h| :: h[k].End() != m.End()
  {
    forall k | 0 <= k < |h|
      ensures h[k].End() != m.End()
    {
      assert h[k].data != [];
    }
  }

  lemma AddRep(bytes: Bytes, h: History, m: Mapping)
    requires Rep(bytes, h) && Fits(h, m)
    ensures Rep(bytes[m.End() := Range(m.data, FreshMeta(m))], h + [m])
    ensures forall k | 0 <= k < |h| :: h[k].End() != m.End()
  {
    AddProper(h, m);
    hide Proper, Fits;
    var bytes', h' := bytes[m.End() := Range(m.data, FreshMeta(m))], h + [m];
    forall k | 0 <= k < |h'|
      ensures Stored(bytes', h'[k])
    {
      if k < |h| { assert Stored(bytes, h[k]); }
    }
    forall e | e in bytes'
      ensures exists k :: 0 <= k < |h'| && h'[k].End() == e
    {
      if e == m.End() {
        assert h'[|h|].End() == e;
      } else {
        var k :| 0 <= k < |h| && h[k].End() == e;
        assert h'[k].End() == e;
      }
    }
  }

  /** The addresses of a set that a mapping does not hold. */
  function Outside(s: set<Address>, m: Mapping): set<Address> {
    set a | a in s && !m.Holds(a)
  }

  lemma AddFlags(bytes: Bytes, h: History, m: Mapping, funcs: set<Address>, vars: set<Address>)
    requires Rep(bytes, h) && Fits(h, m) && Flags(bytes, h, funcs, vars, Links(h))
    ensures
      var bytes' := bytes[m.End() := Range(m.data, FreshMeta(m))];
      Rep(bytes', h + [m]) && Flags(bytes', h + [m], Outside(funcs, m), Outside(vars, m), Links(h))
  {
    AddRep(bytes, h, m);
    var bytes', h' := bytes[m.End() := Range(m.data, FreshMeta(m))], h + [m];
    forall k | 0 <= k < |h'|
      ensures FlagsOf(bytes', h'[k], Outside(funcs, m), Outside(vars, m), Links(h))
    {
      if k < |h| {
        assert h'[k] == h[k] && FlagsOf(bytes, h[k], funcs, vars, Links(h));
        OldFlags(bytes, h, m, k, funcs, vars);
      } else {
        assert m.End() !in Links(h);
      }
    }
  }

  lemma OldFlags(bytes: Bytes, h: History, m: Mapping, k: nat, funcs: set<Address>, vars: set<Address>)
    requires Rep(bytes, h) && Fits(h, m) && k < |h| && FlagsOf(bytes, h[k], funcs, vars, Links(h))
    requires h[k].End() != m.End()
    ensures
      var bytes' := bytes[m.End() := Range(m.data, FreshMeta(m))];
      Stored(bytes', h[k]) && FlagsOf(bytes', h[k], Outside(funcs, m), Outside(vars, m), Links(h))
  {
    forall i | 0 <= i < |h[k].data|
      ensures !m.Holds(h[k].At(i))
    {}
  }

  ghost predicate EndsAt(h: History, a: nat) {
    exists k :: 0 <= k < |h| && h[k].End() == a
  }

  lemma LinkedStep(h: History, m: Mapping, k: nat)
    requires k < |h|
    ensures LinkedAt(h + [m], k) <==> LinkedAt(h, k) || h[k].End() == m.begin
  {
    var h' := h + [m];
    if LinkedAt(h, k) {
      var l :| k < l < |h| && h[l].begin == h[k].End();
      assert h'[l].begin == h'[k].End();
    }
    if h[k].End() == m.begin {
      assert h'[|h|].begin == h'[k].End();
    }
  }

  /** A new mapping adds a link exactly when another ends where it begins. */
  lemma LinksStep(h: History, m: Mapping)
    ensures Links(h + [m]) == if EndsAt(h, m.begin) then Links(h) + {m.begin} else Links(h)
  {
    var h' := h + [m];
    forall e | e in Links(h')
      ensures e in Links(h) || (EndsAt(h, m.begin) && e == m.begin)
    {
      var k :| 0 <= k < |h'| && LinkedAt(h', k) && h'[k].End() == e;
      LinkedStep(h, m, k);
    }
    forall e | e in Links(h)
      ensures e in Links(h')
    {
      var k :| 0 <= k < |h| && LinkedAt(h, k) && h[k].End() == e;
      LinkedStep(h, m, k);
      assert h'[k].End() == e;
    }
    if EndsAt(h, m.begin) {
      var k :| 0 <= k < |h| && h[k].End() == m.begin;
      LinkedStep(h, m, k);
      assert h'[k].End() in Links(h');
    }
  }
}
