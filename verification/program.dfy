/** The program: mapped bytes, and declarations of functions and variables, in any order. */
module Program {
  import opened Options
  import opened Words
  import opened ByteMap

  /** What a call of `MapRange` answers. */
  datatype Outcome = Done | Empty | NotRepresentable | Overlapping | NotExecutable

  /** A declared function or variable; `size` is the allocation size of a variable's type. */
  datatype Declaration = Declaration(address: Address, size: Address, id: nat)

  /** How a declaration comes out; `Invalid` stands for all defects of the declaration itself. */
  datatype Declared = Fresh | NotInCode | InUse | Invalid

  // ---------- what the operations should do ----------

  /** The answer to mapping `m`, given what was mapped and declared before. */
  ghost function Verdict(h: History, funcs: set<Address>, m: Mapping): Outcome {
    if m.data == [] then Empty
    else if m.End() >= U64 then NotRepresentable
    else if !Fits(h, m) then Overlapping
    else if !m.executable && (exists f :: f in funcs && m.Holds(f)) then NotExecutable
    else Done
  }

  predicate In(a: Mapping, x: nat) {
    a.begin <= x < a.begin + |a.data|
  }

  /** Some address is in both ranges. */
  ghost predicate Share(a: Mapping, b: Mapping) {
    exists x: nat :: In(a, x) && In(b, x)
  }

  lemma ShareIff(a: Mapping, b: Mapping)
    requires a.data != [] && b.data != []
    ensures Share(a, b) <==> a.begin < b.begin + |b.data| && b.begin < a.begin + |a.data|
  {
    var x: nat := if a.begin < b.begin then b.begin else a.begin;
    if a.begin < b.begin + |b.data| && b.begin < a.begin + |a.data| {
      assert In(a, x) && In(b, x);
    }
  }

  /** Each answer, in terms of addresses. */
  lemma VerdictMeans(h: History, funcs: set<Address>, m: Mapping)
    requires Proper(h)
    ensures
      var end := m.begin + |m.data|;
      var shared := exists k | 0 <= k < |h| :: Share(h[k], m);
      var data := !m.executable && exists f :: f in funcs && m.begin <= f < end;
      && (Verdict(h, funcs, m).Empty? <==> |m.data| == 0)
      && (Verdict(h, funcs, m).NotRepresentable? <==> |m.data| > 0 && end >= 0x1_0000_0000_0000_0000)
      && (Verdict(h, funcs, m).Overlapping? <==> |m.data| > 0 && end < 0x1_0000_0000_0000_0000 && shared)
      && (Verdict(h, funcs, m).NotExecutable? <==>
            |m.data| > 0 && end < 0x1_0000_0000_0000_0000 && !shared && data)
      && (Verdict(h, funcs, m).Done? <==> |m.data| > 0 && end < 0x1_0000_0000_0000_0000 && !shared && !data)
  {
    hide Share;
    if m.data != [] && m.End() < U64 { FitsIff(h, m); }
    assert forall f | f in funcs :: m.Holds(f) <==> m.begin <= f < m.begin + |m.data|;
  }

  lemma FitsIff(h: History, m: Mapping)
    requires Proper(h) && m.data != [] && m.End() < U64
    ensures Fits(h, m) <==> forall k | 0 <= k < |h| :: !Share(h[k], m)
  {
    hide Share;
    forall k | 0 <= k < |h|
      ensures Share(h[k], m) <==> h[k].begin < m.begin + |m.data| && m.begin < h[k].begin + |h[k].data|
    {
      ShareIff(h[k], m);
    }
  }

  lemma RepProper(bytes: Bytes, h: History)
    requires Rep(bytes, h)
    ensures Proper(h)
  {
  }

  lemma NotInCodeIff(h: History, a: nat)
    requires Proper(h)
    ensures Find(h, a).Some? && !h[Find(h, a).value].executable
            <==> exists k :: 0 <= k < |h| && !h[k].executable && h[k].Holds(a)
  {
    hide Find;
    forall k | 0 <= k < |h| && h[k].Holds(a)
      ensures Find(h, a) == Some(k)
    {
      FindUnique(h, a, k);
    }
  }

  /** Functions lie in executable mappings, where they lie in any. */
  ghost predicate InCode(h: History, funcs: set<Address>) {
    forall k, f | 0 <= k < |h| && f in funcs && h[k].Holds(f) :: h[k].executable
  }

  /** The list and the table hold declarations of the same addresses. */
  ghost predicate Indexed(list: seq<Declaration>, table: map<Address, Declaration>) {
    && (forall d | d in list :: d.address in table)
    && (forall a | a in table :: table[a] in list && table[a].address == a)
  }

  /** The byte at `a` and the one behind it are mapped, and the mapping of the second was not made
      before that of the first. */
  ghost predicate Follows(h: History, a: nat) {
    Find(h, a).Some? && Find(h, a + 1).Some? && Find(h, a).value <= Find(h, a + 1).value
  }

  /** Mapped from low addresses to high ones. */
  ghost predicate Ascending(h: History) {
    forall k, l | 0 <= k < l < |h| :: h[k].begin < h[l].begin
  }

  lemma AscendingFollows(h: History, a: nat)
    requires Proper(h) && Ascending(h)
    ensures Follows(h, a) <==> Find(h, a).Some? && Find(h, a + 1).Some?
  {
    if Find(h, a).Some? && Find(h, a + 1).Some? {
      var k, l := Find(h, a).value, Find(h, a + 1).value;
      assert k <= l || l < k;
    }
  }

  /** The next byte, in terms of mappings: in the same one, or at the start of a later one. */
  lemma FollowsMeans(h: History, a: nat, k: nat)
    requires Proper(h) && k < |h| && h[k].Holds(a)
    ensures Follows(h, a) <==> a + 1 < h[k].End() || LinkedAt(h, k)
    ensures a + 1 < h[k].End() ==> Find(h, a + 1) == Some(k)
  {
    FindUnique(h, a, k);
    if a + 1 < h[k].End() {
      FindUnique(h, a + 1, k);
    } else if LinkedAt(h, k) {
      var l :| k < l < |h| && h[l].begin == h[k].End();
      FindUnique(h, a + 1, l);
    } else if Find(h, a + 1).Some? {
      var l := Find(h, a + 1).value;
      StartsThere(h, a, k, l);
    }
  }

  lemma StartsThere(h: History, a: nat, k: nat, l: nat)
    requires Proper(h) && k < |h| && l < |h| && h[k].Holds(a) && h[l].Holds(a + 1) && a + 1 == h[k].End()
    ensures h[l].begin == h[k].End() && k != l
  {
    if l < k {
    } else if k < l {
    }
  }

  /** The sequence `FindBytes` gives for a request of `size` bytes: as many as were asked for, but
      no more than the whole range has. */
  function Clamped(m: Mapping, size: nat): nat {
    if size > |m.data| then |m.data| else size
  }

  /** Every byte of that sequence is the byte `FindByte` finds exactly when the request fits in the
      rest of the range, or starts with the range. */
  lemma FindBytesAgreesIff(h: History, a: nat, size: nat, k: nat)
    requires Proper(h) && k < |h| && h[k].Holds(a)
    ensures (forall b | a <= b < a + Clamped(h[k], size) :: SlotOf(h, b) == Some(Slot(h[k].End(), b - h[k].begin)))
            <==> a + size <= h[k].End() || a == h[k].begin
  {
    var n := Clamped(h[k], size);
    if a + size <= h[k].End() || a == h[k].begin {
      forall b | a <= b < a + n
        ensures SlotOf(h, b) == Some(Slot(h[k].End(), b - h[k].begin))
      {
        FindUnique(h, b, k);
      }
    } else {
      var b := h[k].End();
      assert a <= b < a + n;
      if Find(h, b).Some? {
        EndOutside(h, k, Find(h, b).value);
      }
      assert SlotOf(h, b) != Some(Slot(h[k].End(), b - h[k].begin));
    }
  }

  lemma EndOutside(h: History, k: nat, l: nat)
    requires Proper(h) && k < |h| && l < |h| && h[l].Holds(h[k].End())
    ensures l != k && h[l].End() != h[k].End()
  {
  }

  /** The answer to a declaration, apart from where a function lies. */
  function Answer(inUse: bool, wellFormed: bool): Declared {
    if inUse then InUse else if !wellFormed then Invalid else Fresh
  }

  /** The last variable that starts at an address or below it. */
  ghost predicate Closest(table: map<Address, Declaration>, address: nat, v: Address) {
    v in table && v <= address && forall u | u in table && u <= address :: u <= v
  }

  /** A variable holds its own address, and those up to its end if that can be represented. */
  predicate Within(v: Address, size: nat, address: nat, narrow: bool) {
    address == v || (address < v + size && v + size < if narrow then U32 else U64)
  }

  /** The masked end of a variable, as an unsigned word. */
  function MaskedEnd(v: Address, size: nat, narrow: bool): nat {
    (v + size) % U64 % if narrow then U32 else U64
  }

  lemma MaskedEndMeans(v: Address, size: Address, address: nat, narrow: bool)
    requires v < address
    ensures MaskedEnd(v, size, narrow) >= v && MaskedEnd(v, size, narrow) >= size
            && address < MaskedEnd(v, size, narrow)
            <==> Within(v, size, address, narrow)
  {
    if v + size < U64 {
      SmallMod(v + size, U64);
    } else {
      ModEqual(v + size, v + size - U64, U64);
      SmallMod(v + size - U64, U64);
    }
    if narrow {
      LowHalf(v + size);
      if v < U32 && size < U32 {
        if v + size < U32 {
          SmallMod(v + size, U32);
        } else {
          ModEqual(v + size, v + size - U32, U32);
          SmallMod(v + size - U32, U32);
        }
      }
    }
  }

  // ---------- the program ----------

  class Impl {
    var bytes: Bytes
    var funcs: seq<Declaration>
    var ea_to_func: map<Address, Declaration>
    var vars: seq<Declaration>
    var ea_to_var: map<Address, Declaration>

    // The successful calls of MapRange so far.
    ghost var history: History

    constructor ()
      ensures Valid() && history == [] && funcs == [] && vars == []
    {
      bytes, history := map[], [];
      funcs, ea_to_func, vars, ea_to_var := [], map[], [], map[];
    }

    /** In every reachable state: one range for every mapping, with its bytes; flags that say what
        was declared and what follows; and functions in executable ranges. */
    ghost predicate Valid()
      reads this
    {
      && State(ea_to_func.Keys, ea_to_var.Keys, Links(history))
      && InCode(history, ea_to_func.Keys)
      && Indexed(funcs, ea_to_func) && Indexed(vars, ea_to_var)
    }

    ghost predicate State(fs: set<Address>, vs: set<Address>, links: set<nat>)
      reads this
    {
      Rep(bytes, history) && Flags(bytes, history, fs, vs, links)
    }

    // ---------- lookups ----------

    /** The smallest key above an address. */
    method UpperBound(address: nat) returns (r: Option<nat>)
      ensures r.Some? ==> r.value in bytes && address < r.value
      ensures r.Some? ==> forall e | e in bytes && address < e :: r.value <= e
      ensures r.None? ==> forall e | e in bytes :: e <= address
    {
      r := None;
      var left := bytes.Keys;
      while left != {}
        invariant left <= bytes.Keys
        invariant r.Some? ==> r.value in bytes && address < r.value
        invariant r.Some? ==> forall e | e in bytes && e !in left && address < e :: r.value <= e
        invariant r.None? ==> forall e | e in bytes && e !in left :: e <= address
        decreases |left|
      {
        var e :| e in left;
        left := left - {e};
        if address < e && (r.None? || e < r.value) {
          r := Some(e);
        }
      }
    }

    /** The range that may hold an address: the one with the smallest end above it. */
    method Candidate(address: nat) returns (r: Option<nat>)
      requires Rep(bytes, history)
      ensures r.Some? ==> exists k :: Chosen(history, address, k, r.value)
      ensures r.None? ==> Find(history, address) == None
      ensures r.Some? ==> r.value in bytes && |bytes[r.value].data| <= r.value
    {
      r := UpperBound(address);
      NoCandidate(bytes, history, address, r);
    }

    /** A pointer to the byte at an address, if it is mapped. */
    method FindByte(address: nat) returns (r: Option<Slot>)
      requires Rep(bytes, history)
      ensures r == SlotOf(history, address)
    {
      hide Rep, Find;
      var limit := Candidate(address);
      if limit.None? {
        return None;
      }
      ghost var k :| Chosen(history, address, k, limit.value);
      ChosenFinds(bytes, history, address, k, limit.value);
      var base := limit.value - |bytes[limit.value].data|;
      if base <= address < limit.value {
        r := Some(Slot(limit.value, address - base));
      } else {
        r := None;
      }
    }

    /** The whole range around an address: its first byte, its size and where it starts. */
    method FindBytesContaining(address: nat) returns (r: Option<(Slot, nat, nat)>)
      requires Rep(bytes, history)
      ensures match Find(history, address)
              case None => r == None
              case Some(k) => r == Some((Slot(history[k].End(), 0), |history[k].data|, history[k].begin))
    {
      hide Rep, Find;
      var limit := Candidate(address);
      if limit.None? {
        return None;
      }
      ghost var k :| Chosen(history, address, k, limit.value);
      ChosenFinds(bytes, history, address, k, limit.value);
      var size := |bytes[limit.value].data|;
      var base := limit.value - size;
      if base <= address < limit.value {
        r := Some((Slot(limit.value, 0), size, base));
      } else {
        r := None;
      }
    }

    /** The bytes from an address on; the size is cut to that of the whole range. */
    method FindBytes(address: nat, size: nat) returns (r: Option<(Slot, nat)>)
      requires Rep(bytes, history)
      ensures size == 0 ==> r == None
      ensures size != 0 ==>
                match Find(history, address)
                case None => r == None
                case Some(k) =>
                  r == Some((Slot(history[k].End(), address - history[k].begin), Clamped(history[k], size)))
    {
      hide Rep, Find;
      if size == 0 {
        return None;
      }
      var limit := Candidate(address);
      if limit.None? {
        return None;
      }
      ghost var k :| Chosen(history, address, k, limit.value);
      ChosenFinds(bytes, history, address, k, limit.value);
      var total := |bytes[limit.value].data|;
      var base := limit.value - total;
      if base <= address < limit.value {
        r := Some((Slot(limit.value, address - base), if size > total then total else size));
      } else {
        r := None;
      }
    }

    /** The byte behind a byte, by its flags.  A hit is the byte `FindByte` finds there; a byte is
        missed when its range was mapped before the one it follows. */
    method FindNextByte(address: nat, byte: Option<Slot>) returns (r: Option<Slot>)
      requires Valid() && byte == SlotOf(history, address)
      ensures r.Some? <==> Follows(history, address)
      ensures r.Some? ==> r == SlotOf(history, address + 1)
    {
      hide Rep, Flags, Find;
      if byte.None? {
        return None;
      }
      ghost var k := Find(history, address).value;
      ByteFlags(bytes, history, address, ea_to_func.Keys, ea_to_var.Keys);
      var meta := bytes[byte.value.range].meta[byte.value.offset];
      if meta.nextByteIsInRange {
        r := Some(Slot(byte.value.range, byte.value.offset + 1));
      } else if meta.nextByteStartsNewRange {
        r := FindByte(address + 1);
      } else {
        r := None;
      }
    }

    /** Going from byte to byte: how many there are from an address on.  In a program mapped from
        low to high, that is the whole run of mapped bytes. */
    method CountRun(address: nat) returns (n: nat)
      requires Valid()
      ensures n == 0 <==> Find(history, address) == None
      ensures forall b | address <= b < address + n :: Find(history, b).Some?
      ensures forall b | address <= b < address + n - 1 :: Follows(history, b)
      ensures n > 0 ==> !Follows(history, address + n - 1)
      ensures Ascending(history) ==> Find(history, address + n) == None
    {
      hide Rep, Flags, Find, Follows, SlotOf, Links, InCode, Indexed;
      n := 0;
      var byte := FindByte(address);
      SlotMeans(history, address);
      if byte.None? {
        return;
      }
      var last := address;
      MappedBelow(bytes, history, last);
      var next := FindNextByte(last, byte);
      while next.Some?
        invariant address <= last < U64
        invariant forall b | address <= b <= last :: Find(history, b).Some?
        invariant forall b | address <= b < last :: Follows(history, b)
        invariant next.Some? <==> Follows(history, last)
        invariant next.Some? ==> next == SlotOf(history, last + 1)
        decreases U64 - last
      {
        last := last + 1;
        SlotMeans(history, last);
        MappedBelow(bytes, history, last);
        next := FindNextByte(last, next);
      }
      n := last - address + 1;
      LastFollows(bytes, history, last);
    }

    /** The smallest address of a variable above another. */
    method NextVariable(above: int) returns (r: Option<Address>)
      ensures r.Some? ==> r.value in ea_to_var && above < r.value
      ensures r.Some? ==> forall v | v in ea_to_var && above < v :: r.value <= v
      ensures r.None? ==> forall v | v in ea_to_var :: v <= above
    {
      r := None;
      var left := ea_to_var.Keys;
      while left != {}
        invariant left <= ea_to_var.Keys
        invariant r.Some? ==> r.value in ea_to_var && above < r.value
        invariant r.Some? ==> forall v | v in ea_to_var && v !in left && above < v :: r.value <= v
        invariant r.None? ==> forall v | v in ea_to_var && v !in left :: v <= above
        decreases |left|
      {
        var v :| v in left;
        left := left - {v};
        if above < v && (r.None? || v < r.value) {
          r := Some(v);
        }
      }
    }

    /** Going through the variables from low to high, up to the first above an address. */
    method ClosestVariable(address: Address) returns (closest: Option<Address>)
      ensures closest.Some? ==> Closest(ea_to_var, address, closest.value)
      ensures closest.None? ==> forall v | v in ea_to_var :: v > address
    {
      closest := None;
      var it := NextVariable(-1);
      while it.Some? && it.value <= address
        invariant it.Some? ==> it.value in ea_to_var
        invariant closest.Some? ==> closest.value in ea_to_var && closest.value <= address
        invariant forall v | v in ea_to_var && (it.None? || v < it.value) :: closest.Some? && v <= closest.value
        decreases if it.Some? then U64 - it.value else -1
      {
        closest := it;
        it := NextVariable(it.value);
      }
    }

    /** The variable an address lies in: the closest one at or below it, if it reaches that far. */
    method FindInVariable(address: Address, narrow: bool) returns (r: Option<Declaration>)
      ensures r.Some? <==> exists v :: Closest(ea_to_var, address, v)
                                       && Within(v, ea_to_var[v].size, address, narrow)
      ensures r.Some? ==> forall v | Closest(ea_to_var, address, v) :: r == Some(ea_to_var[v])
      ensures address in ea_to_var ==> r == Some(ea_to_var[address])
    {
      hide MaskedEnd;
      var closest := ClosestVariable(address);
      if closest.None? {
        return None;
      }
      var v := closest.value;
      var decl := ea_to_var[v];
      assert Closest(ea_to_var, address, v) && forall u | Closest(ea_to_var, address, u) :: u == v;
      if v == address {
        assert Within(v, decl.size, address, narrow);
        return Some(decl);
      }
      MaskedEndMeans(v, decl.size, address, narrow);
      var end := MaskedEnd(v, decl.size, narrow);
      if end < v || end < decl.size {
        return None;
      }
      r := if address < end then Some(decl) else None;
    }

    // ---------- mapping ----------

    /** Map a range of bytes. */
    method MapRange(m: Mapping) returns (r: Outcome)
      requires Valid()
      modifies this`bytes, this`history
      ensures Valid()
      ensures r == Verdict(old(history), ea_to_func.Keys, m)
      ensures history == if r.Done? then old(history) + [m] else old(history)
      ensures !r.Done? ==> bytes == old(bytes)
    {
      hide Rep, Flags, Fits, InCode, Links, Indexed;
      if |m.data| == 0 {
        return Empty;
      }
      var end := (m.begin + |m.data|) % U64;
      Representable(m.begin, |m.data|);
      if U64 - 1 - (|m.data| - 1) < m.begin || end <= m.begin || end == 0 {
        return NotRepresentable;
      }
      var overlaps := Overlaps(m);
      if overlaps {
        return Overlapping;
      }
      var agreeable, containsFuncs := Agreeable(m);
      if !agreeable {
        return NotExecutable;
      }
      Store(m, containsFuncs);
      r := Done;
    }

    /** Going through the ranges from low to high, up to the first that starts behind the new one. */
    method Overlaps(m: Mapping) returns (overlaps: bool)
      requires Rep(bytes, history) && m.data != [] && m.End() < U64
      ensures overlaps <==> !Fits(history, m)
    {
      hide Rep;
      var existing := UpperBound(0);
      AllAbove(bytes, history, m, existing);
      while existing.Some?
        invariant existing.Some? ==> existing.value in bytes
        invariant BelowFit(history, m, existing)
        decreases if existing.Some? then U64 - existing.value else -1
      {
        var max := existing.value;
        ghost var k := RangeAt(bytes, history, max);
        var min := max - |bytes[max].data|;
        if min >= m.End() {
          RestFits(bytes, history, m, max);
          return false;
        }
        if max > m.begin {
          RangeOverlaps(bytes, history, m, max);
          return true;
        }
        existing := UpperBound(max);
        NextAbove(bytes, history, m, max, existing);
      }
      return false;
    }

    /** Whether the functions declared inside the new range allow it. */
    method Agreeable(m: Mapping) returns (ok: bool, containsFuncs: bool)
      requires Indexed(funcs, ea_to_func)
      ensures !ok <==> !m.executable && exists f :: f in ea_to_func.Keys && m.Holds(f)
      ensures ok ==> (containsFuncs <==> exists f :: f in ea_to_func.Keys && m.Holds(f))
    {
      ok, containsFuncs := true, false;
      for j := 0 to |funcs|
        invariant containsFuncs ==> m.executable && exists f :: f in ea_to_func.Keys && m.Holds(f)
        invariant !containsFuncs ==> forall i | 0 <= i < j :: !m.Holds(funcs[i].address)
      {
        if m.begin <= funcs[j].address < m.End() {
          assert funcs[j] in funcs && funcs[j].address in ea_to_func.Keys && m.Holds(funcs[j].address);
          if !m.executable {
            return false, containsFuncs;
          }
          containsFuncs := true;
        }
      }
      if !containsFuncs {
        forall f | f in ea_to_func.Keys
          ensures !m.Holds(f)
        {
          var i :| 0 <= i < |funcs| && funcs[i] == ea_to_func[f];
        }
      }
    }

    /** Add the range, and set the flags it calls for. */
    method Store(m: Mapping, containsFuncs: bool)
      requires Valid() && Fits(history, m)
      requires m.executable || forall f | f in ea_to_func.Keys :: !m.Holds(f)
      requires containsFuncs <==> exists f :: f in ea_to_func.Keys && m.Holds(f)
      modifies this`bytes, this`history
      ensures Valid() && history == old(history) + [m]
    {
      hide Rep, Flags, Fits, Links, Indexed, Outside, Marked, InCode;
      AddFlags(bytes, history, m, ea_to_func.Keys, ea_to_var.Keys);
      CodeStays(history, m, ea_to_func.Keys);
      bytes := bytes[m.End() := Range(m.data, FreshMeta(m))];
      history := history + [m];
      AllMarked(funcs, ea_to_func, m);
      AllMarked(vars, ea_to_var, m);
      ghost var links := Links(old(history));
      if containsFuncs {
        MarkFunctions(m, links);
      } else {
        NoneMarked(funcs, ea_to_func, m);
      }
      MarkVariables(m, links);
      LinkPrevious(m);
    }

    method MarkFunctions(m: Mapping, ghost links: set<nat>)
      requires history != [] && history[|history| - 1] == m
      requires State(Outside(ea_to_func.Keys, m), Outside(ea_to_var.Keys, m), links)
      modifies this`bytes
      ensures State(Outside(ea_to_func.Keys, m) + Marked(funcs, m), Outside(ea_to_var.Keys, m), links)
    {
      hide Rep, Flags, Outside, Marked;
      MarkedNone(funcs, m);
      ghost var fs, vs := Outside(ea_to_func.Keys, m), Outside(ea_to_var.Keys, m);
      assert fs + {} == fs;
      for j := 0 to |funcs|
        invariant State(fs + Marked(funcs[..j], m), vs, links)
      {
        MarkedStep(funcs, m, j);
        if m.begin <= funcs[j].address < m.End() {
          var byte := FindByte(funcs[j].address);
          LastHolds(bytes, history, m, funcs[j].address);
          MarkFunction(bytes, history, funcs[j].address, |history| - 1, fs + Marked(funcs[..j], m), vs, links);
          var s := byte.value;
          bytes := WithMeta(bytes, s, bytes[s.range].meta[s.offset].(isFunctionHead := true));
          assert fs + Marked(funcs[..j], m) + {funcs[j].address}
              == fs + (Marked(funcs[..j], m) + {funcs[j].address});
        }
      }
      assert funcs[..|funcs|] == funcs;
    }

    method MarkVariables(m: Mapping, ghost links: set<nat>)
      requires history != [] && history[|history| - 1] == m
      requires State(ea_to_func.Keys, Outside(ea_to_var.Keys, m), links)
      modifies this`bytes
      ensures State(ea_to_func.Keys, Outside(ea_to_var.Keys, m) + Marked(vars, m), links)
    {
      hide Rep, Flags, Outside, Marked;
      MarkedNone(vars, m);
      ghost var fs, vs := ea_to_func.Keys, Outside(ea_to_var.Keys, m);
      assert vs + {} == vs;
      for j := 0 to |vars|
        invariant State(fs, vs + Marked(vars[..j], m), links)
      {
        MarkedStep(vars, m, j);
        if m.begin <= vars[j].address < m.End() {
          var byte := FindByte(vars[j].address);
          LastHolds(bytes, history, m, vars[j].address);
          MarkVariable(bytes, history, vars[j].address, |history| - 1, fs, vs + Marked(vars[..j], m), links);
          var s := byte.value;
          bytes := WithMeta(bytes, s, bytes[s.range].meta[s.offset].(isVariableHead := true));
          assert vs + Marked(vars[..j], m) + {vars[j].address}
              == vs + (Marked(vars[..j], m) + {vars[j].address});
        }
      }
      assert vars[..|vars|] == vars;
    }

    /** The byte in front of the new range, if there is one, learns what follows it. */
    method LinkPrevious(m: Mapping)
      requires history != [] && history[|history| - 1] == m
      requires State(ea_to_func.Keys, ea_to_var.Keys, Links(history[..|history| - 1]))
      modifies this`bytes
      ensures State(ea_to_func.Keys, ea_to_var.Keys, Links(history))
    {
      hide Rep, Flags, Links, Find;
      ghost var links := Links(history[..|history| - 1]);
      PreviousLink(bytes, history, m);
      if m.begin == 0 {
        return;
      }
      var byte := FindByte(m.begin - 1);
      if byte.Some? {
        ghost var k := Find(history, m.begin - 1).value;
        MarkLink(bytes, history, k, ea_to_func.Keys, ea_to_var.Keys, links);
        var s := byte.value;
        bytes := WithMeta(bytes, s,
          bytes[s.range].meta[s.offset].(nextByteIsInRange := false, nextByteStartsNewRange := true));
      }
    }

    // ---------- declaring ----------

    /** Declare a function; `wellFormed` is the outcome of the checks on the declaration itself.  A
        forced second declaration is listed, but the table keeps the first. */
    method DeclareFunction(decl: Declaration, force: bool, wellFormed: bool) returns (r: Declared)
      requires Valid()
      modifies this`bytes, this`funcs, this`ea_to_func
      ensures Valid()
      ensures r == (match Find(history, decl.address)
                    case Some(k) =>
                      if history[k].executable then Answer(decl.address in old(ea_to_func) && !force, wellFormed)
                      else NotInCode
                    case None => Answer(decl.address in old(ea_to_func) && !force, wellFormed))
      ensures r.NotInCode?
              <==> exists k :: 0 <= k < |history| && !history[k].executable && history[k].Holds(decl.address)
      ensures r.InUse? <==> !r.NotInCode? && decl.address in old(ea_to_func) && !force
      ensures r.Fresh? <==> !r.NotInCode? && !r.InUse? && wellFormed
      ensures funcs == if r.Fresh? then old(funcs) + [decl] else old(funcs)
      ensures ea_to_func == if r.Fresh? && decl.address !in old(ea_to_func)
                            then old(ea_to_func)[decl.address := decl] else old(ea_to_func)
    {
      hide Rep, Flags, Find, Links;
      var byte := FindByte(decl.address);
      RepProper(bytes, history);
      NotInCodeIff(history, decl.address);
      if byte.Some? {
        ByteFlags(bytes, history, decl.address, ea_to_func.Keys, ea_to_var.Keys);
        if !bytes[byte.value.range].meta[byte.value.offset].isExecutable {
          return NotInCode;
        }
      }
      if decl.address in ea_to_func && !force {
        return InUse;
      }
      if !wellFormed {
        return Invalid;
      }
      AddFunction(decl, byte);
      r := Fresh;
    }

    /** Enter a function into the list and the table, and set the flag of its byte. */
    method AddFunction(decl: Declaration, byte: Option<Slot>)
      requires Valid() && byte == SlotOf(history, decl.address)
      requires byte.Some? ==> history[Find(history, decl.address).value].executable
      modifies this`bytes, this`funcs, this`ea_to_func
      ensures Valid() && funcs == old(funcs) + [decl]
      ensures ea_to_func == if decl.address in old(ea_to_func) then old(ea_to_func)
                            else old(ea_to_func)[decl.address := decl]
    {
      hide Rep, Flags, Find, Links, InCode;
      ghost var fs := ea_to_func.Keys;
      funcs := funcs + [decl];
      if decl.address !in ea_to_func {
        ea_to_func := ea_to_func[decl.address := decl];
      }
      assert ea_to_func.Keys == fs + {decl.address};
      CodeGrows(bytes, history, fs, decl.address);
      if byte.Some? {
        MarkFunction(bytes, history, decl.address, Find(history, decl.address).value,
                     fs, ea_to_var.Keys, Links(history));
        var s := byte.value;
        bytes := WithMeta(bytes, s, bytes[s.range].meta[s.offset].(isFunctionHead := true));
      } else {
        UnmappedHead(bytes, history, decl.address, fs, ea_to_var.Keys, Links(history));
      }
    }

    /** Declare a variable. */
    method DeclareVariable(decl: Declaration, wellFormed: bool) returns (r: Declared)
      requires Valid()
      modifies this`bytes, this`vars, this`ea_to_var
      ensures Valid()
      ensures r == Answer(decl.address in old(ea_to_var), wellFormed)
      ensures r.InUse? <==> decl.address in old(ea_to_var)
      ensures r.Fresh? <==> decl.address !in old(ea_to_var) && wellFormed
      ensures vars == if r.Fresh? then old(vars) + [decl] else old(vars)
      ensures ea_to_var == if r.Fresh? then old(ea_to_var)[decl.address := decl] else old(ea_to_var)
    {
      hide Rep, Flags, Find, Links, InCode;
      if decl.address in ea_to_var {
        return InUse;
      }
      if !wellFormed {
        return Invalid;
      }
      var byte := FindByte(decl.address);
      ghost var vs := ea_to_var.Keys;
      vars := vars + [decl];
      ea_to_var := ea_to_var[decl.address := decl];
      assert ea_to_var.Keys == vs + {decl.address};
      if byte.Some? {
        MarkVariable(bytes, history, decl.address, Find(history, decl.address).value,
                     ea_to_func.Keys, vs, Links(history));
        var s := byte.value;
        bytes := WithMeta(bytes, s, bytes[s.range].meta[s.offset].(isVariableHead := true));
      } else {
        UnmappedHead(bytes, history, decl.address, ea_to_func.Keys, vs, Links(history));
      }
      r := Fresh;
    }
  }

  /** `e` is the smallest end above an address, and belongs to mapping `k`. */
  ghost predicate Chosen(h: History, a: nat, k: nat, e: nat) {
    k < |h| && h[k].End() == e && a < e && forall l | 0 <= l < |h| && a < h[l].End() :: e <= h[l].End()
  }

  lemma NoCandidate(bytes: Bytes, h: History, a: nat, r: Option<nat>)
    requires Rep(bytes, h)
    requires r.Some? ==> r.value in bytes && a < r.value && forall e | e in bytes && a < e :: r.value <= e
    requires r.None? ==> forall e | e in bytes :: e <= a
    ensures r.None? ==> Find(h, a) == None
    ensures r.Some? ==> exists k :: Chosen(h, a, k, r.value)
    ensures r.Some? ==> |bytes[r.value].data| <= r.value
  {
    assert forall k | 0 <= k < |h| :: Stored(bytes, h[k]);
    if r.Some? {
      var k :| 0 <= k < |h| && h[k].End() == r.value;
      assert Chosen(h, a, k, r.value);
    }
  }

  lemma ChosenFinds(bytes: Bytes, h: History, a: nat, k: nat, e: nat)
    requires Rep(bytes, h) && Chosen(h, a, k, e)
    ensures e in bytes && bytes[e].data == h[k].data
    ensures Find(h, a) == if h[k].begin <= a then Some(k) else None
  {
    assert Stored(bytes, h[k]);
    SmallestEnd(h, a, k);
  }

  /** What the flags of a mapped byte say. */
  lemma ByteFlags(bytes: Bytes, h: History, a: nat, funcs: set<Address>, vars: set<Address>)
    requires Rep(bytes, h) && Flags(bytes, h, funcs, vars, Links(h)) && Find(h, a).Some?
    ensures
      var s := SlotOf(h, a).value;
      && s.range in bytes && s.offset < |bytes[s.range].meta|
      && var meta := bytes[s.range].meta[s.offset];
         && (meta.nextByteIsInRange ==>
               Follows(h, a) && SlotOf(h, a + 1) == Some(Slot(s.range, s.offset + 1)))
         && (!meta.nextByteIsInRange ==> (meta.nextByteStartsNewRange <==> Follows(h, a)))
         && (Follows(h, a) ==> SlotOf(h, a + 1).Some?)
         && (meta.isFunctionHead <==> a in funcs) && (meta.isVariableHead <==> a in vars)
         && meta.isWriteable == h[Find(h, a).value].writeable
         && meta.isExecutable == h[Find(h, a).value].executable
  {
    hide Rep, Flags;
    var k := Find(h, a).value;
    MetaAt(bytes, h, k, a - h[k].begin, funcs, vars, Links(h));
    FollowsMeans(h, a, k);
    assert Proper(h) by { RepProper(bytes, h); }
    EndIsLink(h, k);
  }

  /** The byte found at an address is the one its mapping put there. */
  lemma ByteValue(bytes: Bytes, h: History, a: nat)
    requires Rep(bytes, h) && Find(h, a).Some?
    ensures
      var s := SlotOf(h, a).value;
      var m := h[Find(h, a).value];
      s.range in bytes && s.offset < |bytes[s.range].data| && bytes[s.range].data[s.offset] == m.data[a - m.begin]
  {
    hide Proper;
    var k := Find(h, a).value;
    assert Stored(bytes, h[k]);
  }

  lemma SlotMeans(h: History, a: nat)
    ensures SlotOf(h, a).Some? <==> Find(h, a).Some?
  {
  }

  lemma MappedBelow(bytes: Bytes, h: History, a: nat)
    requires Rep(bytes, h) && Find(h, a).Some?
    ensures a + 1 < U64
  {
  }

  /** In an ascending history a byte nothing follows is the last of its run. */
  lemma LastFollows(bytes: Bytes, h: History, a: nat)
    requires Rep(bytes, h) && Find(h, a).Some? && !Follows(h, a)
    ensures Ascending(h) ==> Find(h, a + 1) == None
  {
    if Ascending(h) { AscendingFollows(h, a); }
  }

  // ---------- the steps of mapping ----------

  lemma Representable(begin: Address, size: nat)
    requires size > 0
    ensures
      var end := (begin + size) % U64;
      (U64 - 1 - (size - 1) < begin || end <= begin || end == 0) <==> begin + size >= U64
  {
    if begin + size == U64 {
    } else if begin + size < U64 {
    }
  }

  /** Of the ranges below the one looked at, all end in front of the new mapping. */
  ghost predicate BelowFit(h: History, m: Mapping, existing: Option<nat>) {
    forall k | 0 <= k < |h| && (existing.None? || h[k].End() < existing.value) :: h[k].End() <= m.begin
  }

  ghost predicate IsUpperBound(bytes: Bytes, a: nat, r: Option<nat>) {
    && (r.Some? ==> r.value in bytes && a < r.value && forall e | e in bytes && a < e :: r.value <= e)
    && (r.None? ==> forall e | e in bytes :: e <= a)
  }

  lemma AllAbove(bytes: Bytes, h: History, m: Mapping, existing: Option<nat>)
    requires Rep(bytes, h) && IsUpperBound(bytes, 0, existing)
    ensures BelowFit(h, m, existing)
  {
    assert forall k | 0 <= k < |h| :: Stored(bytes, h[k]);
  }

  lemma NextAbove(bytes: Bytes, h: History, m: Mapping, max: nat, existing: Option<nat>)
    requires Rep(bytes, h) && BelowFit(h, m, Some(max)) && max <= m.begin && IsUpperBound(bytes, max, existing)
    ensures BelowFit(h, m, existing)
  {
    assert forall k | 0 <= k < |h| :: Stored(bytes, h[k]);
  }

  lemma RangeAt(bytes: Bytes, h: History, e: nat) returns (k: nat)
    requires Rep(bytes, h) && e in bytes
    ensures k < |h| && h[k].End() == e && bytes[e].data == h[k].data && 0 < |h[k].data| <= e < U64
  {
    k :| 0 <= k < |h| && h[k].End() == e;
    assert Stored(bytes, h[k]);
  }

  lemma RestFits(bytes: Bytes, h: History, m: Mapping, max: nat)
    requires Rep(bytes, h) && m.data != [] && m.End() < U64
    requires max in bytes && |bytes[max].data| <= max && max - |bytes[max].data| >= m.End()
    requires BelowFit(h, m, Some(max))
    ensures Fits(h, m)
  {
    var k := RangeAt(bytes, h, max);
    forall l | 0 <= l < |h|
      ensures h[l].End() <= m.begin || m.End() <= h[l].begin
    {
      if l < k {
      } else if k < l {
      }
    }
  }

  lemma RangeOverlaps(bytes: Bytes, h: History, m: Mapping, max: nat)
    requires Rep(bytes, h) && max in bytes
    requires |bytes[max].data| <= max && max - |bytes[max].data| < m.End() && max > m.begin
    ensures !Fits(h, m)
  {
    var k := RangeAt(bytes, h, max);
  }

  lemma CodeStays(h: History, m: Mapping, funcs: set<Address>)
    requires InCode(h, funcs) && (m.executable || forall f | f in funcs :: !m.Holds(f))
    ensures InCode(h + [m], funcs)
  {
  }

  lemma CodeGrows(bytes: Bytes, h: History, funcs: set<Address>, a: Address)
    requires Rep(bytes, h) && InCode(h, funcs)
    requires Find(h, a).Some? ==> h[Find(h, a).value].executable
    ensures InCode(h, funcs + {a})
  {
    forall k | 0 <= k < |h| && h[k].Holds(a)
      ensures h[k].executable
    {
      FindUnique(h, a, k);
    }
  }

  /** The declared addresses inside a mapping. */
  function Marked(list: seq<Declaration>, m: Mapping): set<Address> {
    set d | d in list && m.Holds(d.address) :: d.address
  }

  lemma MarkedNone(list: seq<Declaration>, m: Mapping)
    ensures Marked(list[..0], m) == {}
  {
  }

  lemma MarkedStep(list: seq<Declaration>, m: Mapping, j: nat)
    requires j < |list|
    ensures Marked(list[..j + 1], m)
            == if m.Holds(list[j].address) then Marked(list[..j], m) + {list[j].address} else Marked(list[..j], m)
  {
    assert list[..j + 1] == list[..j] + [list[j]];
  }

  lemma AllMarked(list: seq<Declaration>, table: map<Address, Declaration>, m: Mapping)
    requires Indexed(list, table)
    ensures Outside(table.Keys, m) + Marked(list, m) == table.Keys
  {
    forall a | a in table.Keys && m.Holds(a)
      ensures a in Marked(list, m)
    {
      assert table[a] in list && table[a].address == a;
    }
  }

  lemma NoneMarked(list: seq<Declaration>, table: map<Address, Declaration>, m: Mapping)
    requires Indexed(list, table) && forall f | f in table.Keys :: !m.Holds(f)
    ensures Outside(table.Keys, m) == table.Keys
  {
  }

  lemma LastHolds(bytes: Bytes, h: History, m: Mapping, a: nat)
    requires Rep(bytes, h) && h != [] && h[|h| - 1] == m && m.Holds(a)
    ensures Find(h, a) == Some(|h| - 1)
  {
  }

  /** The byte in front of a new mapping is the last of its own, and becomes linked. */
  lemma PreviousLink(bytes: Bytes, h: History, m: Mapping)
    requires Rep(bytes, h) && h != [] && h[|h| - 1] == m
    ensures
      var before := if m.begin == 0 then None else Find(h, m.begin - 1);
      match before
      case None => Links(h) == Links(h[..|h| - 1])
      case Some(k) =>
        && m.begin - 1 - h[k].begin == |h[k].data| - 1
        && Links(h) == Links(h[..|h| - 1]) + {h[k].End()}
  {
    hide Links;
    var init := h[..|h| - 1];
    assert h == init + [m];
    LinksStep(init, m);
    if m.begin != 0 && Find(h, m.begin - 1).Some? {
      var k := Find(h, m.begin - 1).value;
      EndsBefore(h, m, k);
      assert init[k].End() == m.begin;
    } else {
      forall k | 0 <= k < |init|
        ensures init[k].End() != m.begin
      {
        if m.begin != 0 { assert !h[k].Holds(m.begin - 1); }
      }
    }
  }

  lemma EndsBefore(h: History, m: Mapping, k: nat)
    requires Proper(h) && h != [] && h[|h| - 1] == m && m.begin > 0
    requires k < |h| && h[k].Holds(m.begin - 1)
    ensures k < |h| - 1 && h[k].End() == m.begin
  {
  }

  /** Declaring something where nothing is mapped changes no flags. */
  lemma UnmappedHead(bytes: Bytes, h: History, a: Address,
                     funcs: set<Address>, vars: set<Address>, links: set<nat>)
    requires Rep(bytes, h) && Flags(bytes, h, funcs, vars, links) && Find(h, a) == None
    ensures Flags(bytes, h, funcs + {a}, vars, links) && Flags(bytes, h, funcs, vars + {a}, links)
  {
    forall k | 0 <= k < |h|
      ensures FlagsOf(bytes, h[k], funcs + {a}, vars, links) && FlagsOf(bytes, h[k], funcs, vars + {a}, links)
    {
      assert Stored(bytes, h[k]) && FlagsOf(bytes, h[k], funcs, vars, links);
      assert forall i | 0 <= i < |h[k].data| :: h[k].Holds(h[k].At(i));
      assert forall i | 0 <= i < |h[k].data| :: h[k].At(i) != a;
    }
  }
}
