/** Indirect jumps as switches: one on the original addresses of the targets, one on their distance
    from the largest target, and a chain of comparisons for targets that are functions. */
module IndirectJump {
  import opened Options
  import opened Words

  type Ea = Address

  /** A block of the disassembled function. */
  datatype CfgBlock = CfgBlock(ea: Ea, successors: seq<Ea>, isReferencedByData: bool)

  datatype CfgFunction = CfgFunction(ea: Ea, blocks: seq<CfgBlock>)

  /** A `switch`: constants and the blocks they select. */
  type Cases = seq<(nat, nat)>

  /** The switch on distances: `max` is the largest target that is not a function. */
  datatype Offsets = Offsets(max: Ea, cases: Cases)

  /** What an indirect jump is lifted to.  `word` is the number of values of a machine word,
      `rebase` that the jump goes through an offset table, `narrow` that distances and functions are
      compared in 32 bits, `chain` the functions compared one after the other. */
  datatype Dispatch = Dispatch(word: nat, rebase: bool, narrow: bool, direct: Cases,
                               offsets: Option<Offsets>, chain: seq<(Ea, nat)>)

  // ---------- running it ----------

  /** The first case with this constant. */
  function Lookup(cases: Cases, v: nat): Option<nat> {
    if cases == [] then None
    else if cases[0].0 == v then Some(cases[0].1)
    else Lookup(cases[1..], v)
  }

  function Narrowed(d: Dispatch, v: nat): nat {
    if d.narrow then v % U32 else v
  }

  /** Comparing with the run-time addresses of functions. */
  function Compare(d: Dispatch, chain: seq<(Ea, nat)>, v: nat, bias: nat): Option<nat>
    requires d.word > 0
  {
    if chain == [] then None
    else if v == Narrowed(d, (chain[0].0 + bias) % d.word) then Some(chain[0].1)
    else Compare(d, chain[1..], v, bias)
  }

  /** The value switched on. */
  function Index(d: Dispatch, pc: nat, bias: nat): nat
    requires d.word > 0
  {
    if d.rebase then (pc - bias) % d.word else pc
  }

  /** The block selected for a program counter in a program loaded `bias` above its original
      addresses; none when the jump leaves the function. */
  function Select(d: Dispatch, pc: nat, bias: nat): Option<nat>
    requires d.word > 0
  {
    var v := Index(d, pc, bias);
    if Lookup(d.direct, v).Some? then Lookup(d.direct, v)
    else if d.offsets.Some? && Distant(d, v, bias).Some? then Distant(d, v, bias)
    else Compare(d, d.chain, v, bias)
  }

  function Distant(d: Dispatch, v: nat, bias: nat): Option<nat>
    requires d.word > 0 && d.offsets.Some?
  {
    Lookup(d.offsets.value.cases, Narrowed(d, (d.offsets.value.max + bias - v) % d.word))
  }

  // ---------- what it should do ----------

  /** Whether `v` stands for target `ea`, once it is known not to be an original target.
      Without narrowing it is the run-time address of `ea`; with it, the low halves decide for
      targets up to `max`, and functions beyond it need the narrowed address itself. */
  predicate StandsFor(word: nat, narrow: bool, max: Option<Ea>, bias: nat, v: nat, ea: Ea)
    requires word > 0
  {
    if !narrow then v == (ea + bias) % word
    else if max.Some? && ea <= max.value then v % U32 == (ea + bias) % U32
    else v == (ea + bias) % U32
  }

  function DirectCases(m: map<Ea, nat>, order: seq<Ea>): Cases
    requires forall ea | ea in order :: ea in m
  {
    seq(|order|, i requires 0 <= i < |order| => (order[i], m[order[i]]))
  }

  function OffsetCases(m: map<Ea, nat>, order: seq<Ea>, max: Ea, word: nat): Cases
    requires word > 0 && forall ea | ea in order :: ea in m
  {
    seq(|order|, i requires 0 <= i < |order| => ((max - order[i]) % word, m[order[i]]))
  }

  /** The targets in the order they are gone through. */
  ghost predicate Lists(order: seq<Ea>, m: map<Ea, nat>) {
    && (forall ea :: ea in order <==> ea in m)
    && (forall i, j | 0 <= i < j < |order| :: order[i] != order[j])
  }

  /** The functions among the targets, each with its block. */
  ghost predicate ChainFor(chain: seq<(Ea, nat)>, m: map<Ea, nat>, functions: set<Ea>) {
    && (forall c | c in chain :: c.0 in m && c.0 in functions && c.1 == m[c.0])
    && (forall ea | ea in m && ea in functions :: (ea, m[ea]) in chain)
  }

  ghost predicate MaxFor(max: Option<Ea>, m: map<Ea, nat>, functions: set<Ea>) {
    if max.Some? then
      && max.value in m && max.value !in functions
      && forall ea | ea in m && ea !in functions :: ea <= max.value
    else forall ea | ea in m :: ea in functions
  }

  /** The dispatch made for a set of targets. */
  ghost predicate For(d: Dispatch, m: map<Ea, nat>, functions: set<Ea>, wide: bool, order: seq<Ea>) {
    && d.word == (if wide then U64 else U32)
    && Lists(order, m)
    && (forall ea | ea in m :: ea < d.word)
    && (d.narrow <==> wide && forall ea | ea in m :: ea < U32)
    && d.direct == DirectCases(m, order)
    && MaxFor(MaxOf(d), m, functions)
    && (d.offsets.Some? ==> d.offsets.value.cases == OffsetCases(m, order, d.offsets.value.max, d.word))
    && ChainFor(d.chain, m, functions)
  }

  function MaxOf(d: Dispatch): Option<Ea> {
    if d.offsets.Some? then Some(d.offsets.value.max) else None
  }

  // ---------- distances ----------

  /** A distance matches a target exactly when the index stands for it. */
  lemma DistanceMatches(word: nat, max: Ea, bias: nat, v: nat, ea: Ea)
    requires v < word
    ensures (max + bias - v) % word == (max - ea) % word <==> v == (ea + bias) % word
  {
    ModEqual(max + bias - v, max - ea, word);
    ModEqual(ea + bias, v, word);
    SmallMod(v, word);
  }

  lemma NarrowDistanceMatches(max: Ea, bias: nat, v: nat, ea: Ea)
    requires max < U32 && ea < U32
    ensures (max + bias - v) % U64 % U32 == (max - ea) % U64 <==> ea <= max && v % U32 == (ea + bias) % U32
  {
    LowHalf(max + bias - v);
    if ea <= max {
      SmallMod(max - ea, U64);
      SmallMod(max - ea, U32);
      ModEqual(max + bias - v, max - ea, U32);
      ModEqual(ea + bias, v, U32);
    } else {
      ModEqual(max - ea, U64 - (ea - max), U64);
      SmallMod(U64 - (ea - max), U64);
    }
  }

  // ---------- lookups ----------

  lemma {:induction false} LookupHit(cases: Cases, v: nat, i: nat)
    requires i < |cases| && cases[i].0 == v
    requires forall k | 0 <= k < i :: cases[k].0 != v
    ensures Lookup(cases, v) == Some(cases[i].1)
  {
    if i > 0 { LookupHit(cases[1..], v, i - 1); }
  }

  lemma {:induction false} LookupMiss(cases: Cases, v: nat)
    requires forall k | 0 <= k < |cases| :: cases[k].0 != v
    ensures Lookup(cases, v) == None
  {
    if cases != [] { LookupMiss(cases[1..], v); }
  }

  lemma {:induction false} LookupFound(cases: Cases, v: nat) returns (i: nat)
    requires Lookup(cases, v).Some?
    ensures i < |cases| && cases[i].0 == v && cases[i].1 == Lookup(cases, v).value
    decreases |cases|
  {
    if cases[0].0 == v {
      i := 0;
    } else {
      i := LookupFound(cases[1..], v);
      i := i + 1;
    }
  }

  lemma SameTarget(a: nat, b: nat, bias: nat, w: nat)
    requires a < w && b < w && (a + bias) % w == (b + bias) % w
    ensures a == b
  {
    ModEqual(a + bias, b + bias, w);
    ModEqual(a, b, w);
    SmallMod(a, w);
    SmallMod(b, w);
  }

  lemma DirectExact(m: map<Ea, nat>, order: seq<Ea>, v: nat)
    requires Lists(order, m)
    ensures v in m ==> Lookup(DirectCases(m, order), v) == Some(m[v])
    ensures v !in m ==> Lookup(DirectCases(m, order), v) == None
  {
    var cases := DirectCases(m, order);
    if v in m {
      var i :| 0 <= i < |order| && order[i] == v;
      LookupHit(cases, v, i);
    } else {
      assert forall k | 0 <= k < |cases| :: order[k] in order;
      LookupMiss(cases, v);
    }
  }

  /** There is a second switch exactly if some target is no function; it counts from the largest of
      those. */
  lemma LargestBlock(d: Dispatch, m: map<Ea, nat>, functions: set<Ea>, wide: bool, order: seq<Ea>)
    requires For(d, m, functions, wide, order)
    ensures d.offsets.Some? <==> exists ea :: ea in m && ea !in functions
    ensures d.offsets.Some? ==>
              && d.offsets.value.max in m && d.offsets.value.max !in functions
              && forall ea | ea in m && ea !in functions :: ea <= d.offsets.value.max
  {
  }

  /** Two switches have pairwise distinct constants. */
  lemma {:induction false} CasesDistinct(d: Dispatch, m: map<Ea, nat>, functions: set<Ea>, wide: bool, order: seq<Ea>)
    requires For(d, m, functions, wide, order)
    ensures forall i, j | 0 <= i < j < |d.direct| :: d.direct[i].0 != d.direct[j].0
    ensures d.offsets.Some? ==>
              forall i, j | 0 <= i < j < |d.offsets.value.cases| ::
                d.offsets.value.cases[i].0 != d.offsets.value.cases[j].0
  {
    hide MaxFor, ChainFor;
    if d.offsets.Some? {
      OffsetsDistinct(m, order, d.offsets.value.max, d.word);
    }
  }

  lemma {:induction false} OffsetsDistinct(m: map<Ea, nat>, order: seq<Ea>, max: Ea, word: nat)
    requires Lists(order, m) && word > 0 && forall ea | ea in m :: ea < word
    ensures var cases := OffsetCases(m, order, max, word);
            forall i, j | 0 <= i < j < |cases| :: cases[i].0 != cases[j].0
  {
    var cases := OffsetCases(m, order, max, word);
    forall i, j | 0 <= i < j < |cases|
      ensures cases[i].0 != cases[j].0
    {
      assert order[i] in order && order[j] in order;
      OffsetInjective(max, order[i], order[j], word);
    }
  }

  lemma OffsetInjective(max: Ea, a: Ea, b: Ea, w: nat)
    requires a < w && b < w && a != b
    ensures (max - a) % w != (max - b) % w
  {
    ModEqual(max - a, max - b, w);
    ModEqual(b, a, w);
    SmallMod(a, w);
    SmallMod(b, w);
  }

  /** The case of the second switch that stands for an index. */
  predicate Matched(word: nat, narrow: bool, max: Ea, bias: nat, v: nat, ea: Ea)
    requires word > 0
  {
    if narrow then ea <= max && v % U32 == (ea + bias) % U32 else v == (ea + bias) % word
  }

  lemma DistantExact(d: Dispatch, m: map<Ea, nat>, functions: set<Ea>, wide: bool, order: seq<Ea>,
                     v: nat, bias: nat, ea: Ea)
    requires For(d, m, functions, wide, order) && d.offsets.Some? && v < d.word
    requires ea in m && Matched(d.word, d.narrow, d.offsets.value.max, bias, v, ea)
    ensures Distant(d, v, bias) == Some(m[ea])
  {
    var o := d.offsets.value;
    var i :| 0 <= i < |order| && order[i] == ea;
    CaseMatches(d, m, functions, wide, order, v, bias, i);
    forall k | 0 <= k < i
      ensures o.cases[k].0 != Narrowed(d, (o.max + bias - v) % d.word)
    {
      CasesDistinct(d, m, functions, wide, order);
    }
    LookupHit(o.cases, Narrowed(d, (o.max + bias - v) % d.word), i);
  }

  lemma CaseMatches(d: Dispatch, m: map<Ea, nat>, functions: set<Ea>, wide: bool, order: seq<Ea>,
                    v: nat, bias: nat, i: nat)
    requires For(d, m, functions, wide, order) && d.offsets.Some? && v < d.word && i < |order|
    ensures
      var o := d.offsets.value;
      o.cases[i].0 == Narrowed(d, (o.max + bias - v) % d.word)
      <==> Matched(d.word, d.narrow, o.max, bias, v, order[i])
  {
    var o := d.offsets.value;
    assert order[i] in order;
    if d.narrow {
      NarrowDistanceMatches(o.max, bias, v, order[i]);
    } else {
      DistanceMatches(d.word, o.max, bias, v, order[i]);
    }
  }

  lemma DistantNone(d: Dispatch, m: map<Ea, nat>, functions: set<Ea>, wide: bool, order: seq<Ea>,
                    v: nat, bias: nat)
    requires For(d, m, functions, wide, order) && d.offsets.Some? && v < d.word
    requires forall ea | ea in m :: !Matched(d.word, d.narrow, d.offsets.value.max, bias, v, ea)
    ensures Distant(d, v, bias) == None
  {
    var o := d.offsets.value;
    forall k | 0 <= k < |o.cases|
      ensures o.cases[k].0 != Narrowed(d, (o.max + bias - v) % d.word)
    {
      CaseMatches(d, m, functions, wide, order, v, bias, k);
      assert order[k] in order;
    }
    LookupMiss(o.cases, Narrowed(d, (o.max + bias - v) % d.word));
  }

  /** The run-time address a function is compared with. */
  lemma FunctionAddress(d: Dispatch, ea: Ea, bias: nat)
    requires d.word == U64 || (d.word == U32 && !d.narrow)
    ensures Narrowed(d, (ea + bias) % d.word) == if d.narrow then (ea + bias) % U32 else (ea + bias) % d.word
  {
    if d.narrow { LowHalf(ea + bias); }
  }

  lemma {:induction false} CompareHit(d: Dispatch, chain: seq<(Ea, nat)>, v: nat, bias: nat, c: (Ea, nat))
    requires d.word > 0 && c in chain && v == Narrowed(d, (c.0 + bias) % d.word)
    requires forall e | e in chain && v == Narrowed(d, (e.0 + bias) % d.word) :: e.1 == c.1
    ensures Compare(d, chain, v, bias) == Some(c.1)
    decreases |chain|
  {
    assert chain[0] in chain;
    if v != Narrowed(d, (chain[0].0 + bias) % d.word) {
      assert forall e | e in chain[1..] :: e in chain;
      CompareHit(d, chain[1..], v, bias, c);
    }
  }

  lemma {:induction false} CompareNone(d: Dispatch, chain: seq<(Ea, nat)>, v: nat, bias: nat)
    requires d.word > 0 && forall e | e in chain :: v != Narrowed(d, (e.0 + bias) % d.word)
    ensures Compare(d, chain, v, bias) == None
  {
    if chain != [] {
      assert chain[0] in chain && forall e | e in chain[1..] :: e in chain;
      CompareNone(d, chain[1..], v, bias);
    }
  }

  // ---------- the dispatch is exact ----------

  /** An index that is an original target selects that target. */
  lemma OriginalTarget(d: Dispatch, m: map<Ea, nat>, functions: set<Ea>, wide: bool, order: seq<Ea>,
                       pc: nat, bias: nat)
    requires For(d, m, functions, wide, order)
    requires Index(d, pc, bias) in m
    ensures Select(d, pc, bias) == Some(m[Index(d, pc, bias)])
  {
    DirectExact(m, order, Index(d, pc, bias));
  }

  /** Any other index selects a target if it stands for it. */
  lemma StandingTarget(d: Dispatch, m: map<Ea, nat>, functions: set<Ea>, wide: bool, order: seq<Ea>,
                       pc: nat, bias: nat, ea: Ea)
    requires For(d, m, functions, wide, order) && pc < d.word
    requires Index(d, pc, bias) !in m && ea in m
    requires StandsFor(d.word, d.narrow, MaxOf(d), bias, Index(d, pc, bias), ea)
    ensures Select(d, pc, bias) == Some(m[ea])
  {
    hide For;
    var v := Index(d, pc, bias);
    ForFacts(d, m, functions, wide, order);
    DirectExact(m, order, v);
    if d.offsets.Some? && (!d.narrow || ea <= d.offsets.value.max) {
      DistantExact(d, m, functions, wide, order, v, bias, ea);
    } else {
      if d.offsets.Some? {
        forall x | x in m
          ensures !Matched(d.word, d.narrow, d.offsets.value.max, bias, v, x)
        {
          BeyondMax(d, m, functions, wide, order, v, bias, ea, x);
        }
        DistantNone(d, m, functions, wide, order, v, bias);
      }
      ChainTarget(d, m, functions, wide, order, v, bias, ea);
    }
  }

  lemma ForFacts(d: Dispatch, m: map<Ea, nat>, functions: set<Ea>, wide: bool, order: seq<Ea>)
    requires For(d, m, functions, wide, order)
    ensures d.word == U64 || (d.word == U32 && !d.narrow)
    ensures d.direct == DirectCases(m, order) && Lists(order, m)
    ensures forall ea | ea in m :: ea < d.word && (d.narrow ==> ea < U32)
    ensures MaxFor(MaxOf(d), m, functions) && ChainFor(d.chain, m, functions)
  {
  }

  lemma BeyondMax(d: Dispatch, m: map<Ea, nat>, functions: set<Ea>, wide: bool, order: seq<Ea>,
                  v: nat, bias: nat, ea: Ea, x: Ea)
    requires For(d, m, functions, wide, order) && d.offsets.Some? && d.narrow
    requires ea in m && x in m && ea > d.offsets.value.max && v == (ea + bias) % U32
    ensures !Matched(d.word, d.narrow, d.offsets.value.max, bias, v, x)
  {
    if x <= d.offsets.value.max && v % U32 == (x + bias) % U32 {
      SameTarget(ea, x, bias, U32);
    }
  }

  lemma ChainTarget(d: Dispatch, m: map<Ea, nat>, functions: set<Ea>, wide: bool, order: seq<Ea>,
                    v: nat, bias: nat, ea: Ea)
    requires For(d, m, functions, wide, order) && ea in m && ea in functions
    requires v == if d.narrow then (ea + bias) % U32 else (ea + bias) % d.word
    ensures Compare(d, d.chain, v, bias) == Some(m[ea])
  {
    FunctionAddress(d, ea, bias);
    forall e | e in d.chain && v == Narrowed(d, (e.0 + bias) % d.word)
      ensures e.1 == m[ea]
    {
      FunctionAddress(d, e.0, bias);
      SameTarget(e.0, ea, bias, if d.narrow then U32 else d.word);
    }
    CompareHit(d, d.chain, v, bias, (ea, m[ea]));
  }

  /** And an index that stands for nothing leaves the function. */
  lemma NoTarget(d: Dispatch, m: map<Ea, nat>, functions: set<Ea>, wide: bool, order: seq<Ea>,
                 pc: nat, bias: nat)
    requires For(d, m, functions, wide, order) && pc < d.word
    requires Index(d, pc, bias) !in m
    requires forall ea | ea in m :: !StandsFor(d.word, d.narrow, MaxOf(d), bias, Index(d, pc, bias), ea)
    ensures Select(d, pc, bias) == None
  {
    hide For;
    var v := Index(d, pc, bias);
    ForFacts(d, m, functions, wide, order);
    DirectExact(m, order, v);
    if d.offsets.Some? {
      DistantNone(d, m, functions, wide, order, v, bias);
    }
    forall e | e in d.chain
      ensures v != Narrowed(d, (e.0 + bias) % d.word)
    {
      FunctionAddress(d, e.0, bias);
      SmallMod((e.0 + bias) % U32, U32);
    }
    CompareNone(d, d.chain, v, bias);
  }

  /** A jump without an offset table to the run-time address of a target reaches the block of that
      target exactly when the address is no other original target, and, if distances are narrowed,
      when the target is not a function beyond the largest block or its address is small. */
  lemma RelocatedTargetIff(d: Dispatch, m: map<Ea, nat>, functions: set<Ea>, wide: bool, order: seq<Ea>,
                           bias: nat, ea: Ea)
    requires For(d, m, functions, wide, order) && !d.rebase && ea in m
    requires forall x, y | x in m && y in m && x != y :: m[x] != m[y]
    ensures
      var pc := (ea + bias) % d.word;
      Select(d, pc, bias) == Some(m[ea])
      <==> (pc in m ==> pc == ea)
           && (d.narrow && pc !in m ==> pc < U32 || (MaxOf(d).Some? && ea <= MaxOf(d).value))
  {
    hide For;
    ForFacts(d, m, functions, wide, order);
    var pc := (ea + bias) % d.word;
    if pc in m {
      OriginalTarget(d, m, functions, wide, order, pc, bias);
    } else {
      if d.narrow {
        LowHalf(ea + bias);
        if pc < U32 { SmallMod(pc, U32); }
      }
      if StandsFor(d.word, d.narrow, MaxOf(d), bias, pc, ea) {
        StandingTarget(d, m, functions, wide, order, pc, bias, ea);
      } else {
        OnlyItself(d, m, functions, wide, order, bias, ea);
        NoTarget(d, m, functions, wide, order, pc, bias);
      }
    }
  }

  /** The run-time address of a target stands for no other. */
  lemma OnlyItself(d: Dispatch, m: map<Ea, nat>, functions: set<Ea>, wide: bool, order: seq<Ea>,
                   bias: nat, ea: Ea)
    requires For(d, m, functions, wide, order) && ea in m
    requires !StandsFor(d.word, d.narrow, MaxOf(d), bias, (ea + bias) % d.word, ea)
    ensures forall x | x in m :: !StandsFor(d.word, d.narrow, MaxOf(d), bias, (ea + bias) % d.word, x)
  {
    hide For;
    ForFacts(d, m, functions, wide, order);
    var pc := (ea + bias) % d.word;
    forall x | x in m
      ensures !StandsFor(d.word, d.narrow, MaxOf(d), bias, pc, x)
    {
      if StandsFor(d.word, d.narrow, MaxOf(d), bias, pc, x) {
        if d.narrow {
          LowHalf(ea + bias);
          SmallMod((x + bias) % U32, U32);
          SameTarget(ea, x, bias, U32);
        } else {
          SameTarget(ea, x, bias, d.word);
        }
      }
    }
  }

  /** The same for a jump table whose entries were cut down to 32 bits. */
  lemma TruncatedTargetIff(d: Dispatch, m: map<Ea, nat>, functions: set<Ea>, wide: bool, order: seq<Ea>,
                           bias: nat, ea: Ea)
    requires For(d, m, functions, wide, order) && !d.rebase && d.narrow && ea in m
    requires forall x, y | x in m && y in m && x != y :: m[x] != m[y]
    ensures
      var pc := (ea + bias) % U32;
      Select(d, pc, bias) == Some(m[ea]) <==> (pc in m ==> pc == ea)
  {
    hide For;
    ForFacts(d, m, functions, wide, order);
    var pc := (ea + bias) % U32;
    if pc in m {
      OriginalTarget(d, m, functions, wide, order, pc, bias);
    } else {
      SmallMod(pc, U32);
      StandingTarget(d, m, functions, wide, order, pc, bias, ea);
    }
  }

  /** Behind an offset table the run-time address of a target always reaches it. */
  lemma RebasedTarget(d: Dispatch, m: map<Ea, nat>, functions: set<Ea>, wide: bool, order: seq<Ea>,
                      bias: nat, ea: Ea)
    requires For(d, m, functions, wide, order) && d.rebase && ea in m
    ensures Select(d, (ea + bias) % d.word, bias) == Some(m[ea])
  {
    ModEqual((ea + bias) % d.word - bias, ea, d.word);
    ModEqual(ea + bias, (ea + bias) % d.word, d.word);
    ModEqual((ea + bias) % d.word, ea + bias, d.word);
    SmallMod((ea + bias) % d.word, d.word);
    SmallMod(ea, d.word);
    OriginalTarget(d, m, functions, wide, order, (ea + bias) % d.word, bias);
  }

  // ---------- which targets there are ----------

  ghost predicate IsSuccessor(f: CfgFunction, ea: Ea) {
    ea == f.ea || exists b :: b in f.blocks && ea in b.successors
  }

  /** A block added on suspicion: nothing leads to it, or data refers to it. */
  ghost predicate Suspected(f: CfgFunction, b: CfgBlock) {
    !IsSuccessor(f, b.ea) || (b.isReferencedByData && b.ea != f.ea)
  }

  ghost predicate AnySuspected(f: CfgFunction, blocks: seq<CfgBlock>, ea: Ea) {
    exists b :: b in blocks && b.ea == ea && Suspected(f, b)
  }

  /** The targets of an indirect jump: the successors the disassembler gave, or the next
      instruction if it gave none, and the suspected blocks. */
  ghost predicate IsTarget(f: CfgFunction, successors: seq<Ea>, nextPc: Ea, ea: Ea) {
    (if successors == [] then ea == nextPc else ea in successors) || AnySuspected(f, f.blocks, ea)
  }

  /** The targets, in terms of the blocks of the function. */
  lemma TargetIff(f: CfgFunction, successors: seq<Ea>, nextPc: Ea, ea: Ea)
    ensures IsTarget(f, successors, nextPc, ea)
            <==> || (successors == [] && ea == nextPc) || ea in successors
                 || exists b :: b in f.blocks && b.ea == ea && ea != f.ea
                      && (b.isReferencedByData || forall c | c in f.blocks :: ea !in c.successors)
  {
    hide IsSuccessor;
    if ea != f.ea { SuccessorIff(f, ea); }
    OwnSuccessor(f);
  }

  lemma SuccessorIff(f: CfgFunction, ea: Ea)
    requires ea != f.ea
    ensures IsSuccessor(f, ea) <==> !(forall c | c in f.blocks :: ea !in c.successors)
  {
  }

  lemma OwnSuccessor(f: CfgFunction)
    ensures IsSuccessor(f, f.ea)
  {
  }

  lemma OneMoreBlock(f: CfgFunction, i: nat, ea: Ea)
    requires i < |f.blocks|
    ensures AnySuspected(f, f.blocks[..i + 1], ea)
            <==> AnySuspected(f, f.blocks[..i], ea) || (f.blocks[i].ea == ea && Suspected(f, f.blocks[i]))
  {
    assert f.blocks[..i + 1] == f.blocks[..i] + [f.blocks[i]];
    if AnySuspected(f, f.blocks[..i], ea) {
      var b :| b in f.blocks[..i] && b.ea == ea && Suspected(f, b);
      assert b in f.blocks[..i + 1];
    }
    if f.blocks[i].ea == ea && Suspected(f, f.blocks[i]) {
      assert f.blocks[i] in f.blocks[..i + 1];
    }
  }

  /** Behind the entries that were there, one for each of the addresses. */
  ghost predicate Entries(queued: seq<(Ea, bool)>, work: seq<(Ea, bool)>, added: set<Ea>, plain: set<Ea>) {
    && queued <= work
    && (forall i, j | |queued| <= i < j < |work| :: work[i].0 != work[j].0)
    && (forall i | |queued| <= i < |work| :: work[i].0 in added && (work[i].1 <==> work[i].0 !in plain))
    && (forall ea: Ea | ea in added :: exists i :: |queued| <= i < |work| && work[i].0 == ea)
  }

  /** What lifting a jump adds to the blocks and the work list: blocks for those targets that had none,
      and for each of these one entry, marked as a block unless it is in `plain`. */
  ghost predicate Extended(had: map<Ea, nat>, queued: seq<(Ea, bool)>, blocks: map<Ea, nat>, work: seq<(Ea, bool)>,
                           targets: set<Ea>, plain: set<Ea>) {
    && (forall x | x in had :: x in blocks && blocks[x] == had[x])
    && blocks.Keys == had.Keys + targets
    && Entries(queued, work, targets - had.Keys, plain)
  }

  /** One more target, which had a block or is given one and queued. */
  lemma OneMoreTarget(had: map<Ea, nat>, queued: seq<(Ea, bool)>, blocks: map<Ea, nat>, work: seq<(Ea, bool)>,
                      targets: set<Ea>, plain: set<Ea>, ea: Ea, block: nat, asBlock: bool)
    requires Extended(had, queued, blocks, work, targets, plain)
    requires ea in targets || (asBlock <==> ea !in plain)
    ensures Extended(had, queued, if ea in blocks then blocks else blocks[ea := block],
                     if ea in blocks then work else work + [(ea, asBlock)], targets + {ea}, plain)
  {
    hide Entries;
    if ea in blocks {
      assert targets + {ea} - had.Keys == targets - had.Keys;
    } else {
      OneMoreEntry(queued, work, targets - had.Keys, plain, ea, asBlock);
      assert targets + {ea} - had.Keys == (targets - had.Keys) + {ea};
    }
  }

  lemma OneMoreEntry(queued: seq<(Ea, bool)>, work: seq<(Ea, bool)>, added: set<Ea>, plain: set<Ea>, ea: Ea,
                     asBlock: bool)
    requires Entries(queued, work, added, plain) && ea !in added && (asBlock <==> ea !in plain)
    ensures Entries(queued, work + [(ea, asBlock)], added + {ea}, plain)
  {
    var work' := work + [(ea, asBlock)];
    assert work'[|work|].0 == ea;
    forall x: Ea | x in added + {ea}
      ensures exists i :: |queued| <= i < |work'| && work'[i].0 == x
    {
      if x != ea {
        var i :| |queued| <= i < |work| && work[i].0 == x;
        assert work'[i].0 == x;
      }
    }
  }

  /** The lifting of one function, as far as an indirect jump changes it. */
  class TranslationContext {
    const func: CfgFunction
    var ea_to_block: map<Ea, nat>
    var work_list: seq<(Ea, bool)>
    var blockCount: nat

    constructor (func: CfgFunction)
      ensures this.func == func && ea_to_block == map[] && work_list == [] && Valid()
    {
      this.func := func;
      ea_to_block, work_list, blockCount := map[], [], 0;
    }

    /** No two addresses share a block. */
    ghost predicate Valid()
      reads this
    {
      && (forall x | x in ea_to_block :: ea_to_block[x] < blockCount)
      && (forall x, y | x in ea_to_block && y in ea_to_block && x != y :: ea_to_block[x] != ea_to_block[y])
    }

    method GetOrCreateBlock(pc: Ea, forceAsBlock: bool) returns (block: nat)
      requires Valid()
      modifies this
      ensures Valid() && pc in ea_to_block && block == ea_to_block[pc]
      ensures ea_to_block == if pc in old(ea_to_block) then old(ea_to_block) else old(ea_to_block)[pc := block]
      ensures work_list == if pc in old(ea_to_block) then old(work_list) else old(work_list) + [(pc, forceAsBlock)]
    {
      if pc in ea_to_block {
        return ea_to_block[pc];
      }
      block := blockCount;
      blockCount := blockCount + 1;
      ea_to_block := ea_to_block[pc := block];
      work_list := work_list + [(pc, forceAsBlock)];
    }

    /** Targets chosen so far have the blocks of their addresses. */
    ghost predicate Targets(m: map<Ea, nat>)
      reads this
    {
      forall x | x in m :: x in ea_to_block && ea_to_block[x] == m[x]
    }

    ghost predicate Adds(had: map<Ea, nat>, queued: seq<(Ea, bool)>, targets: set<Ea>, plain: set<Ea>)
      reads this
    {
      Extended(had, queued, ea_to_block, work_list, targets, plain)
    }

    method Emplace(m: map<Ea, nat>, ea: Ea, forceAsBlock: bool) returns (r: map<Ea, nat>)
      requires Valid() && Targets(m)
      modifies this
      ensures Valid() && Targets(r) && r.Keys == m.Keys + {ea}
      ensures forall x | x in m :: r[x] == m[x]
      ensures ea_to_block == if ea in old(ea_to_block) then old(ea_to_block) else old(ea_to_block)[ea := r[ea]]
      ensures work_list == if ea in old(ea_to_block) then old(work_list) else old(work_list) + [(ea, forceAsBlock)]
    {
      var block := GetOrCreateBlock(ea, forceAsBlock);
      r := if ea in m then m else m[ea := block];
    }

    /** One more target, as part of what is added to an earlier state. */
    method EmplaceAdding(m: map<Ea, nat>, ea: Ea, forceAsBlock: bool, ghost had: map<Ea, nat>,
                         ghost queued: seq<(Ea, bool)>, ghost plain: set<Ea>)
      returns (r: map<Ea, nat>)
      requires Valid() && Targets(m) && Adds(had, queued, m.Keys, plain)
      requires ea in m || (forceAsBlock <==> ea !in plain)
      modifies this
      ensures Valid() && Targets(r) && r.Keys == m.Keys + {ea} && Adds(had, queued, r.Keys, plain)
      ensures forall x | x in m :: r[x] == m[x]
    {
      hide Extended, Valid, Targets;
      r := Emplace(m, ea, forceAsBlock);
      OneMoreTarget(had, queued, old(ea_to_block), old(work_list), m.Keys, plain, ea, r[ea], forceAsBlock);
    }

    lemma NothingAdded(plain: set<Ea>)
      ensures Adds(ea_to_block, work_list, {}, plain)
    {
    }

    /** The addresses something in the function leads to. */
    method Successors() returns (eas: set<Ea>)
      ensures forall ea :: ea in eas <==> IsSuccessor(func, ea)
    {
      eas := {func.ea};
      for i := 0 to |func.blocks|
        invariant forall ea ::
            ea in eas <==> ea == func.ea || exists k | 0 <= k < i :: ea in func.blocks[k].successors
      {
        eas := eas + (set ea | ea in func.blocks[i].successors);
      }
      assert forall b | b in func.blocks :: exists k | 0 <= k < |func.blocks| :: func.blocks[k] == b;
    }

    /** The block map of an indirect jump, given the successors of its own block. */
    method CollectTargets(successors: seq<Ea>, nextPc: Ea) returns (m: map<Ea, nat>)
      requires Valid()
      modifies this
      ensures Valid() && Targets(m) && m != map[]
      ensures forall ea :: ea in m <==> IsTarget(func, successors, nextPc, ea)
      ensures forall x, y | x in m && y in m && x != y :: m[x] != m[y]
      ensures Adds(old(ea_to_block), old(work_list), m.Keys, if successors == [] then {nextPc} else {})
    {
      hide AnySuspected, IsSuccessor, Adds;
      m := CollectSuccessors(successors, nextPc);
      var succ := Successors();
      m := AddSuspected(m, succ, old(ea_to_block), old(work_list), if successors == [] then {nextPc} else {});
    }

    /** The successors the disassembler gave, or the next instruction if it gave none. */
    method CollectSuccessors(successors: seq<Ea>, nextPc: Ea) returns (m: map<Ea, nat>)
      requires Valid()
      modifies this
      ensures Valid() && Targets(m) && m != map[]
      ensures forall ea :: ea in m <==> if successors == [] then ea == nextPc else ea in successors
      ensures Adds(old(ea_to_block), old(work_list), m.Keys, if successors == [] then {nextPc} else {})
    {
      hide Valid, Targets, Adds;
      m := map[];
      NoTargets();
      ghost var plain: set<Ea> := if successors == [] then {nextPc} else {};
      NothingAdded(plain);
      assert m.Keys == {};
      for i := 0 to |successors|
        invariant Valid() && Targets(m)
        invariant forall ea :: ea in m <==> ea in successors[..i]
        invariant Adds(old(ea_to_block), old(work_list), m.Keys, plain)
      {
        assert successors[..i + 1] == successors[..i] + [successors[i]];
        m := EmplaceAdding(m, successors[i], true, old(ea_to_block), old(work_list), plain);
      }
      assert successors[..|successors|] == successors;
      if successors != [] {
        assert successors[0] in m;
      }
      if m == map[] {
        m := EmplaceAdding(m, nextPc, false, old(ea_to_block), old(work_list), plain);
      }
      assert m != map[] by {
        assert (if successors == [] then nextPc else successors[0]) in m;
      }
    }

    lemma NoTargets()
      ensures Targets(map[])
    {
    }

    /** Blocks without predecessors, and those that data refers to. */
    method AddSuspected(m0: map<Ea, nat>, succ: set<Ea>, ghost had: map<Ea, nat>, ghost queued: seq<(Ea, bool)>,
                        ghost plain: set<Ea>)
      returns (m: map<Ea, nat>)
      requires Valid() && Targets(m0) && Adds(had, queued, m0.Keys, plain) && plain <= m0.Keys
      requires forall ea :: ea in succ <==> IsSuccessor(func, ea)
      modifies this
      ensures Valid() && Targets(m) && m0.Keys <= m.Keys
      ensures forall ea :: ea in m <==> ea in m0 || AnySuspected(func, func.blocks, ea)
      ensures Adds(had, queued, m.Keys, plain)
    {
      hide IsSuccessor, AnySuspected, Valid, Targets, Adds;
      m := m0;
      NoneSuspected(func);
      for i := 0 to |func.blocks|
        invariant Valid() && Targets(m) && m0.Keys <= m.Keys && Adds(had, queued, m.Keys, plain)
        invariant forall ea :: ea in m <==> ea in m0 || AnySuspected(func, func.blocks[..i], ea)
      {
        forall ea: Ea
          ensures AnySuspected(func, func.blocks[..i + 1], ea)
                  <==> AnySuspected(func, func.blocks[..i], ea)
                       || (func.blocks[i].ea == ea && Suspected(func, func.blocks[i]))
        {
          OneMoreBlock(func, i, ea);
        }
        var block := func.blocks[i];
        if block.ea !in m {
          if block.ea !in succ {
            m := EmplaceAdding(m, block.ea, true, had, queued, plain);
          } else if block.isReferencedByData && block.ea != func.ea {
            m := EmplaceAdding(m, block.ea, true, had, queued, plain);
          }
        }
      }
      assert func.blocks[..|func.blocks|] == func.blocks;
    }

    /** The dispatch for a block map: cases, the largest block, and the comparisons. */
    method EmitDispatch(m: map<Ea, nat>, functions: set<Ea>, wide: bool, offsetTable: bool)
      returns (d: Dispatch, ghost order: seq<Ea>)
      requires wide || forall ea | ea in m :: ea < U32
      ensures For(d, m, functions, wide, order) && d.rebase == offsetTable
    {
      hide Lists, ChainFor;
      var word := if wide then U64 else U32;
      var eas := KeysInOrder(m);
      order := eas;
      ListsIn(eas, m);
      var anyWide, blocks, funcs := Sort(m, functions, eas);
      var direct := DirectSwitch(m, eas);
      var offsets: Option<Offsets> := None;
      if blocks != [] {
        var max := Largest(blocks);
        var cases := OffsetSwitch(m, eas, max, word);
        offsets := Some(Offsets(max, cases));
      }
      var chain := Comparisons(m, funcs);
      ChainMade(chain, m, functions, funcs);
      d := Dispatch(word, offsetTable, wide && !anyWide, direct, offsets, chain);
    }

    /** The whole of it.  The block map is never empty, so no jump is left without a switch. */
    method LiftIndirectJump(successors: seq<Ea>, nextPc: Ea, functions: set<Ea>, wide: bool, offsetTable: bool)
      returns (d: Dispatch, m: map<Ea, nat>, ghost order: seq<Ea>)
      requires Valid()
      requires wide || forall ea: Ea | IsTarget(func, successors, nextPc, ea) :: ea < U32
      modifies this
      ensures Valid() && Targets(m) && m != map[]
      ensures forall ea :: ea in m <==> IsTarget(func, successors, nextPc, ea)
      ensures forall x, y | x in m && y in m && x != y :: m[x] != m[y]
      ensures For(d, m, functions, wide, order) && d.rebase == offsetTable
      ensures Adds(old(ea_to_block), old(work_list), m.Keys, if successors == [] then {nextPc} else {})
    {
      hide IsTarget, For, Adds;
      m := CollectTargets(successors, nextPc);
      d, order := EmitDispatch(m, functions, wide, offsetTable);
    }

    /** Going through the block map, in some order. */
    method KeysInOrder(m: map<Ea, nat>) returns (order: seq<Ea>)
      ensures Lists(order, m)
    {
      order := [];
      var left := m.Keys;
      while left != {}
        invariant left <= m.Keys
        invariant forall ea :: ea in order <==> ea in m && ea !in left
        invariant forall i, j | 0 <= i < j < |order| :: order[i] != order[j]
        decreases |left|
      {
        var ea :| ea in left;
        order := order + [ea];
        left := left - {ea};
      }
    }

    /** Which targets are functions, and whether any needs more than 32 bits. */
    method Sort(m: map<Ea, nat>, functions: set<Ea>, order: seq<Ea>)
      returns (anyWide: bool, blocks: seq<Ea>, funcs: seq<Ea>)
      ensures !anyWide <==> forall ea | ea in order :: ea < U32
      ensures forall ea :: ea in blocks <==> ea in order && ea !in functions
      ensures forall ea :: ea in funcs <==> ea in order && ea in functions
    {
      anyWide, blocks, funcs := false, [], [];
      for i := 0 to |order|
        invariant anyWide ==> exists k :: 0 <= k < i && order[k] >= U32
        invariant !anyWide ==> forall k | 0 <= k < i :: order[k] < U32
        invariant forall ea :: ea in blocks <==> ea in order[..i] && ea !in functions
        invariant forall ea :: ea in funcs <==> ea in order[..i] && ea in functions
      {
        var ea := order[i];
        assert order[..i + 1] == order[..i] + [ea];
        if ea < U32 { SmallMod(ea, U32); }
        if ea != ea % U32 {
          anyWide := true;
        }
        if ea in functions {
          funcs := funcs + [ea];
        } else {
          blocks := blocks + [ea];
        }
      }
      assert order[..|order|] == order;
      if anyWide {
        ghost var k :| 0 <= k < |order| && order[k] >= U32;
        assert order[k] in order;
      }
    }

    method DirectSwitch(m: map<Ea, nat>, order: seq<Ea>) returns (cases: Cases)
      requires forall ea | ea in order :: ea in m
      ensures cases == DirectCases(m, order)
    {
      cases := [];
      for i := 0 to |order|
        invariant |cases| == i && forall k | 0 <= k < i :: cases[k] == (order[k], m[order[k]])
      {
        cases := cases + [(order[i], m[order[i]])];
      }
    }

    method OffsetSwitch(m: map<Ea, nat>, order: seq<Ea>, max: Ea, word: nat) returns (cases: Cases)
      requires word > 0 && forall ea | ea in order :: ea in m
      ensures cases == OffsetCases(m, order, max, word)
    {
      cases := [];
      for i := 0 to |order|
        invariant |cases| == i && forall k | 0 <= k < i :: cases[k] == ((max - order[k]) % word, m[order[k]])
      {
        cases := cases + [((max - order[i]) % word, m[order[i]])];
      }
    }

    /** The last of the sorted addresses. */
    method Largest(eas: seq<Ea>) returns (max: Ea)
      requires eas != []
      ensures max in eas && forall ea | ea in eas :: ea <= max
    {
      max := eas[0];
      for i := 1 to |eas|
        invariant max in eas[..i] && forall ea | ea in eas[..i] :: ea <= max
      {
        assert eas[..i + 1] == eas[..i] + [eas[i]];
        if eas[i] > max {
          max := eas[i];
        }
      }
      assert eas[..|eas|] == eas;
    }

    /** The functions, taken from the back of the list. */
    method Comparisons(m: map<Ea, nat>, funcs: seq<Ea>) returns (chain: seq<(Ea, nat)>)
      requires forall ea | ea in funcs :: ea in m
      ensures |chain| == |funcs|
      ensures forall k | 0 <= k < |funcs| :: chain[k] == (funcs[|funcs| - 1 - k], m[funcs[|funcs| - 1 - k]])
    {
      chain := [];
      var n := |funcs|;
      while n > 0
        invariant 0 <= n <= |funcs| && |chain| == |funcs| - n
        invariant forall k | 0 <= k < |chain| :: chain[k] == (funcs[|funcs| - 1 - k], m[funcs[|funcs| - 1 - k]])
      {
        n := n - 1;
        chain := chain + [(funcs[n], m[funcs[n]])];
      }
    }
  }

  lemma ListsIn(order: seq<Ea>, m: map<Ea, nat>)
    requires Lists(order, m)
    ensures forall ea :: ea in order <==> ea in m
  {
  }

  lemma NoneSuspected(f: CfgFunction)
    ensures forall ea: Ea :: !AnySuspected(f, f.blocks[..0], ea)
  {
  }

  lemma ChainMade(chain: seq<(Ea, nat)>, m: map<Ea, nat>, functions: set<Ea>, funcs: seq<Ea>)
    requires forall ea :: ea in funcs <==> ea in m && ea in functions
    requires |chain| == |funcs|
    requires forall k | 0 <= k < |funcs| :: chain[k] == (funcs[|funcs| - 1 - k], m[funcs[|funcs| - 1 - k]])
    ensures ChainFor(chain, m, functions)
  {
    forall c | c in chain
      ensures c.0 in m && c.0 in functions && c.1 == m[c.0]
    {
      var k :| 0 <= k < |chain| && chain[k] == c;
      assert funcs[|funcs| - 1 - k] in funcs;
    }
    forall ea | ea in m && ea in functions
      ensures (ea, m[ea]) in chain
    {
      var k :| 0 <= k < |funcs| && funcs[k] == ea;
      assert chain[|funcs| - 1 - k] == (ea, m[ea]);
    }
  }
}
