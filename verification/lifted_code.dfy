/** What the blocks of a completely lifted function hold, instruction by instruction: said of the
    graph and the decoded instructions alone, and not through what the machine does. */
module LiftedCode {
  import opened Options
  import opened Words
  import opened ControlFlow
  import opened LiftedGraph
  import Lifter

  /** An instruction is found at the address, and can be run. */
  predicate Found(p: Binary, a: Address) {
    && p.executable(a) && p.decoder(a).Some?
    && p.decoder(a).value.category !in {Category.Invalid, Category.Error}
  }

  predicate Branches(c: Category) {
    c in {ConditionalIndirectJump, ConditionalBranch, ConditionalFunctionReturn, ConditionalDirectCall,
          ConditionalIndirectCall, ConditionalAsyncHyperCall}
  }

  predicate Calls(c: Category) {
    c in {DirectCall, ConditionalDirectCall, IndirectCall, ConditionalIndirectCall}
  }

  // ---------- the word behind a call ----------

  /** The first bytes of a word all have values. */
  predicate Valued(p: Binary, pc: Address, n: nat) {
    forall j | 0 <= j < n :: p.Read(pc, j).Value?
  }

  /** The first byte without a value is missing. */
  predicate EndsAt(p: Binary, pc: Address, n: nat) {
    Valued(p, pc, n) && p.Read(pc, n).NoByte?
  }

  /** Reading byte by byte gives `b` as byte `k`: its value, or zero from a missing byte on. */
  ghost predicate Reads(p: Binary, pc: Address, k: nat, b: Byte) {
    || (Valued(p, pc, k + 1) && p.Read(pc, k).value == b)
    || (b == 0 && exists n | 0 <= n <= k :: EndsAt(p, pc, n))
  }

  /** The word, big end first, is an `unimp`: its two highest bits are zero, and so are the three from
      bit 22 on. */
  ghost predicate UnimpAt(p: Binary, pc: Address) {
    p.sparc && exists b0: Byte, b1: Byte, b2: Byte, b3: Byte ::
      && Reads(p, pc, 0, b0) && Reads(p, pc, 1, b1) && Reads(p, pc, 2, b2) && Reads(p, pc, 3, b3)
      && IsUnimp(((b0 * 256 + b1) * 256 + b2) * 256 + b3)
  }

  predicate IsUnimp(word: nat) {
    word / 0x4000_0000 == 0 && word / 0x40_0000 % 8 == 0
  }

  lemma ReadsByte(p: Binary, pc: Address, k: nat)
    requires k < 4 && !Unreadable(p, pc)
    ensures Reads(p, pc, k, WordByte(p, pc, k))
    ensures forall b: Byte | Reads(p, pc, k, b) :: b == WordByte(p, pc, k)
  {
    var n := ValuedUpTo(p, pc, k + 1);
    if n <= k { assert EndsAt(p, pc, n); }
  }

  /** Up to the first byte that is missing, all have values. */
  lemma {:induction false} ValuedUpTo(p: Binary, pc: Address, k: nat) returns (n: nat)
    requires k <= 4 && !Unreadable(p, pc)
    ensures n <= k && Valued(p, pc, n) && (n < k ==> EndsAt(p, pc, n))
  {
    if k == 0 {
      n := 0;
    } else {
      n := ValuedUpTo(p, pc, k - 1);
      if n == k - 1 && p.Read(pc, n).Value? {
        n := k;
      }
    }
  }

  lemma NoneReads(p: Binary, pc: Address) returns (k: nat)
    requires Unreadable(p, pc)
    ensures k < 4 && forall b: Byte :: !Reads(p, pc, k, b)
  {
    k :| 0 <= k < 4 && p.Read(pc, k).NoValue? && (forall j | 0 <= j < k :: p.Read(pc, j).Value?);
    forall n | 0 <= n <= k
      ensures !EndsAt(p, pc, n)
    {
    }
  }

  lemma UnimpIff(p: Binary, pc: Address)
    ensures SkipsUnimp(p, pc) <==> UnimpAt(p, pc)
  {
    hide Reads, Unreadable, WordByte, IsUnimp;
    if Unreadable(p, pc) {
      var k := NoneReads(p, pc);
      assert k == 0 || k == 1 || k == 2 || k == 3;
    } else {
      ReadsByte(p, pc, 0);
      ReadsByte(p, pc, 1);
      ReadsByte(p, pc, 2);
      ReadsByte(p, pc, 3);
      Fields(WordByte(p, pc, 0), WordByte(p, pc, 1), WordByte(p, pc, 2), WordByte(p, pc, 3));
    }
  }

  lemma Fields(b0: Byte, b1: Byte, b2: Byte, b3: Byte)
    ensures IsUnimp(((b0 * 256 + b1) * 256 + b2) * 256 + b3) <==> b0 < 64 && b0 % 2 == 0 && b1 < 64
  {
    Lifter.UnimpFields(b0, b1, b2, b3);
  }

  /** Where a call comes back to: the next instruction, or the one behind an `unimp`. */
  ghost function Behind(p: Binary, pc: Address): Address {
    if UnimpAt(p, pc) then (pc + 4) % U64 else pc
  }

  // ---------- the blocks ----------

  /** The block of the path taken: for an instruction without a condition, that of its address. */
  function TakenBlock(g: Graph, a: Address): nat
    requires a in g.at && g.at[a] < |g.blocks|
  {
    var term := g.blocks[g.at[a]].term;
    if term.Some? && term.value.CondBr? then term.value.taken else g.at[a]
  }

  /** Where no instruction can be run the block is an error; the block of a conditional holds the
      instruction alone and branches to two others. */
  lemma BlockShape(p: Binary, g: Graph, entry: Address, a: Address)
    requires Lifted(p, g, entry) && a in g.at
    ensures g.at[a] < |g.blocks|
    ensures
      var block := g.blocks[g.at[a]];
      && (!Found(p, a) ==> block == Block([], Some(Leave(ErrorStop))))
      && (Found(p, a) ==>
            && block.term.Some? && TakenBlock(g, a) < |g.blocks|
            && (block.term.value.CondBr? <==> Branches(p.decoder(a).value.category)))
      && (Found(p, a) && Branches(p.decoder(a).value.category) ==>
            block.ops == [Execute(a)] && block.term.value.notTaken < |g.blocks|)
  {
    assert Implements(p, g, g.at[a], a);
  }

  /** The path taken, in full: the instruction unless its condition was a block of its own, the
      instruction of the delay slot if it is live there, and the call. */
  lemma TakenPath(p: Binary, g: Graph, entry: Address, a: Address)
    requires Lifted(p, g, entry) && a in g.at && Found(p, a)
    ensures g.at[a] < |g.blocks| && TakenBlock(g, a) < |g.blocks|
    ensures
      var inst := p.decoder(a).value;
      g.blocks[TakenBlock(g, a)].ops
      == (if Branches(inst.category) then [] else [Execute(a)])
         + (if inst.mayHaveDelaySlot && inst.liveTaken && inst.category !in {Normal, NoOp}
            then [ExecuteDelayed(inst.delayed)] else [])
         + (if Calls(inst.category)
            then [if inst.category in {DirectCall, ConditionalDirectCall} && inst.taken in p.functions
                  then CallLifted(inst.taken) else CallUnknown,
                  SetNextPc(UnimpAt(p, inst.notTaken))]
            else [])
  {
    hide UnimpAt, SkipsUnimp;
    BlockShape(p, g, entry, a);
    assert Implements(p, g, g.at[a], a);
    var inst := p.decoder(a).value;
    UnimpIff(p, inst.notTaken);
    Regroup([Execute(a)], Delayed(p.Decode(a).value, true), CallEvents(p, p.Decode(a).value));
  }

  lemma Regroup(a: seq<Event>, b: seq<Event>, c: seq<Event>)
    ensures a + (b + c) == a + b + c && a + (b + []) == a + b + [] && [] + b + c == b + c && [] + b + [] == b
  {
  }

  /** The other path: nothing but the instruction of the delay slot, if it is live there, and on to
      the next instruction. */
  lemma NotTakenPath(p: Binary, g: Graph, entry: Address, a: Address)
    requires Lifted(p, g, entry) && a in g.at && Found(p, a) && Branches(p.decoder(a).value.category)
    ensures
      var inst := p.decoder(a).value;
      && g.at[a] < |g.blocks| && g.blocks[g.at[a]].term.Some? && g.blocks[g.at[a]].term.value.CondBr?
      && var f := g.blocks[g.at[a]].term.value.notTaken;
      && f < |g.blocks| && inst.notTaken in g.at
      && g.blocks[f] == Block(if inst.mayHaveDelaySlot && inst.liveNotTaken then [ExecuteDelayed(inst.delayed)] else [],
                              Some(Br(g.at[inst.notTaken])))
  {
    BlockShape(p, g, entry, a);
    assert Implements(p, g, g.at[a], a);
    Regroup([], Delayed(p.Decode(a).value, false), []);
  }

  /** The instruction of the delay slot runs on exactly the paths where the architecture says it is
      live. */
  lemma DelaySlotIff(p: Binary, g: Graph, entry: Address, a: Address)
    requires Lifted(p, g, entry) && a in g.at && Found(p, a)
    requires p.decoder(a).value.category !in {Normal, NoOp}
    ensures
      var inst := p.decoder(a).value;
      && g.at[a] < |g.blocks| && TakenBlock(g, a) < |g.blocks|
      && (ExecuteDelayed(inst.delayed) in g.blocks[TakenBlock(g, a)].ops
          <==> inst.mayHaveDelaySlot && inst.liveTaken)
    ensures
      var inst := p.decoder(a).value;
      Branches(inst.category) ==>
        && g.blocks[g.at[a]].term.Some? && g.blocks[g.at[a]].term.value.CondBr?
        && g.blocks[g.at[a]].term.value.notTaken < |g.blocks|
        && (ExecuteDelayed(inst.delayed) in g.blocks[g.blocks[g.at[a]].term.value.notTaken].ops
            <==> inst.mayHaveDelaySlot && inst.liveNotTaken)
  {
    hide Lifted, UnimpAt;
    TakenPath(p, g, entry, a);
    if Branches(p.decoder(a).value.category) { NotTakenPath(p, g, entry, a); }
  }

  /** Where the path taken goes on. */
  lemma TakenTarget(p: Binary, g: Graph, entry: Address, a: Address)
    requires Lifted(p, g, entry) && a in g.at && Found(p, a)
    ensures g.at[a] < |g.blocks| && TakenBlock(g, a) < |g.blocks|
    ensures
      var inst, term := p.decoder(a).value, g.blocks[TakenBlock(g, a)].term;
      && (inst.category in {Normal, NoOp} ==> inst.next in g.at && term == Some(Br(g.at[inst.next])))
      && (inst.category in {DirectJump, ConditionalBranch} ==> inst.taken in g.at && term == Some(Br(g.at[inst.taken])))
      && (Calls(inst.category) ==>
            Behind(p, inst.notTaken) in g.at && term == Some(Br(g.at[Behind(p, inst.notTaken)])))
      && (inst.category in {Category.IndirectJump, ConditionalIndirectJump} ==> term == Some(Leave(Jump)))
      && (inst.category == FunctionReturn ==> term == Some(Leave(NativeReturn)))
      && (inst.category == ConditionalFunctionReturn ==> term == Some(Leave(ReturnIntrinsic)))
      && (inst.category in {AsyncHyperCall, ConditionalAsyncHyperCall} ==> term == Some(Leave(HyperCall)))
  {
    hide UnimpAt, SkipsUnimp, After;
    BlockShape(p, g, entry, a);
    assert Implements(p, g, g.at[a], a);
    UnimpIff(p, p.decoder(a).value.notTaken);
  }
}
