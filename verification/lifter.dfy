/** The lifter: a work list of addresses, a block for every address met, and one visitor for every
    category of instruction. */
module Lifter {
  import opened Options
  import opened Words
  import opened ControlFlow
  import opened LiftedGraph

  // ---------- the state as a value ----------

  /** The graph so far, and the addresses whose blocks are still empty, each with the address that
      asked for it. */
  datatype Lifting = Lifting(g: Graph, work: set<(Address, Address)>) {

    ghost predicate Waiting(a: Address) {
      exists f: Address :: (a, f) in work
    }

    ghost predicate Named() {
      && (forall a | a in g.at :: 0 < g.at[a] < |g.blocks|)
      && (forall a, b | a in g.at && b in g.at && a != b :: g.at[a] != g.at[b])
    }

    /** An address is on the work list at most once, and only while it has a block. */
    ghost predicate Queued(busy: Option<Address>) {
      && (forall w | w in work :: w.0 in g.at && busy != Some(w.0))
      && (forall v, w | v in work && w in work && v.0 == w.0 :: v == w)
    }

    /** A block is empty while its address waits, and implements its instruction afterwards. */
    ghost predicate Settled(p: Binary, busy: Option<Address>)
      requires Named()
    {
      forall a | a in g.at && busy != Some(a) ::
        if Waiting(a) then g.blocks[g.at[a]] == EMPTY else Implements(p, g, g.at[a], a)
    }

    ghost predicate Found(p: Binary, entry: Address) {
      forall a | a in g.at :: Reachable(p, entry, a)
    }

    /** What holds between any two steps, but for the block of the `busy` address. */
    ghost predicate Inv(p: Binary, entry: Address, busy: Option<Address>) {
      && Named() && Queued(busy) && Settled(p, busy) && Found(p, entry)
      && (busy.Some? ==> busy.value in g.at)
      && entry in g.at && Leaf(g, 0, [], At(entry))
    }

    /** A block that may still be written: unfinished, and of no address but the busy one. */
    ghost predicate Open(b: nat, busy: Option<Address>) {
      && 0 < b < |g.blocks| && g.blocks[b].term.None?
      && forall a | a in g.at && busy != Some(a) :: g.at[a] != b
    }

    /** A later state in which no block but `b` has changed. */
    ghost predicate Only(b: nat, l: Lifting) {
      && |g.blocks| <= |l.g.blocks|
      && (forall i | 0 <= i < |g.blocks| && i != b :: l.g.blocks[i] == g.blocks[i])
      && Progress(l)
      && (forall a | a in l.g.at && a !in g.at :: |g.blocks| <= l.g.at[a])
    }

    /** Addresses keep their blocks, and exactly the new ones are added to the work list. */
    ghost predicate Progress(l: Lifting) {
      && (forall a | a in g.at :: a in l.g.at && l.g.at[a] == g.at[a])
      && (forall a | a in l.g.at && a !in g.at :: l.Waiting(a))
      && work <= l.work && (forall w | w in l.work && w !in work :: w.0 in l.g.at && w.0 !in g.at)
    }
  }

  /** Finished blocks stay as they are. */
  predicate Keeps(g: Graph, g': Graph) {
    && (forall a | a in g.at :: a in g'.at && g'.at[a] == g.at[a])
    && |g.blocks| <= |g'.blocks|
    && forall i | 0 <= i < |g.blocks| && g.blocks[i].term.Some? :: g'.blocks[i] == g.blocks[i]
  }

  lemma LeafStays(g: Graph, g': Graph, b: nat, ops: seq<Event>, w: Where)
    requires Keeps(g, g') && Leaf(g, b, ops, w)
    ensures Leaf(g', b, ops, w)
  {
  }

  lemma ImplementsStays(p: Binary, g: Graph, g': Graph, b: nat, a: Address)
    requires Keeps(g, g') && Implements(p, g, b, a)
    ensures Implements(p, g', b, a)
  {
    hide Leaf, Keeps, After, Next;
    if !Runs(p, a) {
      LeafStays(g, g', b, [], Stopped(ErrorStop));
    } else {
      var inst := p.Decode(a).value;
      if IsConditional(inst.category) {
        ArmsStay(p, g, g', b, a);
      } else {
        LeafStays(g, g', b, [Execute(a)] + After(p, inst, true), Next(p, inst, true));
      }
    }
  }

  lemma ArmsStay(p: Binary, g: Graph, g': Graph, b: nat, a: Address)
    requires Keeps(g, g') && Implements(p, g, b, a)
    requires Runs(p, a) && IsConditional(p.Decode(a).value.category)
    ensures Implements(p, g', b, a)
  {
    hide After, Next, IsConditional;
    var inst := p.Decode(a).value;
    var term := g.blocks[b].term.value;
    LeafStays(g, g', term.taken, After(p, inst, true), Next(p, inst, true));
    LeafStays(g, g', term.notTaken, After(p, inst, false), Next(p, inst, false));
  }

  // ---------- the primitive changes ----------

  /** Writing to an open block. */
  function Written(l: Lifting, b: nat, block: Block): Lifting
    requires b < |l.g.blocks|
  {
    l.(g := Graph(l.g.blocks[b := block], l.g.at))
  }

  lemma WrittenInv(p: Binary, l: Lifting, entry: Address, busy: Option<Address>, b: nat, block: Block)
    requires l.Inv(p, entry, busy) && l.Open(b, busy)
    ensures Written(l, b, block).Inv(p, entry, busy)
    ensures l.Only(b, Written(l, b, block))
  {
    hide Implements;
    var l' := Written(l, b, block);
    forall a | a in l'.g.at && busy != Some(a)
      ensures if l'.Waiting(a) then l'.g.blocks[l'.g.at[a]] == EMPTY else Implements(p, l'.g, l'.g.at[a], a)
    {
      assert l'.Waiting(a) == l.Waiting(a);
      if !l.Waiting(a) {
        ImplementsStays(p, l.g, l'.g, l.g.at[a], a);
      }
    }
  }

  /** A block without an address. */
  function WithBlock(l: Lifting): Lifting {
    l.(g := Graph(l.g.blocks + [EMPTY], l.g.at))
  }

  lemma WithBlockInv(p: Binary, l: Lifting, entry: Address, busy: Option<Address>)
    requires l.Inv(p, entry, busy)
    ensures WithBlock(l).Inv(p, entry, busy) && WithBlock(l).Open(|l.g.blocks|, busy)
    ensures l.Only(|l.g.blocks|, WithBlock(l))
  {
    hide Implements;
    var l' := WithBlock(l);
    forall a | a in l'.g.at && busy != Some(a)
      ensures if l'.Waiting(a) then l'.g.blocks[l'.g.at[a]] == EMPTY else Implements(p, l'.g, l'.g.at[a], a)
    {
      assert l'.Waiting(a) == l.Waiting(a);
      if !l.Waiting(a) {
        ImplementsStays(p, l.g, l'.g, l.g.at[a], a);
      }
    }
  }

  /** A new address: an empty block and an entry on the work list. */
  function WithAddress(l: Lifting, a: Address, from: Address): Lifting {
    Lifting(Graph(l.g.blocks + [EMPTY], l.g.at[a := |l.g.blocks|]), l.work + {(a, from)})
  }

  lemma WithAddressInv(p: Binary, l: Lifting, entry: Address, busy: Option<Address>, a: Address, from: Address)
    requires l.Inv(p, entry, busy) && a !in l.g.at && Reachable(p, entry, a)
    ensures WithAddress(l, a, from).Inv(p, entry, busy)
    ensures l.Only(|l.g.blocks|, WithAddress(l, a, from))
  {
    hide Implements, Lifting.Waiting, Reachable;
    var l' := WithAddress(l, a, from);
    WithAddressWaiting(l, a, from, a);
    forall x | x in l'.g.at && busy != Some(x)
      ensures if l'.Waiting(x) then l'.g.blocks[l'.g.at[x]] == EMPTY else Implements(p, l'.g, l'.g.at[x], x)
    {
      WithAddressWaiting(l, a, from, x);
      if x != a && !l.Waiting(x) {
        ImplementsStays(p, l.g, l'.g, l.g.at[x], x);
      }
    }
  }

  lemma WithAddressWaiting(l: Lifting, a: Address, from: Address, x: Address)
    ensures WithAddress(l, a, from).Waiting(x) <==> x == a || l.Waiting(x)
  {
    var l' := WithAddress(l, a, from);
    assert (a, from) in l'.work;
    if l.Waiting(x) {
      var f :| (x, f) in l.work;
      assert (x, f) in l'.work;
    }
  }

  lemma OpenStays(l: Lifting, l': Lifting, b: nat, c: nat, busy: Option<Address>)
    requires l.Only(b, l') && l.Open(c, busy) && b != c
    ensures l'.Open(c, busy) && l'.g.blocks[c] == l.g.blocks[c]
  {
  }

  lemma OnlySame(l: Lifting, b: nat)
    ensures l.Only(b, l)
  {
  }

  lemma AppendedOnly(l: Lifting, l': Lifting, b: nat, busy: Option<Address>)
    requires l.Only(|l.g.blocks|, l') && l.Open(b, busy)
    ensures l.Only(b, l') && l'.Open(b, busy) && l'.g.blocks[b] == l.g.blocks[b]
  {
  }

  /** Writing to `b`, and then to `b` again or to a block that was not there before. */
  lemma OnlyChain(l: Lifting, m: Lifting, n: Lifting, b: nat, c: nat)
    requires l.Only(b, m) && m.Only(c, n) && (c == b || c >= |l.g.blocks|)
    ensures l.Only(b, n)
  {
    hide Lifting.Waiting;
    forall a | a in n.g.at && a !in l.g.at
      ensures n.Waiting(a)
    {
      if a in m.g.at { WaitingKept(m, n, a); }
    }
  }

  lemma WaitingKept(l: Lifting, l': Lifting, a: Address)
    requires l.work <= l'.work && l.Waiting(a)
    ensures l'.Waiting(a)
  {
    var f :| (a, f) in l.work;
    assert (a, f) in l'.work;
  }

  /** A leaf written earlier is still there after another block was written. */
  lemma LeafStaysOnly(l: Lifting, l': Lifting, b: nat, c: nat, ops: seq<Event>, w: Where)
    requires l.Only(b, l') && b != c && Leaf(l.g, c, ops, w)
    ensures Leaf(l'.g, c, ops, w)
  {
  }

  /** The instruction being lifted. */
  ghost predicate Current(p: Binary, entry: Address, busy: Option<Address>, inst: Instruction) {
    && busy == Some(inst.pc) && Runs(p, inst.pc) && inst == p.Decode(inst.pc).value
    && Reachable(p, entry, inst.pc)
  }

  lemma NextReachable(p: Binary, entry: Address, busy: Option<Address>, inst: Instruction, taken: bool)
    requires Current(p, entry, busy, inst) && (IsConditional(inst.category) || taken)
    ensures Next(p, inst, taken).At? ==> Reachable(p, entry, Next(p, inst, taken).address)
  {
    hide Reachable, Next;
    if Next(p, inst, taken).At? {
      assert Leads(p, inst.pc, Next(p, inst, taken).address);
      LeadsReachable(p, entry, inst.pc, Next(p, inst, taken).address);
    }
  }

  lemma Unconditional(p: Binary, g: Graph, entry: Address, busy: Option<Address>, inst: Instruction, b: nat)
    requires Current(p, entry, busy, inst) && !IsConditional(inst.category)
    requires Leaf(g, b, [Execute(inst.pc)] + After(p, inst, true), Next(p, inst, true))
    ensures Implements(p, g, b, inst.pc)
  {
  }

  lemma Conditional(p: Binary, g: Graph, entry: Address, busy: Option<Address>, inst: Instruction,
                    b: nat, t: nat, f: nat)
    requires Current(p, entry, busy, inst) && IsConditional(inst.category)
    requires b < |g.blocks| && g.blocks[b] == Block([Execute(inst.pc)], Some(CondBr(t, f)))
    requires Leaf(g, t, After(p, inst, true), Next(p, inst, true))
    requires Leaf(g, f, After(p, inst, false), Next(p, inst, false))
    ensures Implements(p, g, b, inst.pc)
  {
  }

  // ---------- the lifter ----------

  class MCToIRLifter {
    const program: Binary

    // The function being lifted: its blocks, and those that stand for addresses.
    var blocks: seq<Block>
    var addr_to_block: map<Address, nat>
    var work_list: set<(Address, Address)>
    var curr_inst: Option<Address>

    // The first address, and the one whose block is being filled.
    ghost var entry: Address
    ghost var busy: Option<Address>

    constructor (program: Binary)
      ensures this.program == program
    {
      this.program := program;
      blocks, addr_to_block, work_list, curr_inst := [], map[], {}, None;
      busy := None;
    }

    function L(): Lifting
      reads this
    {
      Lifting(Graph(blocks, addr_to_block), work_list)
    }

    ghost predicate Valid()
      reads this
    {
      L().Inv(program, entry, busy)
    }

    ghost predicate Open(b: nat)
      reads this
    {
      L().Open(b, busy)
    }

    method NewBlock() returns (b: nat)
      requires Valid()
      modifies this`blocks
      ensures Valid() && b == |old(blocks)| && blocks == old(blocks) + [EMPTY]
      ensures Open(b) && old(L()).Only(b, L())
    {
      WithBlockInv(program, L(), entry, busy);
      b := |blocks|;
      blocks := blocks + [EMPTY];
    }

    method GetOrCreateBlock(addr: Address) returns (b: nat)
      requires Valid() && Reachable(program, entry, addr)
      modifies this`blocks, this`addr_to_block, this`work_list
      ensures Valid() && addr in addr_to_block && b == addr_to_block[addr]
      ensures old(L()).Only(|old(blocks)|, L())
      ensures addr in old(addr_to_block) ==>
                blocks == old(blocks) && addr_to_block == old(addr_to_block) && work_list == old(work_list)
      ensures addr !in old(addr_to_block) ==>
                && b == |old(blocks)| && blocks == old(blocks) + [EMPTY]
                && addr_to_block == old(addr_to_block)[addr := b]
                && work_list == old(work_list) + {(addr, if curr_inst.Some? then curr_inst.value else 0)}
    {
      hide Lifting.Inv, Lifting.Only, Reachable;
      if addr in addr_to_block {
        OnlySame(L(), |blocks|);
        return addr_to_block[addr];
      }
      var from: Address := if curr_inst.Some? then curr_inst.value else 0;
      WithAddressInv(program, L(), entry, busy, addr, from);
      b := |blocks|;
      blocks := blocks + [EMPTY];
      addr_to_block := addr_to_block[addr := b];
      work_list := work_list + {(addr, from)};
    }

    /** Add to an open block. */
    method Append(b: nat, ops: seq<Event>)
      requires Valid() && Open(b)
      modifies this`blocks
      ensures Valid() && Open(b) && old(L()).Only(b, L())
      ensures blocks == old(blocks)[b := Block(old(blocks)[b].ops + ops, None)]
    {
      WrittenInv(program, L(), entry, busy, b, Block(blocks[b].ops + ops, None));
      blocks := blocks[b := Block(blocks[b].ops + ops, None)];
    }

    /** Finish an open block. */
    method Terminate(b: nat, term: Terminator)
      requires Valid() && Open(b)
      modifies this`blocks
      ensures Valid() && old(L()).Only(b, L())
      ensures blocks == old(blocks)[b := Block(old(blocks)[b].ops, Some(term))]
    {
      WrittenInv(program, L(), entry, busy, b, Block(blocks[b].ops, Some(term)));
      blocks := blocks[b := Block(blocks[b].ops, Some(term))];
    }

    method AddTerminatingTailCall(b: nat, how: Stop)
      requires Valid() && Open(b)
      modifies this`blocks
      ensures Valid() && old(L()).Only(b, L())
      ensures Leaf(L().g, b, old(blocks)[b].ops, Stopped(how))
    {
      Terminate(b, Leave(how));
    }

    /** A branch to the block of an address. */
    method Branch(b: nat, addr: Address)
      requires Valid() && Open(b) && Reachable(program, entry, addr)
      modifies this`blocks, this`addr_to_block, this`work_list
      ensures Valid() && old(L()).Only(b, L())
      ensures Leaf(L().g, b, old(blocks)[b].ops, At(addr))
    {
      ghost var l0 := L();
      var target := GetOrCreateBlock(addr);
      AppendedOnly(l0, L(), b, busy);
      ghost var l1 := L();
      Terminate(b, Br(target));
      OnlyChain(l0, l1, L(), b, b);
    }

    // ---------- delay slots and calls ----------

    ghost predicate Visiting(inst: Instruction)
      reads this
    {
      Valid() && Current(program, entry, busy, inst)
    }

    method VisitDelayedInstruction(inst: Instruction, b: nat, onTakenPath: bool)
      requires Visiting(inst) && Open(b) && !inst.category.Normal? && !inst.category.NoOp?
      modifies this`blocks
      ensures Visiting(inst) && Open(b) && old(L()).Only(b, L())
      ensures blocks == old(blocks)[b := Block(old(blocks)[b].ops + Delayed(inst, onTakenPath), None)]
    {
      hide Lifting.Inv, Lifting.Only, Lifting.Open, Current;
      if inst.mayHaveDelaySlot && (if onTakenPath then inst.liveTaken else inst.liveNotTaken) {
        Append(b, [ExecuteDelayed(inst.delayed)]);
      } else {
        Append(b, []);
      }
    }

    method VisitAfterFunctionCall(inst: Instruction, b: nat)
      requires Visiting(inst) && Open(b) && IsCall(inst.category)
      modifies this`blocks, this`addr_to_block, this`work_list
      ensures Visiting(inst) && old(L()).Only(b, L())
      ensures Leaf(L().g, b, old(blocks)[b].ops + [SetNextPc(SkipsUnimp(program, inst.notTaken))],
                   Next(program, inst, true))
    {
      hide Lifting.Inv, Lifting.Only, Current, Leaf, SkipsUnimp;
      ghost var l0 := L();
      var pc, skip := LoadFunctionReturnAddress(inst);
      Append(b, [SetNextPc(skip)]);
      ghost var l1 := L();
      NextReachable(program, entry, busy, inst, true);
      Branch(b, pc);
      OnlyChain(l0, l1, L(), b, b);
    }

    /** Read the word behind the call and look for an `unimp`. */
    method LoadFunctionReturnAddress(inst: Instruction) returns (pc: Address, skip: bool)
      ensures pc == ReturnAddress(program, inst) && skip == SkipsUnimp(program, inst.notTaken)
    {
      pc, skip := inst.notTaken, false;
      if !program.sparc {
        return;
      }
      var bytes: seq<Byte> := [];
      var readable := true;
      while |bytes| < 4 && readable && !program.Read(pc, |bytes|).NoByte?
        invariant pc == inst.notTaken && |bytes| <= 4
        invariant forall k | 0 <= k < |bytes| ::
            program.Read(pc, k).Value? && program.Read(pc, k).value == bytes[k]
        invariant !readable ==> |bytes| < 4 && program.Read(pc, |bytes|).NoValue?
        decreases 4 - |bytes|, readable
      {
        match program.Read(pc, |bytes|)
        case Value(v) => bytes := bytes + [v];
        case _ => readable := false;
      }
      if !readable {
        return;
      }
      var word := bytes + seq(4 - |bytes|, _ => 0);
      WordRead(program, pc, bytes);
      var flat: nat := word[0];
      flat := flat * 256 + word[1];
      flat := flat * 256 + word[2];
      flat := flat * 256 + word[3];
      UnimpFields(word[0], word[1], word[2], word[3]);
      if flat / 0x4000_0000 == 0 && flat / 0x40_0000 % 8 == 0 {
        pc, skip := (pc + 4) % U64, true;
      }
    }

    /** The call itself, and the way back from it. */
    method EmitCall(inst: Instruction, b: nat)
      requires Visiting(inst) && Open(b) && IsCall(inst.category)
      modifies this`blocks, this`addr_to_block, this`work_list
      ensures Visiting(inst) && old(L()).Only(b, L())
      ensures Leaf(L().g, b, old(blocks)[b].ops + After(program, inst, true), Next(program, inst, true))
    {
      hide Lifting.Inv, Lifting.Only, Current, Leaf, SkipsUnimp, Next;
      ghost var l0 := L();
      VisitDelayedInstruction(inst, b, true);
      ghost var l1 := L();
      if IsDirectCall(inst.category) && inst.taken in program.functions {
        Append(b, [CallLifted(inst.taken)]);
      } else {
        Append(b, [CallUnknown]);
      }
      ghost var l2 := L();
      OnlyChain(l0, l1, l2, b, b);
      VisitAfterFunctionCall(inst, b);
      OnlyChain(l0, l2, L(), b, b);
      CallOps(program, inst, l0.g.blocks[b].ops);
    }

    // ---------- the visitors ----------

    /** The visited block before its terminator: the instruction's own semantics. */
    ghost predicate Begun(inst: Instruction, b: nat)
      reads this
    {
      Visiting(inst) && Open(b) && blocks[b].ops == [Execute(inst.pc)]
    }

    method VisitNormal(inst: Instruction, b: nat)
      requires Begun(inst, b) && (inst.category.Normal? || inst.category.NoOp?)
      modifies this`blocks, this`addr_to_block, this`work_list
      ensures Visiting(inst) && old(L()).Only(b, L()) && Implements(program, L().g, b, inst.pc)
    {
      hide Lifting.Inv, Lifting.Only, Current, Leaf, Implements;
      NextReachable(program, entry, busy, inst, true);
      Branch(b, inst.next);
      assert [Execute(inst.pc)] + After(program, inst, true) == [Execute(inst.pc)];
      Unconditional(program, L().g, entry, busy, inst, b);
    }

    method VisitDirectJump(inst: Instruction, b: nat)
      requires Begun(inst, b) && inst.category.DirectJump?
      modifies this`blocks, this`addr_to_block, this`work_list
      ensures Visiting(inst) && old(L()).Only(b, L()) && Implements(program, L().g, b, inst.pc)
    {
      hide Lifting.Inv, Lifting.Only, Current, Leaf, Implements, Delayed;
      ghost var l0 := L();
      VisitDelayedInstruction(inst, b, true);
      ghost var l1 := L();
      NextReachable(program, entry, busy, inst, true);
      Branch(b, inst.taken);
      OnlyChain(l0, l1, L(), b, b);
      NoCall(program, inst, true);
      Unconditional(program, L().g, entry, busy, inst, b);
    }

    /** Indirect jumps, returns and hyper calls leave the function. */
    method VisitLeaving(inst: Instruction, b: nat, how: Stop)
      requires Begun(inst, b) && !IsConditional(inst.category) && !IsCall(inst.category)
      requires !inst.category.Normal? && !inst.category.NoOp? && Next(program, inst, true) == Stopped(how)
      modifies this`blocks
      ensures Visiting(inst) && old(L()).Only(b, L()) && Implements(program, L().g, b, inst.pc)
    {
      hide Lifting.Inv, Lifting.Only, Current, Leaf, Implements, Delayed, Next, IsConditional;
      ghost var l0 := L();
      VisitDelayedInstruction(inst, b, true);
      ghost var l1 := L();
      AddTerminatingTailCall(b, how);
      OnlyChain(l0, l1, L(), b, b);
      NoCall(program, inst, true);
      Unconditional(program, L().g, entry, busy, inst, b);
    }

    method VisitCall(inst: Instruction, b: nat)
      requires Begun(inst, b) && !IsConditional(inst.category) && IsCall(inst.category)
      modifies this`blocks, this`addr_to_block, this`work_list
      ensures Visiting(inst) && old(L()).Only(b, L()) && Implements(program, L().g, b, inst.pc)
    {
      hide Lifting.Inv, Lifting.Only, Current, Leaf, Implements, After, Next, IsConditional, IsCall;
      EmitCall(inst, b);
      Unconditional(program, L().g, entry, busy, inst, b);
    }

    /** Two new blocks, and a branch between them on the flag the instruction set. */
    method Split(inst: Instruction, b: nat) returns (t: nat, f: nat)
      requires Begun(inst, b)
      modifies this`blocks
      ensures Visiting(inst) && old(L()).Only(b, L())
      ensures |old(blocks)| <= t < f && Open(t) && Open(f) && blocks[t] == EMPTY && blocks[f] == EMPTY
      ensures b < |blocks| && blocks[b] == Block([Execute(inst.pc)], Some(CondBr(t, f)))
    {
      hide Lifting.Inv, Lifting.Only, Current;
      ghost var l0 := L();
      t := NewBlock();
      ghost var l1 := L();
      AppendedOnly(l0, l1, b, busy);
      f := NewBlock();
      ghost var l2 := L();
      AppendedOnly(l1, l2, b, busy);
      AppendedOnly(l1, l2, t, busy);
      OnlyChain(l0, l1, l2, b, b);
      Terminate(b, CondBr(t, f));
      OpenStays(l2, L(), b, t, busy);
      OpenStays(l2, L(), b, f, busy);
      OnlyChain(l0, l2, L(), b, b);
    }

    /** The arm on which the branch is not taken. */
    method FallThrough(inst: Instruction, f: nat)
      requires Visiting(inst) && Open(f) && blocks[f] == EMPTY && IsConditional(inst.category)
      modifies this`blocks, this`addr_to_block, this`work_list
      ensures Visiting(inst) && old(L()).Only(f, L())
      ensures Leaf(L().g, f, After(program, inst, false), Next(program, inst, false))
    {
      hide Lifting.Inv, Lifting.Only, Current, Leaf, Delayed;
      ghost var l0 := L();
      VisitDelayedInstruction(inst, f, false);
      ghost var l1 := L();
      NextReachable(program, entry, busy, inst, false);
      Branch(f, inst.notTaken);
      OnlyChain(l0, l1, L(), f, f);
      assert [] + Delayed(inst, false) == After(program, inst, false);
    }

    /** The arm on which it is: the delayed instruction, and then out. */
    method TakeOut(inst: Instruction, t: nat, how: Stop)
      requires Visiting(inst) && Open(t) && blocks[t] == EMPTY && IsConditional(inst.category)
      requires !IsCall(inst.category) && Next(program, inst, true) == Stopped(how)
      modifies this`blocks
      ensures Visiting(inst) && old(L()).Only(t, L())
      ensures Leaf(L().g, t, After(program, inst, true), Next(program, inst, true))
    {
      hide Lifting.Inv, Lifting.Only, Current, Leaf, Delayed, Next;
      ghost var l0 := L();
      VisitDelayedInstruction(inst, t, true);
      ghost var l1 := L();
      AddTerminatingTailCall(t, how);
      OnlyChain(l0, l1, L(), t, t);
      assert [] + Delayed(inst, true) == After(program, inst, true);
    }

    method TakeBranch(inst: Instruction, t: nat)
      requires Visiting(inst) && Open(t) && blocks[t] == EMPTY && inst.category.ConditionalBranch?
      modifies this`blocks, this`addr_to_block, this`work_list
      ensures Visiting(inst) && old(L()).Only(t, L())
      ensures Leaf(L().g, t, After(program, inst, true), Next(program, inst, true))
    {
      hide Lifting.Inv, Lifting.Only, Current, Leaf, Delayed;
      ghost var l0 := L();
      VisitDelayedInstruction(inst, t, true);
      ghost var l1 := L();
      NextReachable(program, entry, busy, inst, true);
      Branch(t, inst.taken);
      OnlyChain(l0, l1, L(), t, t);
      assert [] + Delayed(inst, true) == After(program, inst, true);
    }

    method TakeCall(inst: Instruction, t: nat)
      requires Visiting(inst) && Open(t) && blocks[t] == EMPTY && IsCall(inst.category)
      modifies this`blocks, this`addr_to_block, this`work_list
      ensures Visiting(inst) && old(L()).Only(t, L())
      ensures Leaf(L().g, t, After(program, inst, true), Next(program, inst, true))
    {
      hide Lifting.Inv, Lifting.Only, Current, Leaf, After, Next;
      EmitCall(inst, t);
      assert [] + After(program, inst, true) == After(program, inst, true);
    }

    method VisitConditional(inst: Instruction, b: nat)
      requires Begun(inst, b) && IsConditional(inst.category)
      modifies this`blocks, this`addr_to_block, this`work_list
      ensures Visiting(inst) && old(L()).Only(b, L()) && Implements(program, L().g, b, inst.pc)
    {
      hide Lifting.Inv, Lifting.Only, Current, Leaf, Implements, After;
      ghost var l0 := L();
      var t, f := Split(inst, b);
      ghost var l1 := L();
      match inst.category {
        case ConditionalBranch => TakeBranch(inst, t);
        case ConditionalIndirectJump => TakeOut(inst, t, Jump);
        case ConditionalFunctionReturn => TakeOut(inst, t, ReturnIntrinsic);
        case ConditionalAsyncHyperCall => TakeOut(inst, t, HyperCall);
        case ConditionalDirectCall => TakeCall(inst, t);
        case ConditionalIndirectCall => TakeCall(inst, t);
      }
      ghost var l2 := L();
      OpenStays(l1, l2, t, f, busy);
      FallThrough(inst, f);
      BothArms(l0, l1, l2, L(), b, t, f, After(program, inst, true), Next(program, inst, true));
      Conditional(program, L().g, entry, busy, inst, b, t, f);
    }

    method VisitInstruction(inst: Instruction, b: nat)
      requires Visiting(inst) && Open(b) && blocks[b] == EMPTY
      modifies this`blocks, this`addr_to_block, this`work_list, this`curr_inst
      ensures Visiting(inst) && old(L()).Only(b, L()) && Implements(program, L().g, b, inst.pc)
      ensures curr_inst == Some(inst.pc)
    {
      hide Lifting.Inv, Lifting.Only, Implements, Reachable;
      curr_inst := Some(inst.pc);
      ghost var l0 := L();
      Append(b, [Execute(inst.pc)]);
      ghost var l1 := L();
      assert [] + [Execute(inst.pc)] == [Execute(inst.pc)];
      match inst.category {
        case Normal => VisitNormal(inst, b);
        case NoOp => VisitNormal(inst, b);
        case DirectJump => VisitDirectJump(inst, b);
        case IndirectJump => VisitLeaving(inst, b, Jump);
        case FunctionReturn => VisitLeaving(inst, b, NativeReturn);
        case AsyncHyperCall => VisitLeaving(inst, b, HyperCall);
        case DirectCall => VisitCall(inst, b);
        case IndirectCall => VisitCall(inst, b);
        case Invalid => assert false;
        case Error => assert false;
        case _ => VisitConditional(inst, b);
      }
      OnlyChain(l0, l1, L(), b, b);
    }

    // ---------- the work list ----------

    /** Fill the block of one address. */
    method LiftInstruction(a: Address, b: nat)
      requires Valid() && busy == Some(a) && b == addr_to_block[a] && Open(b) && blocks[b] == EMPTY
      modifies this`blocks, this`addr_to_block, this`work_list, this`curr_inst
      ensures Valid() && old(L()).Only(b, L()) && Implements(program, L().g, b, a)
    {
      hide Lifting.Named, Lifting.Queued, Lifting.Settled, Lifting.Only, Reachable, Current;
      var inst := program.Decode(a);
      if inst.None? {
        AddTerminatingTailCall(b, ErrorStop);
      } else if inst.value.category.Invalid? || inst.value.category.Error? {
        AddTerminatingTailCall(b, ErrorStop);
      } else {
        BecomesCurrent(program, L(), entry, busy, inst.value);
        VisitInstruction(inst.value, b);
      }
    }

    /** Lift everything that can be reached from `decl`.  `order` is the sequence in which
        instructions were decoded. */
    method LiftFunction(decl: Address) returns (ghost order: seq<Address>)
      modifies this
      ensures !program.executable(decl) ==> L() == old(L()) && order == []
      ensures program.executable(decl) ==>
                && work_list == {} && Lifted(program, L().g, decl)
                && (forall a: Address :: a in addr_to_block <==> Reachable(program, decl, a))
                && (forall a :: a in order <==> a in addr_to_block)
                && (forall i, j | 0 <= i < j < |order| :: order[i] != order[j])
    {
      order := [];
      if !program.executable(decl) {
        return;
      }
      Begin(decl);
      while work_list != {}
        invariant Valid() && busy == None && entry == decl
        invariant Decoded(order)
        decreases Everything() - addr_to_block.Keys, work_list
      {
        var ent :| ent in work_list;
        LiftNext(ent, order);
        order := order + [ent.0];
      }
      AllDone(program, L(), decl, order);
    }

    /** One turn of the loop: an entry is taken off the work list and its block is filled.  The
        block is always empty, so no address is handled twice. */
    method LiftNext(ent: (Address, Address), ghost order: seq<Address>)
      requires Valid() && busy == None && ent in work_list && Decoded(order)
      modifies this
      ensures Valid() && busy == None && entry == old(entry) && Decoded(order + [ent.0])
      ensures Everything() - addr_to_block.Keys < Everything() - old(addr_to_block).Keys
              || (addr_to_block.Keys == old(addr_to_block).Keys && work_list < old(work_list))
    {
      hide Lifting.Inv, Lifting.Only, Implements, DecodedOf, Lifting.Waiting;
      ghost var l0 := L();
      TakeInv(program, l0, entry, ent);
      var b := addr_to_block[ent.0];
      work_list, busy := work_list - {ent}, Some(ent.0);
      ghost var l1 := L();
      LiftInstruction(ent.0, b);
      StaysAt(l1, L(), ent.0, b);
      ReleaseInv(program, L(), entry, ent.0);
      busy := None;
      DecodedStep(l0, l1, L(), ent, b, order);
      ProgressDecreases(l0, l1, L(), ent, b);
    }

    /** The addresses decoded so far are those that no longer wait, each decoded once. */
    ghost predicate Decoded(order: seq<Address>)
      reads this
    {
      DecodedOf(L(), order)
    }

    /** The entry block, and the first address on the work list. */
    method Begin(decl: Address)
      modifies this
      ensures Valid() && busy == None && entry == decl && Decoded([])
    {
      hide Implements;
      curr_inst, busy, entry := None, None, decl;
      blocks := [Block([], Some(Br(1))), EMPTY];
      addr_to_block, work_list := map[decl := 1], {(decl, 0)};
      EntryReachable(program, decl);
      assert (decl, 0) in work_list;
    }
  }

  ghost function AddressesBelow(n: nat): (r: set<Address>)
    requires n <= U64
    ensures forall a: Address :: a in r <==> a < n
  {
    if n == 0 then {} else AddressesBelow(n - 1) + {n - 1}
  }

  /** Every address there is: what bounds the number of blocks. */
  ghost function Everything(): (r: set<Address>)
    ensures forall a: Address :: a in r
  {
    AddressesBelow(U64)
  }

  ghost predicate DecodedOf(l: Lifting, order: seq<Address>) {
    && (forall a :: a in order <==> a in l.g.at && !l.Waiting(a))
    && (forall i, j | 0 <= i < j < |order| :: order[i] != order[j])
  }

  function Taken(l: Lifting, ent: (Address, Address)): Lifting {
    l.(work := l.work - {ent})
  }

  /** Taking an entry off the work list makes its address busy; its block is still empty. */
  lemma TakeInv(p: Binary, l: Lifting, entry: Address, ent: (Address, Address))
    requires l.Inv(p, entry, None) && ent in l.work
    ensures ent.0 in l.g.at && l.g.at[ent.0] < |l.g.blocks|
    ensures Taken(l, ent).Inv(p, entry, Some(ent.0)) && Taken(l, ent).Open(l.g.at[ent.0], Some(ent.0))
    ensures l.g.blocks[l.g.at[ent.0]] == EMPTY && l.Waiting(ent.0) && !Taken(l, ent).Waiting(ent.0)
  {
    hide Implements;
    var l' := Taken(l, ent);
    assert l.Waiting(ent.0);
    forall x | x != ent.0
      ensures l'.Waiting(x) == l.Waiting(x)
    {
      if l.Waiting(x) {
        var f :| (x, f) in l.work;
        assert (x, f) in l'.work;
      }
    }
    assert forall w | w in l'.work :: w.0 != ent.0;
  }

  /** One more address decoded; whatever it leads to waits. */
  lemma DecodedStep(l0: Lifting, l1: Lifting, l2: Lifting, ent: (Address, Address), b: nat, order: seq<Address>)
    requires DecodedOf(l0, order) && ent in l0.work && l0.Waiting(ent.0) && ent.0 in l0.g.at
    requires l1 == Taken(l0, ent) && l1.Only(b, l2) && !l1.Waiting(ent.0)
    ensures DecodedOf(l2, order + [ent.0])
  {
    forall a
      ensures a in order + [ent.0] <==> a in l2.g.at && !l2.Waiting(a)
    {
      DecodedStepAt(l0, l1, l2, ent, b, order, a);
    }
  }

  lemma DecodedStepAt(l0: Lifting, l1: Lifting, l2: Lifting, ent: (Address, Address), b: nat,
                      order: seq<Address>, a: Address)
    requires DecodedOf(l0, order) && ent in l0.work && ent.0 in l0.g.at
    requires l1 == Taken(l0, ent) && l1.Only(b, l2) && !l1.Waiting(ent.0)
    ensures a in order + [ent.0] <==> a in l2.g.at && !l2.Waiting(a)
  {
    if l0.Waiting(a) && a != ent.0 {
      var f :| (a, f) in l0.work;
      assert (a, f) in l1.work && (a, f) in l2.work;
    }
    if l2.Waiting(a) && a in l0.g.at {
      var f :| (a, f) in l2.work;
      assert (a, f) in l1.work;
      assert l0.Waiting(a) && l1.Waiting(a);
    }
  }

  /** Either there are new addresses, or the work list is one entry shorter. */
  lemma ProgressDecreases(l0: Lifting, l1: Lifting, l2: Lifting, ent: (Address, Address), b: nat)
    requires ent in l0.work && l1 == Taken(l0, ent) && l1.Only(b, l2)
    ensures Everything() - l2.g.at.Keys < Everything() - l0.g.at.Keys
            || (l2.g.at.Keys == l0.g.at.Keys && l2.work < l0.work)
  {
    if l2.g.at.Keys == l0.g.at.Keys {
      assert l2.work == l1.work;
    } else {
      var a :| a in l2.g.at.Keys && a !in l0.g.at.Keys;
      assert a in Everything() - l0.g.at.Keys;
    }
  }

  /** With nothing waiting, the map holds exactly what can be reached. */
  lemma AllDone(p: Binary, l: Lifting, entry: Address, order: seq<Address>)
    requires l.Inv(p, entry, None) && l.work == {} && DecodedOf(l, order)
    ensures Lifted(p, l.g, entry)
    ensures forall a: Address :: a in l.g.at <==> Reachable(p, entry, a)
    ensures forall a :: a in order <==> a in l.g.at
  {
    hide Reachable, Implements, Leaf, Lifted;
    assert forall a: Address :: !l.Waiting(a);
    LiftedNow(p, l, entry);
    forall a: Address
      ensures a in l.g.at <==> Reachable(p, entry, a)
    {
      if Reachable(p, entry, a) { ReachableIn(p, l.g, entry, a); }
    }
  }

  lemma LiftedNow(p: Binary, l: Lifting, entry: Address)
    requires l.Inv(p, entry, None) && forall a: Address :: !l.Waiting(a)
    ensures Lifted(p, l.g, entry)
  {
    hide Implements;
  }

  /** A lifted graph is closed: an instruction's successors have blocks. */
  lemma LeadsIn(p: Binary, g: Graph, entry: Address, a: Address, b: Address)
    requires Lifted(p, g, entry) && a in g.at && Leads(p, a, b)
    ensures b in g.at
  {
    assert Implements(p, g, g.at[a], a);
  }

  lemma ReachableIn(p: Binary, g: Graph, entry: Address, a: Address)
    requires Lifted(p, g, entry) && Reachable(p, entry, a)
    ensures a in g.at
  {
    var path :| path != [] && path[0] == entry && path[|path| - 1] == a && IsPath(p, path);
    PathIn(p, g, entry, path, |path| - 1);
  }

  lemma {:induction false} PathIn(p: Binary, g: Graph, entry: Address, path: seq<Address>, k: nat)
    requires Lifted(p, g, entry) && k < |path| && path[0] == entry && IsPath(p, path)
    ensures path[k] in g.at
  {
    hide Lifted, Leads;
    if k > 0 {
      PathIn(p, g, entry, path, k - 1);
      LeadsIn(p, g, entry, path[k - 1], path[k]);
    } else {
      EntryIn(p, g, entry);
    }
  }

  lemma EntryIn(p: Binary, g: Graph, entry: Address)
    requires Lifted(p, g, entry)
    ensures entry in g.at
  {
  }

  lemma StaysAt(l: Lifting, l': Lifting, a: Address, b: nat)
    requires l.Only(b, l') && a in l.g.at
    ensures a in l'.g.at && l'.g.at[a] == l.g.at[a]
  {
  }

  lemma ReleaseInv(p: Binary, l: Lifting, entry: Address, a: Address)
    requires l.Inv(p, entry, Some(a)) && Implements(p, l.g, l.g.at[a], a)
    ensures l.Inv(p, entry, None) && !l.Waiting(a)
  {
    hide Implements;
  }

  lemma BecomesCurrent(p: Binary, l: Lifting, entry: Address, busy: Option<Address>, inst: Instruction)
    requires l.Inv(p, entry, busy) && busy == Some(inst.pc) && Runs(p, inst.pc)
    requires inst == p.Decode(inst.pc).value
    ensures Current(p, entry, busy, inst)
  {
  }

  lemma NoCall(p: Binary, inst: Instruction, taken: bool)
    requires !IsCall(inst.category)
    ensures [Execute(inst.pc)] + Delayed(inst, taken) == [Execute(inst.pc)] + After(p, inst, taken)
  {
  }

  /** What the two arms left behind. */
  lemma BothArms(l0: Lifting, l1: Lifting, l2: Lifting, l3: Lifting, b: nat, t: nat, f: nat,
                 ops: seq<Event>, w: Where)
    requires l0.Only(b, l1) && l1.Only(t, l2) && l2.Only(f, l3)
    requires b < |l0.g.blocks| <= t < f < |l1.g.blocks|
    requires Leaf(l2.g, t, ops, w)
    ensures l0.Only(b, l3) && l3.g.blocks[b] == l1.g.blocks[b] && Leaf(l3.g, t, ops, w)
  {
    OnlyChain(l0, l1, l2, b, t);
    OnlyChain(l0, l2, l3, b, f);
    LeafStaysOnly(l2, l3, f, t, ops, w);
  }

  lemma CallOps(p: Binary, inst: Instruction, ops: seq<Event>)
    requires IsCall(inst.category)
    ensures
      var call :=
        if IsDirectCall(inst.category) && inst.taken in p.functions then CallLifted(inst.taken) else CallUnknown;
      ops + Delayed(inst, true) + [call] + [SetNextPc(SkipsUnimp(p, inst.notTaken))] == ops + After(p, inst, true)
  {
  }

  /** The bytes up to the first missing one, and zeros from there on. */
  lemma WordRead(p: Binary, pc: Address, bytes: seq<Byte>)
    requires |bytes| <= 4
    requires forall k | 0 <= k < |bytes| :: p.Read(pc, k).Value? && p.Read(pc, k).value == bytes[k]
    requires |bytes| < 4 ==> p.Read(pc, |bytes|).NoByte?
    ensures !Unreadable(p, pc)
    ensures forall k | 0 <= k < 4 :: WordByte(p, pc, k) == if k < |bytes| then bytes[k] else 0
  {
  }

  /** The two fields of the encoding, in terms of the bytes. */
  lemma UnimpFields(b0: Byte, b1: Byte, b2: Byte, b3: Byte)
    ensures
      var flat: nat := ((b0 as nat * 256 + b1) * 256 + b2) * 256 + b3;
      flat / 0x4000_0000 == 0 && flat / 0x40_0000 % 8 == 0 <==> b0 < 64 && b0 % 2 == 0 && b1 < 64
  {
    var flat: nat := ((b0 as nat * 256 + b1) * 256 + b2) * 256 + b3;
    assert flat / 0x40_0000 == b0 * 4 + b1 / 64;
  }
}
