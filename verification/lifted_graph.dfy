/** The block graph of a lifted function, and why walking it is running the machine. */
module LiftedGraph {
  import opened Options
  import opened Words
  import opened ControlFlow

  /** Terminators.  A conditional branch reads the flag its instruction set. */
  datatype Terminator = Br(target: nat) | CondBr(taken: nat, notTaken: nat) | Leave(how: Stop)

  datatype Block = Block(ops: seq<Event>, term: Option<Terminator>)

  const EMPTY := Block([], None)

  /** The blocks of a function, and those that stand for addresses. */
  datatype Graph = Graph(blocks: seq<Block>, at: map<Address, nat>)

  // ---------- a block implements an instruction ----------

  predicate GoesTo(g: Graph, term: Option<Terminator>, w: Where) {
    match w
    case At(a) => a in g.at && term == Some(Br(g.at[a]))
    case Stopped(how) => term == Some(Leave(how))
  }

  predicate Leaf(g: Graph, b: nat, ops: seq<Event>, w: Where) {
    b < |g.blocks| && g.blocks[b].ops == ops && GoesTo(g, g.blocks[b].term, w)
  }

  /** Both arms of a conditional. */
  predicate Arms(p: Binary, g: Graph, term: Option<Terminator>, inst: Instruction) {
    && term.Some? && term.value.CondBr?
    && Leaf(g, term.value.taken, After(p, inst, true), Next(p, inst, true))
    && Leaf(g, term.value.notTaken, After(p, inst, false), Next(p, inst, false))
  }

  predicate Implements(p: Binary, g: Graph, b: nat, a: Address) {
    if !Runs(p, a) then Leaf(g, b, [], Stopped(ErrorStop))
    else
      var inst := p.Decode(a).value;
      if IsConditional(inst.category) then
        b < |g.blocks| && g.blocks[b].ops == [Execute(a)] && Arms(p, g, g.blocks[b].term, inst)
      else Leaf(g, b, [Execute(a)] + After(p, inst, true), Next(p, inst, true))
  }

  /** The graph of a completely lifted function: the entry block leads to the block of the first
      instruction, and the block of every address implements the instruction there. */
  ghost predicate Lifted(p: Binary, g: Graph, entry: Address) {
    && entry in g.at
    && Leaf(g, 0, [], At(entry))
    && forall a | a in g.at :: Implements(p, g, g.at[a], a)
  }

  // ---------- walking the graph ----------

  datatype Position = InBlock(b: nat) | Left(how: Stop) | Stuck

  datatype GraphState = GraphState(at: Position, used: nat, trace: seq<Event>)

  function GraphStep(g: Graph, s: GraphState, oracle: Oracle): GraphState {
    if !s.at.InBlock? then s
    else if s.at.b >= |g.blocks| || g.blocks[s.at.b].term.None? then s.(at := Stuck)
    else
      var block := g.blocks[s.at.b];
      match block.term.value
      case Br(b) => GraphState(InBlock(b), s.used, s.trace + block.ops)
      case CondBr(t, f) => GraphState(InBlock(if oracle(s.used) then t else f), s.used + 1, s.trace + block.ops)
      case Leave(how) => GraphState(Left(how), s.used, s.trace + block.ops)
  }

  function Walk(g: Graph, s: GraphState, oracle: Oracle, k: nat): GraphState
    decreases k
  {
    if k == 0 then s else Walk(g, GraphStep(g, s, oracle), oracle, k - 1)
  }

  lemma {:induction false} WalkSplit(g: Graph, s: GraphState, oracle: Oracle, k: nat, l: nat)
    decreases k
    ensures Walk(g, s, oracle, k + l) == Walk(g, Walk(g, s, oracle, k), oracle, l)
  {
    if k > 0 { WalkSplit(g, GraphStep(g, s, oracle), oracle, k - 1, l); }
  }

  // ---------- the simulation ----------

  /** The walk is where the machine is, has used as many outcomes, and has done the same things. */
  predicate Matches(g: Graph, w: GraphState, s: MachineState) {
    && w.used == s.used && w.trace == s.trace
    && match s.at
       case At(a) => a in g.at && w.at == InBlock(g.at[a])
       case Stopped(how) => w.at == Left(how)
  }

  /** The number of blocks one instruction takes. */
  function BlocksFor(p: Binary, s: MachineState): (k: nat)
    ensures 1 <= k <= 2
  {
    if s.at.At? && Runs(p, s.at.address) && IsConditional(p.Decode(s.at.address).value.category) then 2 else 1
  }

  function BlocksForAll(p: Binary, s: MachineState, oracle: Oracle, n: nat): (k: nat)
    ensures n <= k <= 2 * n
    decreases n
  {
    if n == 0 then 0 else BlocksFor(p, s) + BlocksForAll(p, Step(p, s, oracle), oracle, n - 1)
  }

  lemma LeafStep(g: Graph, s: GraphState, oracle: Oracle, ops: seq<Event>, w: Where)
    requires s.at.InBlock? && Leaf(g, s.at.b, ops, w)
    ensures Matches(g, GraphStep(g, s, oracle), MachineState(w, s.used, s.trace + ops))
  {
  }

  lemma StepSimulated(p: Binary, g: Graph, entry: Address, w: GraphState, s: MachineState, oracle: Oracle)
    requires Lifted(p, g, entry) && Matches(g, w, s)
    ensures Matches(g, Walk(g, w, oracle, BlocksFor(p, s)), Step(p, s, oracle))
  {
    hide After, Next;
    if s.at.At? {
      var a := s.at.address;
      assert Implements(p, g, g.at[a], a);
      assert Walk(g, w, oracle, 1) == GraphStep(g, w, oracle);
      if !Runs(p, a) {
        LeafStep(g, w, oracle, [], Stopped(ErrorStop));
        assert s.trace + [] == s.trace;
      } else if IsConditional(p.Decode(a).value.category) {
        ConditionalSimulated(p, g, w, s, oracle);
      } else {
        var inst := p.Decode(a).value;
        LeafStep(g, w, oracle, [Execute(a)] + After(p, inst, true), Next(p, inst, true));
        assert s.trace + [Execute(a)] + After(p, inst, true) == s.trace + ([Execute(a)] + After(p, inst, true));
      }
    }
  }

  lemma ConditionalSimulated(p: Binary, g: Graph, w: GraphState, s: MachineState, oracle: Oracle)
    requires s.at.At? && Matches(g, w, s) && Runs(p, s.at.address)
    requires IsConditional(p.Decode(s.at.address).value.category)
    requires Implements(p, g, g.at[s.at.address], s.at.address)
    ensures Matches(g, Walk(g, w, oracle, 2), Step(p, s, oracle))
  {
    hide After, Next, IsConditional;
    var a := s.at.address;
    var inst := p.Decode(a).value;
    var taken := oracle(s.used);
    var mid := GraphStep(g, w, oracle);
    LeafStep(g, mid, oracle, After(p, inst, taken), Next(p, inst, taken));
    assert Walk(g, w, oracle, 2) == Walk(g, mid, oracle, 1) == GraphStep(g, mid, oracle);
  }

  lemma {:induction false} RunSimulated(p: Binary, g: Graph, entry: Address, w: GraphState, s: MachineState,
                                        oracle: Oracle, n: nat)
    requires Lifted(p, g, entry) && Matches(g, w, s)
    ensures Matches(g, Walk(g, w, oracle, BlocksForAll(p, s, oracle, n)), Run(p, s, oracle, n))
    decreases n
  {
    hide Step, GraphStep, Lifted, Matches, BlocksFor;
    if n > 0 {
      StepSimulated(p, g, entry, w, s, oracle);
      var w1 := Walk(g, w, oracle, BlocksFor(p, s));
      RunSimulated(p, g, entry, w1, Step(p, s, oracle), oracle, n - 1);
      WalkSplit(g, w, oracle, BlocksFor(p, s), BlocksForAll(p, Step(p, s, oracle), oracle, n - 1));
    }
  }

  /** The first block of the function, and the machine before its first instruction. */
  const START := GraphState(InBlock(0), 0, [])

  function Begin(entry: Address): MachineState {
    MachineState(At(entry), 0, [])
  }

  lemma EntryMatches(p: Binary, g: Graph, entry: Address, oracle: Oracle)
    requires Lifted(p, g, entry)
    ensures Matches(g, GraphStep(g, START, oracle), Begin(entry))
  {
    LeafStep(g, START, oracle, [], At(entry));
  }

  /** Every machine run of every length is a walk through the graph: same events, same outcomes
      used, and the walk ends at the block of the machine's address or leaves the same way. */
  lemma {:induction false} MachineRunIsWalk(p: Binary, g: Graph, entry: Address, oracle: Oracle, n: nat)
    requires Lifted(p, g, entry)
    ensures exists k ::
              n <= k - 1 <= 2 * n && Matches(g, Walk(g, START, oracle, k), Run(p, Begin(entry), oracle, n))
  {
    EntryMatches(p, g, entry, oracle);
    RunSimulated(p, g, entry, GraphStep(g, START, oracle), Begin(entry), oracle, n);
    var k := 1 + BlocksForAll(p, Begin(entry), oracle, n);
    assert Walk(g, START, oracle, k) == Walk(g, GraphStep(g, START, oracle), oracle, k - 1);
    assert n <= k - 1 <= 2 * n;
  }

  /** And every walk is a machine run: after any number of blocks, the walk matches the machine now
      or after one more block. */
  lemma {:induction false} WalkIsMachineRun(p: Binary, g: Graph, entry: Address, oracle: Oracle, k: nat)
    requires Lifted(p, g, entry) && k > 0
    ensures exists n ::
              && 0 <= n <= k
              && (Matches(g, Walk(g, START, oracle, k), Run(p, Begin(entry), oracle, n))
                  || Matches(g, Walk(g, START, oracle, k + 1), Run(p, Begin(entry), oracle, n)))
  {
    hide Step, GraphStep, Lifted, Matches, Run;
    var w := GraphStep(g, START, oracle);
    EntryMatches(p, g, entry, oracle);
    WalkCovered(p, g, entry, w, Begin(entry), oracle, k - 1);
    assert Walk(g, START, oracle, k) == Walk(g, w, oracle, k - 1);
    assert Walk(g, START, oracle, k + 1) == Walk(g, w, oracle, k);
  }

  lemma {:induction false} WalkCovered(p: Binary, g: Graph, entry: Address, w: GraphState, s: MachineState,
                                       oracle: Oracle, k: nat)
    requires Lifted(p, g, entry) && Matches(g, w, s)
    ensures exists n ::
              && 0 <= n <= k + 1
              && (Matches(g, Walk(g, w, oracle, k), Run(p, s, oracle, n))
                  || Matches(g, Walk(g, w, oracle, k + 1), Run(p, s, oracle, n)))
    decreases k
  {
    hide Step, GraphStep, Lifted, Matches, BlocksFor;
    var step := BlocksFor(p, s);
    if k == 0 {
      assert Matches(g, Walk(g, w, oracle, 0), Run(p, s, oracle, 0));
    } else {
      StepSimulated(p, g, entry, w, s, oracle);
      var s1 := Step(p, s, oracle);
      assert Run(p, s, oracle, 1) == Run(p, s1, oracle, 0) == s1;
      if step <= k {
        WalkCovered(p, g, entry, Walk(g, w, oracle, step), s1, oracle, k - step);
        WalkSplit(g, w, oracle, step, k - step);
        WalkSplit(g, w, oracle, step, k + 1 - step);
        var n :| 0 <= n <= k - step + 1
          && (Matches(g, Walk(g, Walk(g, w, oracle, step), oracle, k - step), Run(p, s1, oracle, n))
              || Matches(g, Walk(g, Walk(g, w, oracle, step), oracle, k - step + 1), Run(p, s1, oracle, n)));
        assert Run(p, s, oracle, n + 1) == Run(p, s1, oracle, n);
      }
    }
  }
}
