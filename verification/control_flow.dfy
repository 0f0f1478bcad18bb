/** Machine control flow, one instruction at a time: what an instruction of each category makes
    happen, and where it goes. */
module ControlFlow {
  import opened Options
  import opened Words

  datatype Category =
    | Invalid | Error | Normal | NoOp
    | DirectJump | IndirectJump | ConditionalIndirectJump | ConditionalBranch
    | FunctionReturn | ConditionalFunctionReturn
    | DirectCall | ConditionalDirectCall | IndirectCall | ConditionalIndirectCall
    | AsyncHyperCall | ConditionalAsyncHyperCall

  /** A decoded instruction.  `liveTaken` and `liveNotTaken` say on which paths the instruction in
      its delay slot runs. */
  datatype Instruction = Instruction(
    category: Category, pc: Address, next: Address, taken: Address, notTaken: Address,
    mayHaveDelaySlot: bool, delayed: Address, liveTaken: bool, liveNotTaken: bool)

  /** What reading one byte of the program gives: nothing there, something without a value, or a
      value. */
  datatype ByteRead = NoByte | NoValue | Value(value: Byte)

  /** The program as the lifter sees it.  `followed` are the bytes known to be followed by the next:
      those inside their mapping, and last ones of a mapping that another was linked to. */
  datatype Binary = Binary(
    executable: Address -> bool,
    decoder: Address -> Option<Instruction>,
    bytes: Address -> ByteRead,
    followed: Address -> bool,
    functions: set<Address>,
    sparc: bool)
  {
    /** The byte `k` steps behind the one at `a`, as long as each is followed by the next. */
    function Read(a: Address, k: nat): ByteRead {
      if k == 0 then bytes(a)
      else if a + k < U64 && !Read(a, k - 1).NoByte? && followed(a + k - 1) then bytes(a + k)
      else NoByte
    }

    /** An instruction is decoded only where the first byte is executable; its `pc` is where it was
        found. */
    function Decode(a: Address): Option<Instruction> {
      if executable(a) && decoder(a).Some? then Some(decoder(a).value.(pc := a)) else None
    }
  }

  /** How control leaves a lifted function. */
  datatype Stop = ErrorStop | Jump | NativeReturn | ReturnIntrinsic | HyperCall

  datatype Where = At(address: Address) | Stopped(how: Stop)

  /** What happens on the way: semantics of an instruction or of a delayed one, a call, and the
      update of the next program counter behind a call. */
  datatype Event =
    | Execute(pc: Address)
    | ExecuteDelayed(pc: Address)
    | CallLifted(target: Address)
    | CallUnknown
    | SetNextPc(skipUnimp: bool)

  predicate IsConditional(c: Category) {
    c.ConditionalIndirectJump? || c.ConditionalBranch? || c.ConditionalFunctionReturn?
    || c.ConditionalDirectCall? || c.ConditionalIndirectCall? || c.ConditionalAsyncHyperCall?
  }

  predicate IsDirectCall(c: Category) {
    c.DirectCall? || c.ConditionalDirectCall?
  }

  predicate IsCall(c: Category) {
    IsDirectCall(c) || c.IndirectCall? || c.ConditionalIndirectCall?
  }

  /** The instruction in the delay slot, when it runs on this path. */
  function Delayed(inst: Instruction, taken: bool): seq<Event> {
    if !inst.mayHaveDelaySlot || inst.category.Normal? || inst.category.NoOp? then []
    else if (if taken then inst.liveTaken else inst.liveNotTaken) then [ExecuteDelayed(inst.delayed)]
    else []
  }

  // ---------- the word behind a call on SPARC ----------

  /** Byte `k` of the word at `pc`: zero from the first missing byte on. */
  function WordByte(p: Binary, pc: Address, k: nat): Byte {
    if forall j | 0 <= j <= k :: !p.Read(pc, j).NoByte? then
      (if p.Read(pc, k).Value? then p.Read(pc, k).value else 0)
    else 0
  }

  /** A byte of the word is mapped, as are those before it, but it has no value. */
  predicate Unreadable(p: Binary, pc: Address) {
    exists k | 0 <= k < 4 :: p.Read(pc, k).NoValue? && (forall j | 0 <= j < k :: p.Read(pc, j).Value?)
  }

  /** Whether an `unimp` follows the call: the two fields that are zero in one take up the top two
      bits of the first byte, its last bit, and the top two bits of the second. */
  predicate SkipsUnimp(p: Binary, pc: Address) {
    && p.sparc
    && !Unreadable(p, pc)
    && WordByte(p, pc, 0) < 64 && WordByte(p, pc, 0) % 2 == 0 && WordByte(p, pc, 1) < 64
  }

  /** Where a call returns to. */
  function ReturnAddress(p: Binary, inst: Instruction): Address {
    if SkipsUnimp(p, inst.notTaken) then (inst.notTaken + 4) % U64 else inst.notTaken
  }

  function CallEvents(p: Binary, inst: Instruction): seq<Event> {
    [if IsDirectCall(inst.category) && inst.taken in p.functions then CallLifted(inst.taken) else CallUnknown,
     SetNextPc(SkipsUnimp(p, inst.notTaken))]
  }

  /** What happens after the instruction's own semantics, on one of its paths. */
  function After(p: Binary, inst: Instruction, taken: bool): seq<Event> {
    Delayed(inst, taken) + (if IsCall(inst.category) && taken then CallEvents(p, inst) else [])
  }

  function Next(p: Binary, inst: Instruction, taken: bool): Where {
    if !taken then At(inst.notTaken)
    else match inst.category
      case Normal => At(inst.next)
      case NoOp => At(inst.next)
      case DirectJump => At(inst.taken)
      case ConditionalBranch => At(inst.taken)
      case IndirectJump => Stopped(Jump)
      case ConditionalIndirectJump => Stopped(Jump)
      case FunctionReturn => Stopped(NativeReturn)
      case ConditionalFunctionReturn => Stopped(ReturnIntrinsic)
      case AsyncHyperCall => Stopped(HyperCall)
      case ConditionalAsyncHyperCall => Stopped(HyperCall)
      case Invalid => Stopped(ErrorStop)
      case Error => Stopped(ErrorStop)
      case _ => At(ReturnAddress(p, inst))
  }

  // ---------- running the machine ----------

  /** The outcome of each conditional, in the order they are met. */
  type Oracle = nat -> bool

  datatype MachineState = MachineState(at: Where, used: nat, trace: seq<Event>)

  /** An instruction the machine can run. */
  predicate Runs(p: Binary, a: Address) {
    p.Decode(a).Some? && !p.Decode(a).value.category.Invalid? && !p.Decode(a).value.category.Error?
  }

  function Step(p: Binary, s: MachineState, oracle: Oracle): MachineState {
    if s.at.Stopped? then s
    else if !Runs(p, s.at.address) then MachineState(Stopped(ErrorStop), s.used, s.trace)
    else
      var inst := p.Decode(s.at.address).value;
      var conditional := IsConditional(inst.category);
      var taken := !conditional || oracle(s.used);
      MachineState(Next(p, inst, taken), if conditional then s.used + 1 else s.used,
                   s.trace + [Execute(inst.pc)] + After(p, inst, taken))
  }

  function Run(p: Binary, s: MachineState, oracle: Oracle, n: nat): MachineState
    decreases n
  {
    if n == 0 then s else Run(p, Step(p, s, oracle), oracle, n - 1)
  }

  /** The addresses an instruction may go to. */
  predicate Leads(p: Binary, a: Address, b: Address) {
    Runs(p, a)
    && exists taken: bool ::
         (IsConditional(p.Decode(a).value.category) || taken) && Next(p, p.Decode(a).value, taken) == At(b)
  }

  ghost predicate IsPath(p: Binary, path: seq<Address>) {
    forall k | 0 < k < |path| :: Leads(p, path[k - 1], path[k])
  }

  /** Some path of instructions leads from `entry` to `a`. */
  ghost predicate Reachable(p: Binary, entry: Address, a: Address) {
    exists path: seq<Address> :: path != [] && path[0] == entry && path[|path| - 1] == a && IsPath(p, path)
  }

  lemma EntryReachable(p: Binary, entry: Address)
    ensures Reachable(p, entry, entry)
  {
    assert IsPath(p, [entry]);
    assert [entry][0] == entry;
  }

  lemma LeadsReachable(p: Binary, entry: Address, a: Address, b: Address)
    requires Reachable(p, entry, a) && Leads(p, a, b)
    ensures Reachable(p, entry, b)
  {
    var path :| path != [] && path[0] == entry && path[|path| - 1] == a && IsPath(p, path);
    var longer := path + [b];
    forall k | 0 < k < |longer|
      ensures Leads(p, longer[k - 1], longer[k])
    {
      if k < |path| { assert longer[k - 1] == path[k - 1]; }
    }
    assert longer[|longer| - 1] == b && longer[0] == entry;
  }
}
