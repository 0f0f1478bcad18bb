/** A small machine for lifted code.
    Lifted code keeps the emulated CPU registers in one thread-local structure and reaches
    them through named aliases such as `RAX_2216_...`.  The machine has that structure (as
    bytes), the stack slots an optimisation pass may add, virtual registers, ordinary memory
    and a trace of every call that can see the register structure. */
module Machine {

  type Bytes = seq<int>
  type Label = nat

  /** A global alias: its name, its byte offset in the register structure, its store size. */
  datatype Alias = Alias(name: string, off: nat, width: nat)

  /** A stack slot is identified by the pass that created it and the register it shadows. */
  datatype SlotId = SlotId(owner: nat, key: string)

  datatype Ptr = Global(a: Alias) | Local(id: SlotId)

  /** Virtual registers: those of the lifted code, and the ones pass number `owner` creates. */
  datatype Temp = Named(n: nat) | Scratch(owner: nat)

  datatype Callee = Indirect | Direct(name: string)

  /** `Other` stands for every instruction that does not address a register alias: arithmetic,
      ordinary loads and stores, casts. */
  datatype Inst =
    | Load(dst: Temp, ptr: Ptr, width: nat)
    | Store(ptr: Ptr, width: nat, src: Temp)
    | Other(dst: Temp, opcode: string, args: seq<Temp>)
    | Call(dst: Temp, callee: Callee, args: seq<Temp>)

  /** `Jump` covers unconditional and conditional branches and switches. */
  datatype Terminator = Jump(cond: Temp, targets: seq<Label>) | Return

  datatype Block = Block(insts: seq<Inst>, term: Terminator)

  datatype Function = Function(entry: Label, blocks: map<Label, Block>)

  type Memory = map<int, int>

  /** What a call saw in the register structure and what it left there. */
  datatype Event = Event(callee: Callee, args: seq<Bytes>, seen: Bytes, returned: Bytes)

  datatype State = State(
    temps: map<Temp, Bytes>,
    regs: Bytes,
    slots: map<SlotId, Bytes>,
    mem: Memory,
    trace: seq<Event>)

  datatype Effect = Effect(value: Bytes, mem: Memory)
  datatype CallEffect = CallEffect(value: Bytes, regs: Bytes, mem: Memory)

  /** Everything outside the machine: instruction semantics and the behaviour of callees,
      which may depend on the whole history of calls. */
  datatype Env = Env(
    other: (string, seq<Bytes>, Memory) -> Effect,
    intrinsic: (Callee, seq<Bytes>, Memory) -> Effect,
    call: (Callee, seq<Bytes>, Bytes, Memory, seq<Event>) -> CallEffect,
    select: Bytes -> nat)

  // ---------- byte strings ----------

  /** `width` bytes of `base` from `off` on, zero past the end. */
  function Slice(base: Bytes, off: nat, width: nat): (r: Bytes)
    ensures |r| == width
  {
    seq(width, i requires 0 <= i < width => if off + i < |base| then base[off + i] else 0)
  }

  /** `base` with the bytes from `off` on replaced by `v`, keeping its length. */
  function Splice(base: Bytes, off: nat, v: Bytes): (r: Bytes)
    ensures |r| == |base|
  {
    seq(|base|, i requires 0 <= i < |base| => if off <= i < off + |v| then v[i - off] else base[i])
  }

  // ---------- alias names ----------

  function Find(s: string, c: char): (r: nat)
    ensures r <= |s|
  {
    if s == [] || s[0] == c then 0 else 1 + Find(s[1..], c)
  }

  /** The part of an alias name before its first underscore: the enclosing register. */
  function Prefix(name: string): string {
    name[..Find(name, '_')]
  }

  predicate IsIntrinsic(name: string) {
    "llvm." <= name
  }

  // ---------- execution ----------

  function Get(st: State, t: Temp): Bytes {
    if t in st.temps then st.temps[t] else []
  }

  function Gets(st: State, ts: seq<Temp>): seq<Bytes> {
    seq(|ts|, i requires 0 <= i < |ts| => Get(st, ts[i]))
  }

  function Set(st: State, t: Temp, v: Bytes): State {
    st.(temps := st.temps[t := v])
  }

  /** A flag slot is one byte, every other slot is eight. */
  function SlotWidth(key: string): nat {
    if key != [] && key[|key| - 1] == 'F' then 1 else 8
  }

  function SlotBytes(st: State, id: SlotId): (r: Bytes)
    ensures |r| == SlotWidth(id.key)
  {
    Slice(if id in st.slots then st.slots[id] else [], 0, SlotWidth(id.key))
  }

  function Read(st: State, p: Ptr, width: nat): Bytes {
    match p
    case Global(a) => Slice(st.regs, a.off, width)
    case Local(id) => Slice(SlotBytes(st, id), 0, width)
  }

  function Write(st: State, p: Ptr, v: Bytes): State {
    match p
    case Global(a) => st.(regs := Splice(st.regs, a.off, v))
    case Local(id) => st.(slots := st.slots[id := Splice(SlotBytes(st, id), 0, v)])
  }

  function Exec(env: Env, inst: Inst, st: State): State {
    match inst
    case Load(dst, p, w) => Set(st, dst, Read(st, p, w))
    case Store(p, w, src) => Write(st, p, Slice(Get(st, src), 0, w))
    case Other(dst, opcode, args) =>
      var e := env.other(opcode, Gets(st, args), st.mem);
      Set(st, dst, e.value).(mem := e.mem)
    case Call(dst, callee, args) =>
      var vs := Gets(st, args);
      if callee.Direct? && IsIntrinsic(callee.name) then
        var e := env.intrinsic(callee, vs, st.mem);
        Set(st, dst, e.value).(mem := e.mem)
      else
        var e := env.call(callee, vs, st.regs, st.mem, st.trace);
        var regs := Slice(e.regs, 0, |st.regs|);
        Set(st, dst, e.value).(
          regs := regs, mem := e.mem, trace := st.trace + [Event(callee, vs, st.regs, regs)])
  }

  function ExecAll(env: Env, insts: seq<Inst>, st: State): State {
    if insts == [] then st else ExecAll(env, insts[1..], Exec(env, insts[0], st))
  }

  lemma {:induction false} ExecAllConcat(env: Env, a: seq<Inst>, b: seq<Inst>, st: State)
    ensures ExecAll(env, a + b, st) == ExecAll(env, b, ExecAll(env, a, st))
    decreases |a|
  {
    if a == [] {
      assert a + b == b;
    } else {
      assert (a + b)[1..] == a[1..] + b;
      ExecAllConcat(env, a[1..], b, Exec(env, a[0], st));
    }
  }

  lemma ExecAllOne(env: Env, a: Inst, st: State)
    ensures ExecAll(env, [a], st) == Exec(env, a, st)
  {
    assert [a][1..] == [];
  }

  lemma ExecAllTwo(env: Env, a: Inst, b: Inst, st: State)
    ensures ExecAll(env, [a, b], st) == Exec(env, b, Exec(env, a, st))
  {
    assert [a, b][1..] == [b];
    assert [b][1..] == [];
    assert ExecAll(env, [b], Exec(env, a, st)) == Exec(env, b, Exec(env, a, st));
  }

  datatype Config = At(at: Label, st: State) | Halted(st: State)

  /** Where a block goes next; `Return` and an empty target list leave the function. */
  function Next(env: Env, term: Terminator, st: State): Config {
    if term.Jump? && term.targets != [] then
      At(term.targets[env.select(Get(st, term.cond)) % |term.targets|], st)
    else
      Halted(st)
  }

  function StepBlock(env: Env, f: Function, c: Config): Config {
    if c.Halted? then c
    else if c.at !in f.blocks then Halted(c.st)
    else
      var b := f.blocks[c.at];
      Next(env, b.term, ExecAll(env, b.insts, c.st))
  }

  /** The configuration after `n` blocks. */
  function Run(env: Env, f: Function, st: State, n: nat): Config {
    if n == 0 then At(f.entry, st) else StepBlock(env, f, Run(env, f, st, n - 1))
  }

  // ---------- equivalence of functions ----------

  /** What a caller, a callee or ordinary memory can tell apart: control flow, memory, the call
      trace and every virtual register of the lifted code after each block, and on leaving the
      function the register structure as well (inside a localised region its bytes are stale). */
  ghost predicate SameOutcome(c: Config, d: Config) {
    && (forall k: nat :: Get(c.st, Named(k)) == Get(d.st, Named(k)))
    && c.st.mem == d.st.mem
    && c.st.trace == d.st.trace
    && (if c.At? then d.At? && c.at == d.at else d.Halted? && c.st.regs == d.st.regs)
  }

  /** `g` does what `f` does from every state, in every environment, for every length of run. */
  ghost predicate Equivalent(f: Function, g: Function, size: nat) {
    forall env: Env, st: State, n: nat | |st.regs| == size ::
      SameOutcome(Run(env, f, st, n), Run(env, g, st, n))
  }

  lemma EquivalentTransitive(f: Function, g: Function, h: Function, size: nat)
    requires Equivalent(f, g, size) && Equivalent(g, h, size)
    ensures Equivalent(f, h, size)
  {
    forall env: Env, st: State, n: nat | |st.regs| == size
      ensures SameOutcome(Run(env, f, st, n), Run(env, h, st, n))
    {
      assert SameOutcome(Run(env, f, st, n), Run(env, g, st, n));
      assert SameOutcome(Run(env, g, st, n), Run(env, h, st, n));
    }
  }
}
