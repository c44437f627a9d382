/** The fetch loop against a small processor of its own: what a compilation reads is what the
    processor executes and loads, up to where the block ends. */
module Execution {
  import opened CodeCoverage
  import opened JitCache
  import opened FetchLoop
  import opened Arm7
  import opened Options
  import opened Processor

  /** The program counter and R14. */
  datatype Proc = Proc(pc: nat, lr: nat)

  function Mod32(n: int): nat { n % 0x1_0000_0000 }

  function Behind(s: Proc, thumb: bool): nat { Mod32(s.pc + Width(thumb)) }

  /** One instruction: BL puts the address behind it into R14 and jumps, BX LR jumps to R14, B jumps.
      Of the others only those that may write R15 or R14 change them, to anything. */
  predicate Executes(w: int, thumb: bool, s: Proc, t: Proc) {
    match JumpOf(w, thumb)
    case Some(j) =>
      || t == Proc(Mod32(s.pc + j.distance), if j.links then Mod32(s.pc + 4) else s.lr)
      || (Conditional(w, thumb) && t == Proc(Behind(s, thumb), s.lr))
    case None =>
      if IsReturn(w, thumb) then
        t == Proc(s.lr, s.lr) || (Conditional(w, thumb) && t == Proc(Behind(s, thumb), s.lr))
      else
        (!Branches(w, thumb) ==> t.pc == Behind(s, thumb)) && (!WritesLink(w, thumb) ==> t.lr == s.lr)
  }

  /** Main memory is at 0x02000000 and repeats every 4 MiB; in the local addresses it is region 4. */
  function CodeAt(pc: nat, thumb: bool): Place {
    Place(false, if pc / 0x100_0000 == 2 then 0x2000_0000 + pc % 0x40_0000 else 0, if thumb then 2 else 4)
  }

  /** The instruction at an address, its first byte the least significant. */
  function InstrAt(mem: Memory, pc: nat, thumb: bool): int {
    var a := CodeAt(pc, thumb).addr;
    var b0: int, b1: int, b2: int, b3: int := mem(a), mem(a + 1), mem(a + 2), mem(a + 3);
    if thumb then b0 + 0x100 * b1 else b0 + 0x100 * b1 + 0x1_0000 * b2 + 0x100_0000 * b3
  }

  lemma InstrIsWord(mem: Memory, pc: nat, thumb: bool)
    ensures InstrAt(mem, pc, thumb) == Word(BytesAt(mem, CodeAt(pc, thumb)), thumb) >= 0
  {
  }

  /** The processor from instruction to instruction, while the block is fetched. */
  type Trace = nat -> Proc

  predicate Taken(run: Trace, k: nat, thumb: bool) { run(k + 1).pc != Behind(run(k), thumb) }

  ghost predicate IsExecution(thumb: bool, mem: Memory, cpu: Cpu, run: Trace) {
    forall k: nat :: IsStep(thumb, mem, cpu, run, k)
  }

  ghost predicate IsStep(thumb: bool, mem: Memory, cpu: Cpu, run: Trace, k: nat) {
    && Executes(InstrAt(mem, run(k).pc, thumb), thumb, run(k), run(k + 1))
    && (cpu.outcome(k).branched <==> Taken(run, k, thumb))
  }

  /** The program counter is two instructions ahead, and a multiple of four for loads. */
  function Loaded(pc: nat, thumb: bool, distance: int): nat {
    Mod32((if thumb then pc + 4 - (pc + 4) % 4 else pc + 8) + distance)
  }

  /** What n instructions from the k-th on are fetched from, with the words their loads read. */
  function ReadsOf(thumb: bool, literals: bool, mem: Memory, run: Trace, k: nat, n: nat): seq<Place>
    decreases n
  {
    if n == 0 then []
    else
      var load := if literals then LoadOf(InstrAt(mem, run(k).pc, thumb), thumb) else None;
      var words := if load.None? then []
                   else
                     var a := Loaded(run(k).pc, thumb, load.value);
                     [Place(true, CodeAt(a - a % 4, thumb).addr, 4)];
      [CodeAt(run(k).pc, thumb)] + words + ReadsOf(thumb, literals, mem, run, k + 1, n - 1)
  }

  /** Where the straight piece of code before the k-th instruction begins. */
  function PieceStart(run: Trace, k: nat, thumb: bool): nat {
    if k == 0 then run(0).pc else if Taken(run, k - 1, thumb) then run(k).pc else PieceStart(run, k - 1, thumb)
  }

  /** A call was the last instruction before the k-th that may have written R14. */
  function KnowsLink(mem: Memory, run: Trace, k: nat, thumb: bool): bool {
    if k == 0 then false
    else
      var w := InstrAt(mem, run(k - 1).pc, thumb);
      if JumpOf(w, thumb).Some? && JumpOf(w, thumb).value.links && Taken(run, k - 1, thumb) then true
      else !WritesLink(w, thumb) && KnowsLink(mem, run, k - 1, thumb)
  }

  /** Behind an instruction that may branch the block goes on if it did and its target is static, is
      not the branch itself and does not look like an idle loop, or if it did not although it could. */
  predicate GoesOnBehind(mem: Memory, run: Trace, k: nat, thumb: bool) {
    var w, s, t := InstrAt(mem, run(k).pc, thumb), run(k), run(k + 1);
    if Taken(run, k, thumb) then
      && (JumpOf(w, thumb).Some? || (IsReturn(w, thumb) && KnowsLink(mem, run, k, thumb)))
      && !(Conditional(w, thumb) && PieceStart(run, k, thumb) <= t.pc < s.pc) && !(k > 0 && t.pc == s.pc)
    else Conditional(w, thumb)
  }

  /** The block ends with the k-th instruction. */
  predicate EndsAt(max: int, branches: bool, mem: Memory, cpu: Cpu, run: Trace, k: nat) {
    var w := InstrAt(mem, run(k).pc, cpu.thumb);
    || cpu.outcome(k).stops
    || k + 1 >= (if max < 1 then 1 else if max > 32 then 32 else max)
    || ((Branches(w, cpu.thumb) || Waits(w, cpu.thumb)) &&
        !(branches && Branches(w, cpu.thumb) && GoesOnBehind(mem, run, k, cpu.thumb)))
  }

  // ---- the loop stays with the processor

  /** The loop is where the processor is, and what it remembers is in R14. */
  predicate With(l: Loop, mem: Memory, run: Trace, k: nat, thumb: bool) {
    var s := run(k);
    && l.addr == s.pc < 0x1_0000_0000 && s.pc % Width(thumb) == 0
    && l.index == k && l.segment == PieceStart(run, k, thumb)
    && (l.link.Some? <==> KnowsLink(mem, run, k, thumb))
    && (l.link.Some? ==> l.link.value == s.lr < 0x1_0000_0000 && s.lr % Width(thumb) == 0)
  }

  lemma SameMod(a: nat, d: int)
    ensures Mod32(a + d) == Wrap(a + d) < 0x1_0000_0000
  {
  }

  lemma NextAligned(s: Proc, thumb: bool)
    requires s.pc % Width(thumb) == 0
    ensures Behind(s, thumb) == Wrap(s.pc + Width(thumb)) < 0x1_0000_0000 && Behind(s, thumb) % Width(thumb) == 0
    ensures Mod32(s.pc + 4) == Wrap(s.pc + 4) < 0x1_0000_0000 && Wrap(s.pc + 4) % Width(thumb) == 0
  {
    WrapAligned(s.pc, Width(thumb), Width(thumb));
    WrapAligned(s.pc, 4, Width(thumb));
  }

  lemma TargetAligned(s: Proc, w: int, thumb: bool)
    requires s.pc % Width(thumb) == 0 && JumpOf(w, thumb).Some?
    ensures var t := Mod32(s.pc + JumpOf(w, thumb).value.distance);
      t == Wrap(s.pc + JumpOf(w, thumb).value.distance) < 0x1_0000_0000 && t % Width(thumb) == 0
  {
    JumpAligned(w, thumb);
    WrapAligned(s.pc, JumpOf(w, thumb).value.distance, Width(thumb));
  }

  /** A turn is the last one exactly where the block ends. */
  lemma TurnEnds(core: Core, max: int, branches: bool, literals: bool, mem: Memory, cpu: Cpu, run: Trace, l: Loop,
                 k: nat)
    requires core == Arm7Core(max, branches, literals) && k < Limit(core)
    requires With(l, mem, run, k, cpu.thumb) && IsStep(cpu.thumb, mem, cpu, run, k)
    ensures var cfg, out := Config(core, cpu.thumb), cpu.outcome(k);
      GoesOn(cfg, TakeTurn(cfg, l, BytesAt(mem, CodeAt(run(k).pc, cpu.thumb)), out), out)
      <==> !EndsAt(max, branches, mem, cpu, run, k)
  {
    hide Decode, JumpOf, IsReturn, Word, Wrap, Mod32, WritesLink, Branches, Waits, Conditional, BytesAt, CodeAt,
      InstrAt;
    var thumb := cpu.thumb;
    var b := BytesAt(mem, CodeAt(run(k).pc, thumb));
    CodeSize(run(k).pc, thumb);
    InstrIsWord(mem, run(k).pc, thumb);
    DecodeAgrees(thumb, b, l.before);
    NextAligned(run(k), thumb);
    JumpsWrite(Word(b, thumb), thumb);
    if JumpOf(Word(b, thumb), thumb).Some? {
      TargetAligned(run(k), Word(b, thumb), thumb);
    }
  }

  lemma CodeSize(pc: nat, thumb: bool)
    ensures CodeAt(pc, thumb).size == Width(thumb)
  {
  }

  /** If it is not, the loop is with the processor again. */
  lemma TurnStaysWith(core: Core, max: int, branches: bool, literals: bool, mem: Memory, cpu: Cpu, run: Trace, l: Loop,
                      k: nat)
    requires core == Arm7Core(max, branches, literals) && k < Limit(core)
    requires With(l, mem, run, k, cpu.thumb) && IsStep(cpu.thumb, mem, cpu, run, k)
    ensures var cfg, out := Config(core, cpu.thumb), cpu.outcome(k);
      var turn := TakeTurn(cfg, l, BytesAt(mem, CodeAt(run(k).pc, cpu.thumb)), out);
      GoesOn(cfg, turn, out) ==> With(turn.next, mem, run, k + 1, cpu.thumb)
  {
    hide Decode, JumpOf, IsReturn, Word, Wrap, Mod32, WritesLink, Branches, Waits, Conditional, BytesAt, CodeAt,
      InstrAt;
    var thumb := cpu.thumb;
    var b := BytesAt(mem, CodeAt(run(k).pc, thumb));
    CodeSize(run(k).pc, thumb);
    InstrIsWord(mem, run(k).pc, thumb);
    DecodeAgrees(thumb, b, l.before);
    NextAligned(run(k), thumb);
    JumpsWrite(Word(b, thumb), thumb);
    if JumpOf(Word(b, thumb), thumb).Some? {
      TargetAligned(run(k), Word(b, thumb), thumb);
    }
  }

  lemma CodeIsThere(core: Core, max: int, branches: bool, literals: bool, thumb: bool, pc: nat)
    requires core == Arm7Core(max, branches, literals)
    ensures InstrPlace(Config(core, thumb), pc) == CodeAt(pc, thumb)
  {
  }

  /** One turn reads what its instruction is fetched from and loads. */
  lemma TurnReads(core: Core, max: int, branches: bool, literals: bool, thumb: bool, mem: Memory, run: Trace, l: Loop,
                  out: Outcome, k: nat)
    requires core == Arm7Core(max, branches, literals) && l.addr == run(k).pc
    ensures var cfg, p := Config(core, thumb), CodeAt(run(k).pc, thumb);
      [p] + Literals(cfg, l.addr, TakeTurn(cfg, l, BytesAt(mem, p), out)) == ReadsOf(thumb, literals, mem, run, k, 1)
  {
    hide Decode, LoadOf, Word, BytesAt, InstrAt;
    var p := CodeAt(run(k).pc, thumb);
    InstrIsWord(mem, run(k).pc, thumb);
    LoadAgrees(thumb, BytesAt(mem, p), l.before);
    var load := if literals then LoadOf(Word(BytesAt(mem, p), thumb), thumb) else None;
    if load.Some? {
      SameMod(if thumb then l.addr + 4 - (l.addr + 4) % 4 else l.addr + 8, load.value);
    }
    assert ReadsOf(thumb, literals, mem, run, k + 1, 0) == [];
  }

  lemma ReadsSplit(thumb: bool, literals: bool, mem: Memory, run: Trace, k: nat, n: nat)
    ensures ReadsOf(thumb, literals, mem, run, k, n + 1)
      == ReadsOf(thumb, literals, mem, run, k, 1) + ReadsOf(thumb, literals, mem, run, k + 1, n)
  {
    assert ReadsOf(thumb, literals, mem, run, k + 1, 0) == [];
  }

  lemma {:induction false} FetchesFrom(cfg: Config, max: int, branches: bool, literals: bool, mem: Memory, cpu: Cpu,
                                       run: Trace, l: Loop, k: nat)
    returns (n: nat)
    requires cfg == Config(Arm7Core(max, branches, literals), cpu.thumb) && l.index < Limit(cfg.core)
    requires IsExecution(cfg.thumb, mem, cpu, run) && With(l, mem, run, k, cfg.thumb)
    ensures n > 0 && PlacesFrom(cfg, mem, cpu, l, k) == ReadsOf(cfg.thumb, literals, mem, run, k, n)
    ensures forall m: nat | k <= m < k + n :: EndsAt(max, branches, mem, cpu, run, m) <==> m == k + n - 1
    decreases Rank(cfg, l)
  {
    hide TakeTurn, Executes, BytesAt, InstrAt, InstrPlace, CodeAt, ReadsOf, EndsAt, Limit;
    var p := CodeAt(run(k).pc, cfg.thumb);
    var out := cpu.outcome(k);
    CodeIsThere(cfg.core, max, branches, literals, cfg.thumb, l.addr);
    assert IsStep(cfg.thumb, mem, cpu, run, k);
    TurnReads(cfg.core, max, branches, literals, cfg.thumb, mem, run, l, out, k);
    TurnEnds(cfg.core, max, branches, literals, mem, cpu, run, l, k);
    TurnStaysWith(cfg.core, max, branches, literals, mem, cpu, run, l, k);
    hide With, IsStep, IsExecution;
    var t := TakeTurn(cfg, l, BytesAt(mem, p), out);
    TurnAdvances(cfg, l, BytesAt(mem, p), out);
    if GoesOn(cfg, t, out) {
      n := FetchesFrom(cfg, max, branches, literals, mem, cpu, run, t.next, k + 1);
      ReadsSplit(cfg.thumb, literals, mem, run, k, n);
      n := n + 1;
    } else {
      n := 1;
    }
  }

  /** The block has n instructions: its n-th is the first that ends it. */
  ghost predicate HasLength(max: int, branches: bool, mem: Memory, cpu: Cpu, run: Trace, n: nat) {
    n > 0 && forall k: nat | k < n :: EndsAt(max, branches, mem, cpu, run, k) <==> k == n - 1
  }

  /** The fetch loop of the ARM7, on any memory and for any execution from the start of the block:
      what it reads is what the instructions are fetched from and load, jumps, calls and returns
      included, up to the first that ends the block. */
  method FetchExecuted(max: int, branches: bool, literals: bool, start: nat, mem: Memory, cpu: Cpu, ghost run: Trace)
    returns (places: seq<Place>)
    requires start < 0x1_0000_0000 && start % Width(cpu.thumb) == 0
    requires IsExecution(cpu.thumb, mem, cpu, run) && run(0).pc == start
    ensures exists n: nat ::
      HasLength(max, branches, mem, cpu, run, n) && places == ReadsOf(cpu.thumb, literals, mem, run, 0, n)
  {
    hide PlacesFrom, IsExecution, ReadsOf, EndsAt;
    var cfg := Config(Arm7Core(max, branches, literals), cpu.thumb);
    places := FetchBlock(cfg, start, mem, cpu);
    StartsWith(cfg, start, mem, run);
    ghost var n := FetchesFrom(cfg, max, branches, literals, mem, cpu, run, Begin(start), 0);
    assert HasLength(max, branches, mem, cpu, run, n);
  }

  lemma StartsWith(cfg: Config, start: nat, mem: Memory, run: Trace)
    requires start < 0x1_0000_0000 && start % Width(cfg.thumb) == 0 && run(0).pc == start
    ensures CodeAddress(cfg, start) == start && With(Begin(start), mem, run, 0, cfg.thumb)
  {
  }

  /** A call at i and the first return after it, R14 being unchanged in between, lead to the
      instruction behind the call. */
  lemma ReturnsBehindCall(mem: Memory, cpu: Cpu, run: Trace, i: nat, k: nat)
    requires IsExecution(false, mem, cpu, run) && i < k && Taken(run, i, false) && Taken(run, k, false)
    requires var w := InstrAt(mem, run(i).pc, false); JumpOf(w, false).Some? && JumpOf(w, false).value.links
    requires forall m | i < m < k :: run(m + 1).lr == run(m).lr
    requires IsReturn(InstrAt(mem, run(k).pc, false), false)
    ensures run(k + 1).pc == (run(i).pc + 4) % 0x1_0000_0000
  {
    hide JumpOf, IsReturn, InstrAt;
    assert IsStep(false, mem, cpu, run, i) && IsStep(false, mem, cpu, run, k);
    InstrIsWord(mem, run(k).pc, false);
    ReturnIsNoJump(InstrAt(mem, run(k).pc, false));
    KeepsLink(run, i + 1, k);
  }

  lemma {:induction false} KeepsLink(run: Trace, i: nat, k: nat)
    requires i <= k && forall m | i <= m < k :: run(m + 1).lr == run(m).lr
    ensures run(k).lr == run(i).lr
    decreases k - i
  {
    if i < k {
      KeepsLink(run, i + 1, k);
    }
  }
}
