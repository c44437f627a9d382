/** The native register allocator of the JIT. Compiling a block emits moves between the
    guest registers in memory and native registers; the instructions in between access a
    register natively when it is loaded and in memory otherwise. Register masks are modelled
    as sets of register numbers, an unmapped register as a key missing from the mapping. */
module RegisterCache {

  import opened InstrInfo

  /** The state of the CPU besides its registers. */
  datatype World = World(flags: int, memory: map<int, int>)

  datatype Effect = Effect(writes: map<nat, int>, world: World)

  /** One fetched instruction: its Info sets, whether it is conditional (an ARM condition
      below 0xE), whether the compiler handles it natively, and what it does. A followed
      conditional branch leaves the block when `leaves` holds of the flags it tests. */
  datatype Instr = Instr(src: set<nat>, dst: set<nat>, notStrictlyNeeded: set<nat>,
                         conditional: bool, canCompile: bool, effect: (seq<int>, World) -> Effect,
                         leaves: World -> bool)

  type Regs = s: seq<int> | |s| == 16 witness seq(16, _ => 0)

  ghost predicate AgreeOn(a: Regs, b: Regs, rs: set<nat>) {
    forall r | r in rs && r < PC :: a[r] == b[r]
  }

  /** The effect depends on the source registers only, writes destination registers only,
      and an unconditional instruction writes every destination it does not also read. */
  ghost predicate RespectsInfo(i: Instr) {
    && (forall a: Regs, b: Regs, w :: AgreeOn(a, b, i.src) ==> i.effect(a, w) == i.effect(b, w))
    && (forall a: Regs, w :: i.effect(a, w).writes.Keys <= i.dst)
    && (!i.conditional ==> forall a: Regs, w :: i.dst - i.src - {PC} <= i.effect(a, w).writes.Keys)
  }

  predicate Below16(rs: set<nat>) { forall r | r in rs :: r < 16 }

  ghost predicate WellFormed(i: Instr) {
    && Below16(i.src) && Below16(i.dst)
    && i.notStrictlyNeeded <= i.src + i.dst
    && RespectsInfo(i)
  }

  // ---- direct execution

  datatype Direct =
    | Running(regs: Regs, world: World)
    | Left(regs: Regs, world: World, at: nat)

  function Written(regs: Regs, writes: map<nat, int>): Regs {
    seq(16, r requires 0 <= r < 16 => if r in writes then writes[r] else regs[r])
  }

  function DirectStep(instr: Instr, at: nat, d: Direct): Direct {
    match d
    case Left(_, _, _) => d
    case Running(regs, world) =>
      var e := instr.effect(regs, world);
      if instr.leaves(world) then Left(Written(regs, e.writes), e.world, at)
      else Running(Written(regs, e.writes), e.world)
  }

  function RunDirect(instrs: seq<Instr>, n: nat, d: Direct): Direct
    requires n <= |instrs|
  {
    if n == 0 then d else DirectStep(instrs[n - 1], n - 1, RunDirect(instrs, n - 1, d))
  }

  // ---- the emitted code

  datatype Op =
    | Save(reg: nat, native: nat)
    | Load(reg: nat, native: nat)
    | Execute(at: nat, mapping: map<nat, nat>, exitSaves: seq<(nat, nat)>)
    | Interpret(at: nat)

  datatype Machine = Machine(regs: Regs, native: map<nat, int>, world: World)

  datatype Exec =
    | Going(m: Machine)
    | Gone(m: Machine, at: nat)

  function Native(m: Machine, n: nat): int { if n in m.native then m.native[n] else 0 }

  /** Where an instruction finds its operands. */
  function View(m: Machine, mapping: map<nat, nat>): Regs {
    seq(16, r requires 0 <= r < 16 => if r in mapping then Native(m, mapping[r]) else m.regs[r])
  }

  /** An instruction writes each result to the native register when the guest register is
      loaded, and to memory otherwise. */
  ghost function Store(m: Machine, mapping: map<nat, nat>, writes: map<nat, int>): Machine {
    Machine(Written(m.regs, writes - mapping.Keys),
            map n | n in m.native.Keys + mapping.Values ::
              if exists r | r in writes :: r in mapping && mapping[r] == n
              then (var r :| r in writes && r in mapping && mapping[r] == n; writes[r])
              else Native(m, n),
            m.world)
  }

  function SaveReg(m: Machine, reg: nat, native: nat): Machine {
    if reg < 16 then m.(regs := m.regs[reg := Native(m, native)]) else m
  }

  function SaveAll(m: Machine, saves: seq<(nat, nat)>): Machine {
    if saves == [] then m
    else SaveReg(SaveAll(m, saves[..|saves| - 1]), saves[|saves| - 1].0, saves[|saves| - 1].1)
  }

  ghost function Perform(instr: Instr, m: Machine, mapping: map<nat, nat>): Machine {
    var e := instr.effect(View(m, mapping), m.world);
    Store(m, mapping, e.writes).(world := e.world)
  }

  ghost function Step(instrs: seq<Instr>, op: Op, s: Exec): Exec {
    match s
    case Gone(_, _) => s
    case Going(m) =>
      match op
      case Save(reg, native) => Going(SaveReg(m, reg, native))
      case Load(reg, native) =>
        Going(if reg < 16 then m.(native := m.native[native := m.regs[reg]]) else m)
      case Execute(at, mapping, exitSaves) =>
        if at >= |instrs| then s
        else if instrs[at].leaves(m.world) then Gone(SaveAll(Perform(instrs[at], m, mapping), exitSaves), at)
        else Going(Perform(instrs[at], m, mapping))
      case Interpret(at) =>
        if at >= |instrs| then s
        else if instrs[at].leaves(m.world) then Gone(Perform(instrs[at], m, map[]), at)
        else Going(Perform(instrs[at], m, map[]))
  }

  ghost function RunOps(instrs: seq<Instr>, ops: seq<Op>, s: Exec): Exec {
    if ops == [] then s
    else Step(instrs, ops[|ops| - 1], RunOps(instrs, ops[..|ops| - 1], s))
  }

  lemma RunOpsSnoc(instrs: seq<Instr>, ops: seq<Op>, op: Op, s: Exec)
    ensures RunOps(instrs, ops + [op], s) == Step(instrs, op, RunOps(instrs, ops, s))
  {
    assert (ops + [op])[..|ops|] == ops;
  }

  // ---- the simulation relation

  /** What the allocator believes: where each loaded register lives and which loaded
      registers are newer than memory. */
  datatype Alloc = Alloc(mapping: map<nat, nat>, dirty: set<nat>)

  /** Outside `junk` a loaded register holds the value of direct execution, and memory does
      unless the register is dirty. */
  ghost predicate Holds(a: Alloc, m: Machine, regs: Regs, junk: set<nat>) {
    forall r: nat | r < PC && r !in junk ::
      && (r in a.mapping ==> Native(m, a.mapping[r]) == regs[r])
      && (r !in a.dirty ==> m.regs[r] == regs[r])
  }

  ghost predicate SameMemory(m: Machine, regs: Regs) {
    forall r: nat | r < PC :: m.regs[r] == regs[r]
  }

  ghost predicate Refines(a: Alloc, s: Exec, d: Direct, junk: set<nat>) {
    match d
    case Running(regs, world) => s.Going? && s.m.world == world && Holds(a, s.m, regs, junk)
    case Left(regs, world, at) => s.Gone? && s.m.world == world && s.at == at && SameMemory(s.m, regs)
  }

  predicate Injective(m: map<nat, nat>) {
    forall r, r' | r in m && r' in m && m[r] == m[r'] :: r == r'
  }

  /** From whatever machine the block starts on, the code emitted so far leaves a machine
      that refines direct execution of the first n instructions. */
  ghost predicate SimulatesDirect(instrs: seq<Instr>, a: Alloc, code: seq<Op>, n: nat, junk: set<nat>)
    requires n <= |instrs|
  {
    forall m: Machine ::
      Refines(a, RunOps(instrs, code, Going(m)), RunDirect(instrs, n, Running(m.regs, m.world)), junk)
  }

  lemma SaveRefines(instrs: seq<Instr>, a: Alloc, s: Exec, d: Direct, junk: set<nat>, r: nat)
    requires Refines(a, s, d, junk) && r in a.mapping && r < 16 && r !in junk
    ensures Refines(a.(dirty := a.dirty - {r}), Step(instrs, Save(r, a.mapping[r]), s), d, junk)
  {
  }

  lemma LoadRefines(instrs: seq<Instr>, a: Alloc, s: Exec, d: Direct, junk: set<nat>, r: nat, n: nat)
    requires Refines(a, s, d, junk) && r !in a.mapping && r !in a.dirty && r < 16 && n !in a.mapping.Values
    ensures Refines(a.(mapping := a.mapping[r := n]), Step(instrs, Load(r, n), s), d, junk)
  {
    if s.Going? {
      forall q | q in a.mapping ensures a.mapping[q] != n {
        assert a.mapping[q] in a.mapping.Values;
      }
    }
  }

  lemma UnloadSimulates(instrs: seq<Instr>, a: Alloc, code: seq<Op>, n: nat, junk: set<nat>, r: nat)
    requires n <= |instrs| && SimulatesDirect(instrs, a, code, n, junk)
    requires r in a.mapping && r < 16 && r !in junk
    ensures var saved := if r in a.dirty then [Save(r, a.mapping[r])] else [];
      SimulatesDirect(instrs, Alloc(a.mapping - {r}, a.dirty - {r}), code + saved, n, junk)
  {
    var b := Alloc(a.mapping - {r}, a.dirty - {r});
    var saved := if r in a.dirty then [Save(r, a.mapping[r])] else [];
    forall m: Machine
      ensures Refines(b, RunOps(instrs, code + saved, Going(m)), RunDirect(instrs, n, Running(m.regs, m.world)), junk)
    {
      var s, d := RunOps(instrs, code, Going(m)), RunDirect(instrs, n, Running(m.regs, m.world));
      assert Refines(a, s, d, junk);
      if r in a.dirty {
        RunOpsSnoc(instrs, code, Save(r, a.mapping[r]), Going(m));
        SaveRefines(instrs, a, s, d, junk, r);
      } else {
        assert code + saved == code;
      }
    }
  }

  lemma LoadSimulates(instrs: seq<Instr>, a: Alloc, code: seq<Op>, n: nat, junk: set<nat>, r: nat, native: nat,
                      loadValue: bool)
    requires n <= |instrs| && SimulatesDirect(instrs, a, code, n, junk)
    requires r !in a.mapping && r !in a.dirty && r < 16 && native !in a.mapping.Values
    ensures var loaded := if loadValue then [Load(r, native)] else [];
      SimulatesDirect(instrs, a.(mapping := a.mapping[r := native]), code + loaded, n,
                      if loadValue then junk else junk + {r})
  {
    var b := a.(mapping := a.mapping[r := native]);
    var loaded := if loadValue then [Load(r, native)] else [];
    forall m: Machine
      ensures Refines(b, RunOps(instrs, code + loaded, Going(m)), RunDirect(instrs, n, Running(m.regs, m.world)),
                      if loadValue then junk else junk + {r})
    {
      var s, d := RunOps(instrs, code, Going(m)), RunDirect(instrs, n, Running(m.regs, m.world));
      assert Refines(a, s, d, junk);
      if loadValue {
        RunOpsSnoc(instrs, code, Load(r, native), Going(m));
        LoadRefines(instrs, a, s, d, junk, r, native);
      } else {
        assert code + loaded == code;
      }
    }
  }

  lemma StoreReads(m: Machine, mapping: map<nat, nat>, writes: map<nat, int>, r: nat)
    requires Injective(mapping) && r < 16
    ensures r in mapping ==>
      Native(Store(m, mapping, writes), mapping[r]) == if r in writes then writes[r] else Native(m, mapping[r])
    ensures r !in mapping ==> Store(m, mapping, writes).regs[r] == if r in writes then writes[r] else m.regs[r]
    ensures r in mapping ==> Store(m, mapping, writes).regs[r] == m.regs[r]
  {
    if r in mapping {
      assert mapping[r] in mapping.Values;
      forall q | q in writes && q in mapping && mapping[q] == mapping[r] ensures q == r {
      }
    }
  }

  /** Executing an instruction on the right operands, with every loaded destination marked
      dirty and every unknown register overwritten, reproduces direct execution. */
  lemma PerformHolds(instr: Instr, a: Alloc, m: Machine, regs: Regs, junk: set<nat>)
    requires WellFormed(instr) && Injective(a.mapping) && Holds(a, m, regs, junk)
    requires (a.mapping.Keys * instr.dst) - {PC} <= a.dirty <= a.mapping.Keys
    requires junk <= instr.dst - instr.src
    requires instr.conditional ==> junk == {}
    ensures var e := instr.effect(regs, m.world);
      var m' := Perform(instr, m, a.mapping);
      m'.world == e.world && Holds(a, m', Written(regs, e.writes), {})
  {
    var v := View(m, a.mapping);
    assert AgreeOn(v, regs, instr.src);
    var e := instr.effect(regs, m.world);
    assert instr.effect(v, m.world) == e;
    forall r: nat | r < PC
      ensures r in a.mapping ==> Native(Perform(instr, m, a.mapping), a.mapping[r]) == Written(regs, e.writes)[r]
      ensures r !in a.dirty ==> Perform(instr, m, a.mapping).regs[r] == Written(regs, e.writes)[r]
    {
      StoreReads(m, a.mapping, e.writes, r);
    }
  }

  function SavedRegs(saves: seq<(nat, nat)>): set<nat> {
    if saves == [] then {} else SavedRegs(saves[..|saves| - 1]) + {saves[|saves| - 1].0}
  }

  predicate SavesFrom(saves: seq<(nat, nat)>, mapping: map<nat, nat>) {
    forall i | 0 <= i < |saves| :: saves[i].0 in mapping && saves[i].0 < 16 && saves[i].1 == mapping[saves[i].0]
  }

  lemma {:induction false} SaveAllHolds(a: Alloc, m: Machine, regs: Regs, saves: seq<(nat, nat)>)
    requires Holds(a, m, regs, {}) && SavesFrom(saves, a.mapping)
    ensures Holds(a.(dirty := a.dirty - SavedRegs(saves)), SaveAll(m, saves), regs, {})
    ensures SaveAll(m, saves).world == m.world && SaveAll(m, saves).native == m.native
  {
    if saves != [] {
      SaveAllHolds(a, m, regs, saves[..|saves| - 1]);
    }
  }

  lemma DirtierSimulates(instrs: seq<Instr>, a: Alloc, code: seq<Op>, n: nat, junk: set<nat>, more: set<nat>)
    requires n <= |instrs| && SimulatesDirect(instrs, a, code, n, junk)
    ensures SimulatesDirect(instrs, a.(dirty := a.dirty + more), code, n, junk)
  {
    forall m: Machine
      ensures Refines(a.(dirty := a.dirty + more), RunOps(instrs, code, Going(m)),
                      RunDirect(instrs, n, Running(m.regs, m.world)), junk)
    {
      assert Refines(a, RunOps(instrs, code, Going(m)), RunDirect(instrs, n, Running(m.regs, m.world)), junk);
    }
  }

  lemma ExecuteRefines(instrs: seq<Instr>, a: Alloc, s: Exec, d: Direct, junk: set<nat>, at: nat,
                       saves: seq<(nat, nat)>)
    requires at < |instrs| && WellFormed(instrs[at]) && Injective(a.mapping)
    requires Refines(a, s, d, junk)
    requires (a.mapping.Keys * instrs[at].dst) - {PC} <= a.dirty <= a.mapping.Keys
    requires junk <= instrs[at].dst - instrs[at].src && (instrs[at].conditional ==> junk == {})
    requires SavesFrom(saves, a.mapping) && SavedRegs(saves) == a.dirty
    ensures Refines(a, Step(instrs, Execute(at, a.mapping, saves), s), DirectStep(instrs[at], at, d), {})
  {
    if s.Going? {
      PerformHolds(instrs[at], a, s.m, d.regs, junk);
      var m' := Perform(instrs[at], s.m, a.mapping);
      var regs' := Written(d.regs, instrs[at].effect(d.regs, s.m.world).writes);
      SaveAllHolds(a, m', regs', saves);
    }
  }

  lemma ExecuteSimulates(instrs: seq<Instr>, a: Alloc, code: seq<Op>, junk: set<nat>, at: nat, saves: seq<(nat, nat)>)
    requires at < |instrs| && WellFormed(instrs[at]) && Injective(a.mapping)
    requires SimulatesDirect(instrs, a, code, at, junk)
    requires (a.mapping.Keys * instrs[at].dst) - {PC} <= a.dirty <= a.mapping.Keys
    requires junk <= instrs[at].dst - instrs[at].src && (instrs[at].conditional ==> junk == {})
    requires SavesFrom(saves, a.mapping) && SavedRegs(saves) == a.dirty
    ensures SimulatesDirect(instrs, a, code + [Execute(at, a.mapping, saves)], at + 1, {})
  {
    var op := Execute(at, a.mapping, saves);
    forall m: Machine
      ensures Refines(a, RunOps(instrs, code + [op], Going(m)), RunDirect(instrs, at + 1, Running(m.regs, m.world)), {})
    {
      var s, d := RunOps(instrs, code, Going(m)), RunDirect(instrs, at, Running(m.regs, m.world));
      assert Refines(a, s, d, junk);
      RunOpsSnoc(instrs, code, op, Going(m));
      ExecuteRefines(instrs, a, s, d, junk, at, saves);
    }
  }

  lemma InterpretRefines(instrs: seq<Instr>, s: Exec, d: Direct, at: nat)
    requires at < |instrs| && WellFormed(instrs[at]) && Refines(EMPTY, s, d, {})
    ensures Refines(EMPTY, Step(instrs, Interpret(at), s), DirectStep(instrs[at], at, d), {})
  {
    hide RespectsInfo, View, Store;
    if s.Going? {
      PerformHolds(instrs[at], EMPTY, s.m, d.regs, {});
    }
  }

  lemma InterpretSimulates(instrs: seq<Instr>, code: seq<Op>, at: nat)
    requires at < |instrs| && WellFormed(instrs[at])
    requires SimulatesDirect(instrs, EMPTY, code, at, {})
    ensures SimulatesDirect(instrs, EMPTY, code + [Interpret(at)], at + 1, {})
  {
    hide RespectsInfo, Step, DirectStep, Refines;
    forall m: Machine
      ensures Refines(EMPTY, RunOps(instrs, code + [Interpret(at)], Going(m)),
                      RunDirect(instrs, at + 1, Running(m.regs, m.world)), {})
    {
      var s, d := RunOps(instrs, code, Going(m)), RunDirect(instrs, at, Running(m.regs, m.world));
      RunOpsSnoc(instrs, code, Interpret(at), Going(m));
      InterpretRefines(instrs, s, d, at);
    }
  }

  const EMPTY := Alloc(map[], {})

  // ---- what the allocator decides

  predicate Distinct(s: seq<nat>) { forall i, j | 0 <= i < j < |s| :: s[i] != s[j] }

  /** Registers an instruction must find in native registers. */
  function Necessary(i: Instr, pcAllocatable: bool): set<nat> {
    ((if pcAllocatable then i.src else i.src - {PC}) + i.dst) - i.notStrictlyNeeded
  }

  function Uses(i: Instr): set<nat> { (i.src - {PC}) + i.dst }

  /** Registers used by some instruction from i on. */
  function FutureNeeded(instrs: seq<Instr>, i: nat): set<nat>
    requires i <= |instrs|
    decreases |instrs| - i
  {
    if i == |instrs| then {} else Uses(instrs[i]) + FutureNeeded(instrs, i + 1)
  }

  /** How many instructions from i on strictly need register r. */
  function Rank(instrs: seq<Instr>, i: nat, r: nat): (n: nat)
    requires i <= |instrs|
    ensures n <= |instrs| - i
    decreases |instrs| - i
  {
    if i == |instrs| then 0
    else (if r in Uses(instrs[i]) - instrs[i].notStrictlyNeeded then 1 else 0) + Rank(instrs, i + 1, r)
  }

  /** An instruction uses register r: it may write it, or reads it and it is not the program counter. */
  predicate UsedBy(i: Instr, r: nat) { r in i.dst || (r in i.src && r != 15) }

  lemma {:induction false} FutureNeededExactly(instrs: seq<Instr>, i: nat, r: nat)
    requires i <= |instrs|
    ensures r in FutureNeeded(instrs, i) <==> exists j | i <= j < |instrs| :: UsedBy(instrs[j], r)
    decreases |instrs| - i
  {
    if i < |instrs| {
      FutureNeededExactly(instrs, i + 1, r);
      assert r in Uses(instrs[i]) <==> UsedBy(instrs[i], r);
    }
  }

  /** The instructions from i on that use register r and strictly need it. */
  function StrictUses(instrs: seq<Instr>, i: nat, r: nat): set<nat> {
    set j: nat | i <= j < |instrs| && UsedBy(instrs[j], r) && r !in instrs[j].notStrictlyNeeded
  }

  lemma {:induction false} RankIsCount(instrs: seq<Instr>, i: nat, r: nat)
    requires i <= |instrs|
    ensures Rank(instrs, i, r) == |StrictUses(instrs, i, r)|
    decreases |instrs| - i
  {
    if i < |instrs| {
      RankIsCount(instrs, i + 1, r);
      var rest, used := StrictUses(instrs, i + 1, r), UsedBy(instrs[i], r) && r !in instrs[i].notStrictlyNeeded;
      assert StrictUses(instrs, i, r) == rest + if used then {i} else {};
      assert r in Uses(instrs[i]) <==> UsedBy(instrs[i], r);
    } else {
      assert StrictUses(instrs, i, r) == {};
    }
  }

  /** What must be native: all that is used, the program counter only where it can be, without what
      is not strictly needed. */
  lemma NecessaryExactly(i: Instr, pcAllocatable: bool, r: nat)
    ensures r in Necessary(i, pcAllocatable) <==>
      (UsedBy(i, r) || (pcAllocatable && r in i.src)) && r !in i.notStrictlyNeeded
  {
  }

  lemma SubsetSize(a: set<nat>, b: set<nat>)
    requires a <= b
    ensures |a| <= |b|
  {
    if a != {} {
      var x :| x in a;
      SubsetSize(a - {x}, b - {x});
    }
  }

  lemma VictimExists(loaded: set<nat>, necessary: set<nat>, needed: set<nat>)
    requires needed == necessary - loaded && |necessary| < |loaded| + |needed|
    ensures loaded - necessary != {}
  {
    assert loaded == loaded * necessary + (loaded - necessary);
    assert necessary == loaded * necessary + needed;
  }

  /** What was evicted is needed no more often than what could have been evicted instead. */
  predicate LeastNeededGone(ranking: seq<nat>, before: set<nat>, now: set<nat>, necessary: set<nat>) {
    forall e, k | e in before - now && k in now - necessary && e < |ranking| && k < |ranking| ::
      ranking[e] <= ranking[k]
  }

  lemma NothingGone(ranking: seq<nat>, loaded: set<nat>, necessary: set<nat>)
    ensures LeastNeededGone(ranking, loaded, loaded, necessary)
  {
  }

  lemma OneMoreGone(ranking: seq<nat>, before: set<nat>, now: set<nat>, necessary: set<nat>, victim: nat)
    requires LeastNeededGone(ranking, before, now, necessary) && victim in now - necessary && victim < |ranking|
    requires forall r | r in now - necessary && r < |ranking| :: ranking[victim] <= ranking[r]
    ensures LeastNeededGone(ranking, before, now - {victim}, necessary)
  {
  }

  lemma RoomFor(loaded: set<nat>, needed: set<nat>, done: set<nat>, r: nat)
    requires (forall r | r in needed :: r !in loaded) && done <= needed && r in needed - done
    ensures |loaded + done| < |loaded| + |needed|
  {
    SubsetSize(done + {r}, needed);
  }

  lemma ValuesWithout(m: map<nat, nat>, r: nat)
    requires Injective(m) && r in m
    ensures (m - {r}).Values == m.Values - {m[r]}
  {
    var m' := m - {r};
    forall v | v in m.Values && v != m[r] ensures v in m'.Values {
      var k :| k in m && m[k] == v;
      assert k in m' && m'[k] == v;
    }
  }

  lemma ValuesWith(m: map<nat, nat>, r: nat, v: nat)
    requires r !in m
    ensures m[r := v].Values == m.Values + {v}
  {
    var m' := m[r := v];
    assert r in m' && m'[r] == v;
    forall w | w in m.Values ensures w in m'.Values {
      var k :| k in m && m[k] == w;
      assert k in m' && m'[k] == w;
    }
  }

  lemma InjectiveWith(m: map<nat, nat>, r: nat, v: nat)
    requires Injective(m) && r !in m && v !in m.Values
    ensures Injective(m[r := v])
  {
    assert forall k | k in m :: m[k] in m.Values;
  }

  /** An injective mapping into the native registers uses as many as it has keys. */
  lemma InjectiveSize(m: map<nat, nat>)
    requires Injective(m)
    ensures |m.Values| == |m.Keys|
  {
    if m.Keys == {} {
      assert m.Values == {};
    } else {
      var r :| r in m;
      ValuesWithout(m, r);
      InjectiveSize(m - {r});
      assert (m - {r}).Keys == m.Keys - {r};
      assert m[r] in m.Values;
    }
  }

  function Elements(s: seq<nat>): (e: set<nat>)
    ensures forall x :: x in e <==> x in s
  {
    if s == [] then {} else Elements(s[..|s| - 1]) + {s[|s| - 1]}
  }

  lemma {:induction false} DistinctSize(s: seq<nat>)
    requires Distinct(s)
    ensures |Elements(s)| == |s|
  {
    if s != [] {
      var n := |s| - 1;
      DistinctSize(s[..n]);
      assert s[n] !in s[..n];
    }
  }

  predicate Consistent(mapping: map<nat, nat>, used: set<nat>, loaded: set<nat>, dirty: set<nat>, order: seq<nat>) {
    && mapping.Keys == loaded && Below16(loaded)
    && Injective(mapping) && used == mapping.Values && used <= Elements(order)
    && dirty <= loaded && PC !in dirty
  }

  lemma ConsistentWith(mapping: map<nat, nat>, used: set<nat>, loaded: set<nat>, dirty: set<nat>, order: seq<nat>,
                       reg: nat, native: nat)
    requires Consistent(mapping, used, loaded, dirty, order)
    requires reg !in loaded && reg < 16 && native !in used && native in Elements(order)
    ensures Consistent(mapping[reg := native], used + {native}, loaded + {reg}, dirty, order)
  {
    hide Elements;
    ValuesWith(mapping, reg, native);
    InjectiveWith(mapping, reg, native);
  }

  class RegisterCache {
    const instrs: seq<Instr>
    const allocOrder: seq<nat>
    const pcAllocatable: bool
    var mapping: map<nat, nat>
    var nativeRegsUsed: set<nat>
    var loadedRegs: set<nat>
    var dirtyRegs: set<nat>
    var code: seq<Op>

    /** Mapping, LoadedRegs, NativeRegsUsed and DirtyRegs describe one injective assignment
        of loaded guest registers to allocatable native registers. */
    ghost predicate Valid()
      reads this
    {
      Distinct(allocOrder) && Consistent(mapping, nativeRegsUsed, loadedRegs, dirtyRegs, allocOrder)
    }

    ghost function Abs(): Alloc
      reads this
    {
      Alloc(mapping, dirtyRegs)
    }

    ghost predicate Simulates(n: nat, junk: set<nat>)
      requires n <= |instrs|
      reads this
    {
      SimulatesDirect(instrs, Abs(), code, n, junk)
    }

    constructor (instrs: seq<Instr>, allocOrder: seq<nat>, pcAllocatable: bool)
      requires Distinct(allocOrder)
      ensures Valid() && Simulates(0, {}) && loadedRegs == {}
      ensures this.instrs == instrs && this.allocOrder == allocOrder && this.pcAllocatable == pcAllocatable
    {
      this.instrs, this.allocOrder, this.pcAllocatable := instrs, allocOrder, pcAllocatable;
      mapping, nativeRegsUsed, loadedRegs, dirtyRegs, code := map[], {}, {}, {}, [];
    }

    method UnloadRegister(reg: nat, ghost n: nat, ghost junk: set<nat>)
      requires Valid() && n <= |instrs| && Simulates(n, junk)
      requires reg in loadedRegs && reg !in junk
      modifies this
      ensures Valid() && Simulates(n, junk)
      ensures loadedRegs == old(loadedRegs) - {reg}
    {
      UnloadSimulates(instrs, Abs(), code, n, junk, reg);
      ValuesWithout(mapping, reg);
      if reg in dirtyRegs {
        code := code + [Save(reg, mapping[reg])];
      } else {
        assert code + [] == code;
      }
      dirtyRegs := dirtyRegs - {reg};
      loadedRegs := loadedRegs - {reg};
      nativeRegsUsed := nativeRegsUsed - {mapping[reg]};
      mapping := mapping - {reg};
    }

    /** Finds a native register for reg. A register loaded without its value joins the junk
        until the instruction at hand has overwritten it. */
    method LoadRegister(reg: nat, loadValue: bool, ghost n: nat, ghost junk: set<nat>)
      requires Valid() && n <= |instrs| && Simulates(n, junk)
      requires reg !in loadedRegs && reg < 16 && |loadedRegs| < |allocOrder|
      modifies this
      ensures Valid() && Simulates(n, if loadValue then junk else junk + {reg})
      ensures loadedRegs == old(loadedRegs) + {reg} && dirtyRegs == old(dirtyRegs)
    {
      ghost var before := Abs();
      var nativeReg := AssignNative(reg);
      LoadSimulates(instrs, before, code, n, junk, reg, nativeReg, loadValue);
      if loadValue {
        code := code + [Load(reg, nativeReg)];
      } else {
        assert code + [] == code;
      }
    }

    method AssignNative(reg: nat) returns (nativeReg: nat)
      requires Valid() && reg !in loadedRegs && reg < 16 && |loadedRegs| < |allocOrder|
      modifies this`mapping, this`nativeRegsUsed, this`loadedRegs
      ensures Valid() && nativeReg !in old(mapping).Values
      ensures mapping == old(mapping)[reg := nativeReg] && loadedRegs == old(loadedRegs) + {reg}
    {
      nativeReg := FindFree();
      ConsistentWith(mapping, nativeRegsUsed, loadedRegs, dirtyRegs, allocOrder, reg, nativeReg);
      hide Consistent;
      mapping := mapping[reg := nativeReg];
      nativeRegsUsed := nativeRegsUsed + {nativeReg};
      loadedRegs := loadedRegs + {reg};
    }

    /** The search that ends in abort() when it finds nothing. */
    method FindFree() returns (nativeReg: nat)
      requires Valid() && |loadedRegs| < |allocOrder|
      ensures nativeReg in Elements(allocOrder) && nativeReg !in nativeRegsUsed
    {
      FreeRegisterExists();
      var i := 0;
      while allocOrder[i] in nativeRegsUsed
        invariant i < |allocOrder| && exists k | i <= k < |allocOrder| :: allocOrder[k] !in nativeRegsUsed
        decreases |allocOrder| - i
      {
        i := i + 1;
      }
      return allocOrder[i];
    }

    lemma FreeRegisterExists()
      requires Valid() && |loadedRegs| < |allocOrder|
      ensures exists k | 0 <= k < |allocOrder| :: allocOrder[k] !in nativeRegsUsed
    {
      InjectiveSize(mapping);
      DistinctSize(allocOrder);
      var all := Elements(allocOrder);
      assert |nativeRegsUsed| == |mapping.Keys|;
      if all <= nativeRegsUsed {
        SubsetSize(all, nativeRegsUsed);
      } else {
        var x :| x in all && x !in nativeRegsUsed;
        var k :| 0 <= k < |allocOrder| && allocOrder[k] == x;
      }
    }

    method UnloadAll(rs: set<nat>, ghost n: nat)
      requires Valid() && n <= |instrs| && Simulates(n, {}) && rs <= loadedRegs
      modifies this
      ensures Valid() && Simulates(n, {}) && loadedRegs == old(loadedRegs) - rs
    {
      ghost var done := {};
      for reg := 0 to 16
        invariant Valid() && Simulates(n, {})
        invariant done == set r | r in rs && r < reg
        invariant loadedRegs == old(loadedRegs) - done
      {
        if reg in rs {
          UnloadRegister(reg, n, {});
          done := done + {reg};
        }
      }
      assert done == rs;
    }

    method Flush(ghost n: nat)
      requires Valid() && n <= |instrs| && Simulates(n, {})
      modifies this
      ensures Valid() && Simulates(n, {}) && Abs() == EMPTY
    {
      UnloadAll(loadedRegs, n);
    }

    /** The stores that bring memory up to date where the block is left early; the
        allocation itself stays as it is for the code that follows. */
    method PrepareExit() returns (saves: seq<(nat, nat)>)
      requires Valid()
      ensures SavesFrom(saves, mapping) && SavedRegs(saves) == dirtyRegs
    {
      saves := [];
      for reg := 0 to 16
        invariant SavesFrom(saves, mapping)
        invariant SavedRegs(saves) == set r | r in dirtyRegs && r < reg
      {
        if reg in dirtyRegs {
          assert (saves + [(reg, mapping[reg])])[..|saves|] == saves;
          saves := saves + [(reg, mapping[reg])];
        }
      }
    }

    /** The scan over the rest of the block: what is used again, and how often. */
    method ScanUses(i: nat) returns (futureNeeded: set<nat>, ranking: seq<nat>)
      requires i <= |instrs|
      ensures futureNeeded == FutureNeeded(instrs, i)
      ensures |ranking| == 16 && forall r | 0 <= r < 16 :: ranking[r] == Rank(instrs, i, r)
    {
      futureNeeded := {};
      ranking := seq(16, _ => 0);
      var j := i;
      while j < |instrs|
        invariant i <= j <= |instrs|
        invariant |ranking| == 16
        invariant futureNeeded + FutureNeeded(instrs, j) == FutureNeeded(instrs, i)
        invariant forall r | 0 <= r < 16 :: ranking[r] + Rank(instrs, j, r) == Rank(instrs, i, r)
      {
        var needed := Uses(instrs[j]);
        futureNeeded := futureNeeded + needed;
        needed := needed - instrs[j].notStrictlyNeeded;
        for reg := 0 to 16
          invariant |ranking| == 16
          invariant forall r | 0 <= r < 16 ::
            ranking[r] + (if r < reg then 0 else if r in needed then 1 else 0) + Rank(instrs, j + 1, r) ==
              Rank(instrs, i, r)
        {
          if reg in needed {
            ranking := ranking[reg := ranking[reg] + 1];
          }
        }
        j := j + 1;
      }
    }

    /** The loaded register that is strictly needed least often among those the instruction
        does not need; the search relies on every rank being below 1000. */
    method ChooseVictim(necessary: set<nat>, ranking: seq<nat>) returns (leastReg: nat)
      requires Valid() && |ranking| == 16 && forall r | 0 <= r < 16 :: ranking[r] < 1000
      requires loadedRegs - necessary != {}
      ensures leastReg in loadedRegs - necessary && leastReg < 16
      ensures forall r | r in loadedRegs - necessary :: r < 16 && ranking[leastReg] <= ranking[r]
    {
      var found, rank := false, 1000;
      leastReg := 0;
      for reg := 0 to 16
        invariant !found ==> rank == 1000 && forall r | r in loadedRegs - necessary :: reg <= r
        invariant found ==> leastReg in loadedRegs - necessary && rank == ranking[leastReg]
        invariant forall r | r in loadedRegs - necessary && r < reg :: rank <= ranking[r]
      {
        if reg in loadedRegs && reg !in necessary && ranking[reg] < rank {
          found, leastReg, rank := true, reg, ranking[reg];
        }
      }
      assert found;
    }

    /** Eviction: there is always a victim, and afterwards the registers still to be loaded
        fit. */
    method MakeRoom(necessary: set<nat>, needed: set<nat>, ranking: seq<nat>, ghost n: nat)
      requires Valid() && n <= |instrs| && Simulates(n, {})
      requires |ranking| == 16 && forall r | 0 <= r < 16 :: ranking[r] < 1000
      requires needed == necessary - loadedRegs && |necessary| <= |allocOrder|
      modifies this
      ensures Valid() && Simulates(n, {})
      ensures |loadedRegs| + |needed| <= |allocOrder| && needed == necessary - loadedRegs
      ensures loadedRegs <= old(loadedRegs) &&
        (loadedRegs == old(loadedRegs) || |loadedRegs| + |needed| == |allocOrder|)
      ensures LeastNeededGone(ranking, old(loadedRegs), loadedRegs, necessary)
    {
      hide RegisterCache.Valid, RegisterCache.Simulates, LeastNeededGone;
      NothingGone(ranking, loadedRegs, necessary);
      while |loadedRegs| + |needed| > |allocOrder|
        invariant Valid() && Simulates(n, {}) && needed == necessary - loadedRegs
        invariant loadedRegs <= old(loadedRegs) &&
          (loadedRegs == old(loadedRegs) || |loadedRegs| + |needed| >= |allocOrder|)
        invariant LeastNeededGone(ranking, old(loadedRegs), loadedRegs, necessary)
        decreases |loadedRegs|
      {
        VictimExists(loadedRegs, necessary, needed);
        var victim := ChooseVictim(necessary, ranking);
        OneMoreGone(ranking, old(loadedRegs), loadedRegs, necessary, victim);
        UnloadRegister(victim, n, {});
      }
    }

    method LoadNeeded(instr: Instr, needed: set<nat>, ghost n: nat) returns (ghost junk: set<nat>)
      requires Valid() && n <= |instrs| && Simulates(n, {})
      requires (forall r | r in needed :: r !in loadedRegs) && Below16(needed) && needed <= instr.src + instr.dst
      requires |loadedRegs| + |needed| <= |allocOrder|
      modifies this
      ensures Valid() && Simulates(n, junk)
      ensures LoadedUpTo(old(loadedRegs), needed, 16) && dirtyRegs == old(dirtyRegs)
      ensures junk <= instr.dst - instr.src && (instr.conditional ==> junk == {})
    {
      junk := {};
      for reg := 0 to 16
        invariant Valid() && Simulates(n, junk)
        invariant LoadedUpTo(old(loadedRegs), needed, reg) && dirtyRegs == old(dirtyRegs)
        invariant junk <= instr.dst - instr.src && (instr.conditional ==> junk == {})
      {
        if reg in needed {
          junk := LoadOne(instr, reg, n, junk, old(loadedRegs), needed);
        }
      }
    }

    ghost predicate LoadedUpTo(loaded: set<nat>, needed: set<nat>, reg: nat)
      reads this
    {
      forall r :: r in loadedRegs <==> r in loaded || (r in needed && r < reg)
    }

    /** One register of the set that must be loaded; all of them fit. A destination that an
        unconditional instruction does not read is loaded without its value. */
    method LoadOne(instr: Instr, reg: nat, ghost n: nat, ghost junk: set<nat>,
                   ghost loaded: set<nat>, ghost needed: set<nat>) returns (ghost junk': set<nat>)
      requires Valid() && n <= |instrs| && Simulates(n, junk)
      requires LoadedUpTo(loaded, needed, reg) && |loaded| + |needed| <= |allocOrder|
      requires (forall r | r in needed :: r !in loaded) && reg in needed
      requires reg < 16 && reg in instr.src + instr.dst
      requires junk <= instr.dst - instr.src && (instr.conditional ==> junk == {})
      modifies this
      ensures Valid() && Simulates(n, junk')
      ensures LoadedUpTo(loaded, needed, reg + 1) && dirtyRegs == old(dirtyRegs)
      ensures junk' <= instr.dst - instr.src && (instr.conditional ==> junk' == {})
    {
      RoomFor(loaded, needed, loadedRegs - loaded, reg);
      assert loadedRegs == loaded + (loadedRegs - loaded);
      junk' := LoadOperand(instr, reg, n, junk);
    }

    /** A register of the instruction that fits: its value is left out when it is a destination
        that the instruction, being unconditional, overwrites without reading. */
    method LoadOperand(instr: Instr, reg: nat, ghost n: nat, ghost junk: set<nat>) returns (ghost junk': set<nat>)
      requires Valid() && n <= |instrs| && Simulates(n, junk)
      requires reg !in loadedRegs && reg < 16 && |loadedRegs| < |allocOrder| && reg in instr.src + instr.dst
      requires junk <= instr.dst - instr.src && (instr.conditional ==> junk == {})
      modifies this
      ensures Valid() && Simulates(n, junk')
      ensures loadedRegs == old(loadedRegs) + {reg} && dirtyRegs == old(dirtyRegs)
      ensures junk' <= instr.dst - instr.src && (instr.conditional ==> junk' == {})
    {
      var value := instr.conditional || reg in instr.src;
      LoadRegister(reg, value, n, junk);
      junk' := if value then junk else junk + {reg};
    }

    /** Registers an instruction can do without get what is left of the native registers. */
    method LoadOptional(instr: Instr, wanted: set<nat>, ghost n: nat, ghost junk0: set<nat>)
      returns (ghost junk: set<nat>)
      requires Valid() && n <= |instrs| && Simulates(n, junk0)
      requires (forall r | r in wanted :: r !in loadedRegs) && Below16(wanted) && wanted <= instr.src + instr.dst
      requires junk0 <= instr.dst - instr.src && (instr.conditional ==> junk0 == {})
      modifies this
      ensures Valid() && Simulates(n, junk)
      ensures old(loadedRegs) <= loadedRegs <= old(loadedRegs) + wanted && dirtyRegs == old(dirtyRegs)
      ensures wanted <= loadedRegs || |loadedRegs| >= |allocOrder|
      ensures junk <= instr.dst - instr.src && (instr.conditional ==> junk == {})
    {
      hide RegisterCache.Valid, RegisterCache.Simulates;
      junk := junk0;
      if wanted != {} && |loadedRegs| < |allocOrder| {
        var left := |allocOrder| - |loadedRegs|;
        for reg := 0 to 16
          invariant Valid() && Simulates(n, junk)
          invariant left == |allocOrder| - |loadedRegs| && left >= 0
          invariant LoadedUpTo(old(loadedRegs), wanted, reg) && dirtyRegs == old(dirtyRegs)
          invariant junk <= instr.dst - instr.src && (instr.conditional ==> junk == {})
        {
          if reg in wanted {
            if left == 0 {
              break;
            }
            left := left - 1;
            junk := LoadOperand(instr, reg, n, junk);
          }
        }
      }
    }

    /** Allocation for instruction i. Every strictly needed register ends up native, every
        loaded destination is marked dirty, and only registers the instruction is sure to
        overwrite may hold junk. */
    method Prepare(i: nat) returns (ghost junk: set<nat>)
      requires Valid() && i < |instrs| && WellFormed(instrs[i]) && Simulates(i, {})
      requires |Necessary(instrs[i], pcAllocatable)| <= |allocOrder| && |instrs| < 1000
      modifies this
      ensures Valid() && Simulates(i, junk)
      ensures Necessary(instrs[i], pcAllocatable) <= loadedRegs <= FutureNeeded(instrs, i) +
        Necessary(instrs[i], pcAllocatable)
      ensures instrs[i].notStrictlyNeeded * FutureNeeded(instrs, i) <= loadedRegs || |loadedRegs| >= |allocOrder|
      ensures (loadedRegs * instrs[i].dst) - {PC} <= dirtyRegs
      ensures junk <= instrs[i].dst - instrs[i].src && (instrs[i].conditional ==> junk == {})
    {
      hide RegisterCache.Simulates, RegisterCache.Valid, Necessary, FutureNeeded, RespectsInfo;
      var instr := instrs[i];
      var futureNeeded, ranking := Release(i);
      junk := LoadStrict(i, ranking);
      junk := LoadOptional(instr, (instr.notStrictlyNeeded * futureNeeded) - loadedRegs, i, junk);
      MarkDirty(i, junk);
    }

    method MarkDirty(i: nat, ghost junk: set<nat>)
      requires Valid() && i < |instrs| && Simulates(i, junk)
      modifies this`dirtyRegs
      ensures Valid() && Simulates(i, junk) && (loadedRegs * instrs[i].dst) - {PC} <= dirtyRegs
    {
      DirtierSimulates(instrs, Abs(), code, i, junk, (loadedRegs * instrs[i].dst) - {PC});
      dirtyRegs := dirtyRegs + ((loadedRegs * instrs[i].dst) - {PC});
    }

    /** Gives up the copy of the program counter and every register that is never used again. */
    method Release(i: nat) returns (futureNeeded: set<nat>, ranking: seq<nat>)
      requires Valid() && i < |instrs| && Simulates(i, {})
      modifies this
      ensures Valid() && Simulates(i, {})
      ensures futureNeeded == FutureNeeded(instrs, i) && loadedRegs == (old(loadedRegs) - {PC}) * futureNeeded
      ensures |ranking| == 16 && forall r | 0 <= r < 16 :: ranking[r] == Rank(instrs, i, r)
    {
      if PC in loadedRegs {
        UnloadRegister(PC, i, {});
      }
      futureNeeded, ranking := ScanUses(i);
      UnloadAll(loadedRegs - futureNeeded, i);
    }

    method LoadStrict(i: nat, ranking: seq<nat>) returns (ghost junk: set<nat>)
      requires Valid() && i < |instrs| && WellFormed(instrs[i]) && Simulates(i, {})
      requires |Necessary(instrs[i], pcAllocatable)| <= |allocOrder|
      requires |ranking| == 16 && forall r | 0 <= r < 16 :: ranking[r] < 1000
      modifies this
      ensures Valid() && Simulates(i, junk)
      ensures Necessary(instrs[i], pcAllocatable) <= loadedRegs <= old(loadedRegs) + Necessary(instrs[i], pcAllocatable)
      ensures junk <= instrs[i].dst - instrs[i].src && (instrs[i].conditional ==> junk == {})
    {
      var necessary := Necessary(instrs[i], pcAllocatable);
      var needed := necessary - loadedRegs;
      junk := {};
      if needed != {} {
        MakeRoom(necessary, needed, ranking, i);
        junk := LoadNeeded(instrs[i], needed, i);
      }
    }

    /** One turn of the compiler's loop. */
    method CompileInstr(i: nat)
      requires Valid() && i < |instrs| && WellFormed(instrs[i]) && Simulates(i, {})
      requires |Necessary(instrs[i], pcAllocatable)| <= |allocOrder| && |instrs| < 1000
      modifies this
      ensures Valid() && Simulates(i + 1, {})
    {
      if instrs[i].canCompile {
        ghost var junk := Prepare(i);
        var saves := PrepareExit();
        ExecuteSimulates(instrs, Abs(), code, junk, i, saves);
        code := code + [Execute(i, mapping, saves)];
      } else {
        Flush(i);
        InterpretSimulates(instrs, code, i);
        code := code + [Interpret(i)];
      }
    }
  }

  /** Memory, the rest of the state and the exit taken agree with direct execution. */
  ghost predicate SameOutcome(s: Exec, d: Direct) {
    match d
    case Running(regs, world) => s.Going? && s.m.world == world && SameMemory(s.m, regs)
    case Left(regs, world, at) => s.Gone? && s.m.world == world && s.at == at && SameMemory(s.m, regs)
  }

  /** From every machine the emitted code does what the instructions do one by one. */
  ghost predicate Equivalent(instrs: seq<Instr>, code: seq<Op>) {
    forall m: Machine ::
      SameOutcome(RunOps(instrs, code, Going(m)), RunDirect(instrs, |instrs|, Running(m.regs, m.world)))
  }

  ghost predicate Compilable(i: Instr, allocOrder: seq<nat>, pcAllocatable: bool) {
    WellFormed(i) && |Necessary(i, pcAllocatable)| <= |allocOrder|
  }

  /** Compiling a block preserves its meaning: from every machine, running the emitted code
      leaves R0-R14 in memory, the rest of the state and the place where the block is left as
      executing the instructions one after the other does. An instruction the compiler does
      not handle flushes the allocation and is interpreted. */
  method CompileBlock(instrs: seq<Instr>, allocOrder: seq<nat>, pcAllocatable: bool) returns (code: seq<Op>)
    requires Distinct(allocOrder) && |instrs| < 1000
    requires forall i | 0 <= i < |instrs| :: Compilable(instrs[i], allocOrder, pcAllocatable)
    ensures Equivalent(instrs, code)
  {
    var cache := new RegisterCache(instrs, allocOrder, pcAllocatable);
    for i := 0 to |instrs|
      invariant fresh(cache) && cache.instrs == instrs && cache.allocOrder == allocOrder
      invariant cache.pcAllocatable == pcAllocatable
      invariant cache.Valid() && cache.Simulates(i, {})
    {
      cache.CompileInstr(i);
    }
    cache.Flush(|instrs|);
    code := cache.code;
    FinalOutcome(instrs, code);
  }

  lemma FinalOutcome(instrs: seq<Instr>, code: seq<Op>)
    requires SimulatesDirect(instrs, EMPTY, code, |instrs|, {})
    ensures Equivalent(instrs, code)
  {
    forall m: Machine
      ensures SameOutcome(RunOps(instrs, code, Going(m)), RunDirect(instrs, |instrs|, Running(m.regs, m.world)))
    {
      assert Refines(EMPTY, RunOps(instrs, code, Going(m)), RunDirect(instrs, |instrs|, Running(m.regs, m.world)), {});
    }
  }
}
