/** Exactly when restoring retired blocks keeps the translation cache coherent: when no conditional
    branch can be followed and no address is compiled in both instruction sets. */
module RestoreSafety {
  import opened CodeCoverage
  import opened JitCache
  import opened FetchLoop
  import opened Arm7
  import opened Options

  ghost predicate IsFresh(s: Snapshot) { s.blocks == map[] && s.pool == map[] }

  /** Every run of a program from an empty cache ends with blocks that agree with memory; as this
      holds of its beginnings too, they do so all along. */
  ghost predicate AlwaysCoherent(fe: FrontEnd, program: Program) {
    forall states, steps | IsRun(fe, states, steps) && WellFormedSteps(steps) && StepsOf(program, steps) ::
      IsFresh(states[0]) ==> AgreesWithMemory(states[|steps|])
  }

  /** For every processor and decoder the runs of a steady program are coherent. */
  lemma SteadyIsCoherent(core: Core, program: Program)
    requires Steady(core, program)
    ensures AlwaysCoherent(FrontEndOf(core), program)
  {
    var fe := FrontEndOf(core);
    SteadyIsDetermined(core, program);
    forall states, steps |
      IsRun(fe, states, steps) && WellFormedSteps(steps) && StepsOf(program, steps) && IsFresh(states[0])
      ensures AgreesWithMemory(states[|steps|])
    {
      DeterminedRunIsSafe(fe, program, states, steps);
      SafeRunIsCoherent(fe, states, steps);
    }
  }

  // ---- runs that end with a stale block

  /** Nothing that the code compares tells the two traces apart. */
  predicate Alike(t: seq<Access>, t': seq<Access>) {
    Values(t, false) == Values(t', false) && Values(t, true) == Values(t', true) && Cover(t) == Cover(t')
  }

  /** Two compilations around a store, of which the second fetches what looks like the first but
      is somewhere else. */
  datatype Mistake = Mistake(addr: nat, mem: Memory, before: Cpu, target: nat, bytes: seq<Byte>, after: Cpu) {
    function NewMem(): Memory { WriteBytes(mem, target, bytes) }

    function Steps(): seq<Step> {
      [Compile(addr, before, 1, false), Write(target, bytes), Compile(addr, after, 2, false)]
    }

    function Start(): Snapshot { Snapshot(map[], map[], mem) }

    function First(fe: FrontEnd): seq<Access> { Fetched(fe, addr, mem, before) }

    function Second(fe: FrontEnd): seq<Access> { Fetched(fe, addr, NewMem(), after) }
  }

  ghost predicate Mistaken(fe: FrontEnd, m: Mistake) {
    var t := m.First(fe);
    && WellPlaced(t) && InOneGranule(m.target, |m.bytes|)
    && Touches(t, RangeOf(m.target), GranuleOf(m.target)) && m.target !in LiteralAddrs(t)
    && Alike(t, m.Second(fe)) && !ReadsFrom(t, m.NewMem())
  }

  ghost predicate IsBlockOf(b: JitBlock, addr: nat, t: seq<Access>) {
    Described(b) && b.trace == t && b.startAddr == addr
  }

  function BlockOf(addr: nat, t: seq<Access>): JitBlock {
    JitBlock(1, addr, 0, Cover(t).ranges, Cover(t).masks, LiteralAddrs(t), Values(t, false), Values(t, true), t)
  }

  lemma AfterSecond(fe: FrontEnd, m: Mistake, s: Snapshot, t: Snapshot)
    requires Mistaken(fe, m) && s.blocks.Keys == {m.addr} && IsBlockOf(s.blocks[m.addr], m.addr, m.First(fe))
    requires s.pool == map[] && s.mem == m.mem && Next(fe, s, m.Steps()[1], t)
    ensures t.blocks == map[] && t.mem == m.NewMem()
    ensures var h := Values(m.First(fe), false); h in t.pool && t.pool[h] == s.blocks[m.addr]
  {
    hide Touches, Cover, Values, LiteralAddrs, WellPlaced, FrontEndOf;
    assert t.blocks == map[];
    assert m.addr in s.blocks && m.addr !in t.blocks;
  }

  lemma AfterThird(fe: FrontEnd, m: Mistake, s: Snapshot, t: Snapshot)
    requires Mistaken(fe, m) && s.blocks == map[] && s.mem == m.NewMem() && Next(fe, s, m.Steps()[2], t)
    requires var h := Values(m.First(fe), false); h in s.pool && IsBlockOf(s.pool[h], m.addr, m.First(fe))
    ensures m.addr in t.blocks && t.blocks[m.addr].trace == m.First(fe) && t.mem == m.NewMem()
  {
    hide Touches, Cover, Values, LiteralAddrs, WellPlaced;
    assert Restores(s, m.addr, m.Second(fe));
  }

  /** Every such run ends with a reachable block that memory no longer holds. */
  lemma EveryRunIsStale(fe: FrontEnd, m: Mistake, states: seq<Snapshot>)
    requires Mistaken(fe, m) && IsRun(fe, states, m.Steps()) && states[0] == m.Start()
    ensures AgreesWithMemory(states[0]) && !AgreesWithMemory(states[3])
  {
    hide Next, Mistaken, Described;
    var steps := m.Steps();
    assert Next(fe, states[0], steps[0], states[1]) && Next(fe, states[1], steps[1], states[2])
        && Next(fe, states[2], steps[2], states[3]);
    AfterFirst(fe, m, states[1]);
    AfterSecond(fe, m, states[1], states[2]);
    AfterThird(fe, m, states[2], states[3]);
    NotThere(fe, m);
  }

  lemma NotThere(fe: FrontEnd, m: Mistake)
    requires Mistaken(fe, m)
    ensures !ReadsFrom(m.First(fe), m.NewMem())
  {
  }

  lemma AfterFirst(fe: FrontEnd, m: Mistake, t: Snapshot)
    requires Next(fe, m.Start(), m.Steps()[0], t)
    ensures t.blocks.Keys == {m.addr} && IsBlockOf(t.blocks[m.addr], m.addr, m.First(fe))
    ensures t.pool == map[] && t.mem == m.mem
  {
    hide Described, Values;
  }

  /** And there is such a run. */
  lemma StaleRunExists(fe: FrontEnd, m: Mistake) returns (states: seq<Snapshot>)
    requires Mistaken(fe, m)
    ensures IsRun(fe, states, m.Steps()) && WellFormedSteps(m.Steps()) && states[0] == m.Start()
  {
    hide Next;
    var b, h := BlockOf(m.addr, m.First(fe)), Values(m.First(fe), false);
    states := [m.Start(), Snapshot(map[m.addr := b], map[], m.mem), Snapshot(map[], map[h := b], m.NewMem()),
               Snapshot(map[m.addr := b], map[], m.NewMem())];
    TheRun(fe, m, b, h);
  }

  lemma TheRun(fe: FrontEnd, m: Mistake, b: JitBlock, h: seq<seq<Byte>>)
    requires Mistaken(fe, m) && b == BlockOf(m.addr, m.First(fe)) && h == Values(m.First(fe), false)
    ensures Next(fe, m.Start(), m.Steps()[0], Snapshot(map[m.addr := b], map[], m.mem))
    ensures Next(fe, Snapshot(map[m.addr := b], map[], m.mem), m.Steps()[1], Snapshot(map[], map[h := b], m.NewMem()))
    ensures Next(fe, Snapshot(map[], map[h := b], m.NewMem()), m.Steps()[2],
                 Snapshot(map[m.addr := b], map[], m.NewMem()))
  {
    hide Touches, Cover, Values, LiteralAddrs, WellPlaced;
    var s := Snapshot(map[], map[h := b], m.NewMem());
    assert Restores(s, m.addr, m.Second(fe));
    assert s.pool - {h} == map[];
    RangeIsListed(m.First(fe), m.target);
  }

  lemma RangeIsListed(t: seq<Access>, a: nat)
    requires Touches(t, RangeOf(a), GranuleOf(a))
    ensures RangeOf(a) in Cover(t).ranges
  {
    CoverExact(t);
  }

  /** The cache itself ends such a run with a stale block. */
  method MakeStale(core: Core, m: Mistake) returns (c: Cache)
    requires ValidCore(core) && Mistaken(FrontEndOf(core), m)
    ensures c.Valid() && c.mem == m.NewMem() && !c.Coherent()
  {
    hide Cache.Valid, Mistaken, Next;
    var fe := FrontEndOf(core);
    c := new Cache(core.localise, m.mem);
    FrontEndFits(core);
    assert WellFormedSteps(m.Steps()) by { var run := StaleRunExists(fe, m); }
    ghost var states := Run(c, fe, (a, cpu) => true, m.Steps());
    assert states[0] == m.Start();
    assert Next(fe, states[0], m.Steps()[0], states[1]) && Next(fe, states[1], m.Steps()[1], states[2])
        && Next(fe, states[2], m.Steps()[2], states[3]);
    MemAfter(fe, m, states);
    EveryRunIsStale(fe, m, states);
  }

  lemma MemAfter(fe: FrontEnd, m: Mistake, states: seq<Snapshot>)
    requires |states| == 4 && states[0].mem == m.mem && Next(fe, states[0], m.Steps()[0], states[1])
    requires Next(fe, states[1], m.Steps()[1], states[2]) && Next(fe, states[2], m.Steps()[2], states[3])
    ensures states[3].mem == m.NewMem()
  {
    hide Described, Values, Touches, PoolAfter, BlocksAfter, Retired;
  }

  // ---- what is not compared

  /** The table depends on ranges and granules only. */
  lemma {:induction false} CoverAlike(t: seq<Access>, t': seq<Access>)
    requires |t| == |t'|
    requires forall i | 0 <= i < |t| :: t[i].isLiteral == t'[i].isLiteral
    requires forall i | 0 <= i < |t| :: t[i].addr / GRANULE_SIZE == t'[i].addr / GRANULE_SIZE
    ensures Cover(t) == Cover(t')
  {
    if t == [] {
      assert t' == [];
    } else {
      var n := |t| - 1;
      CoverAlike(t[..n], t'[..n]);
      GranuleParts(t[n].addr);
      GranuleParts(t'[n].addr);
      assert CoverOne(Cover(t[..n]), t[n]) == CoverOne(Cover(t'[..n]), t'[n]);
    }
  }

  /** Instructions with the same words from the same granules. */
  predicate SameCode(t: seq<Access>, t': seq<Access>) {
    && |t| == |t'|
    && forall i | 0 <= i < |t| ::
      && !t[i].isLiteral && !t'[i].isLiteral && AsWord(t[i].bytes) == AsWord(t'[i].bytes)
      && t[i].addr / GRANULE_SIZE == t'[i].addr / GRANULE_SIZE
  }

  lemma {:induction false} CodeAlike(t: seq<Access>, t': seq<Access>)
    requires SameCode(t, t')
    ensures Alike(t, t') && LiteralAddrs(t) == []
  {
    hide Cover, AsWord;
    CoverAlike(t, t');
    if t != [] {
      CodeAlike(t[1..], t'[1..]);
    } else {
      assert t' == [];
    }
  }

  /** A store to the i-th of the instructions, which the second fetch does not show. */
  lemma IsMistaken(fe: FrontEnd, m: Mistake, t: seq<Access>, i: nat, k: nat)
    requires t == m.First(fe) && SameCode(t, m.Second(fe)) && WellPlaced(t) && InOneGranule(m.target, |m.bytes|)
    requires i < |t| && k < |t[i].bytes| && t[i].addr / GRANULE_SIZE == m.target / GRANULE_SIZE
    requires m.NewMem()(t[i].addr + k) != t[i].bytes[k]
    ensures Mistaken(fe, m)
  {
    hide SameCode, Alike, InOneGranule, WellPlaced, LiteralAddrs;
    CodeAlike(t, m.Second(fe));
    GranuleParts(m.target);
    GranuleParts(t[i].addr);
  }

  predicate LastTurn(t: Turn) { t.ends && t.literal == None }

  /** A block ends with an instruction that has no literal. */
  lemma LastInstr(cfg: Config, mem: Memory, cpu: Cpu, l: Loop, k: nat, bytes: seq<Byte>)
    requires l.index < Limit(cfg.core) && bytes == BytesAt(mem, InstrPlace(cfg, l.addr))
    requires LastTurn(TakeTurn(cfg, l, bytes, cpu.outcome(k)))
    ensures PlacesFrom(cfg, mem, cpu, l, k) == [InstrPlace(cfg, l.addr)]
  {
    hide TakeTurn, InstrPlace;
  }

  /** An instruction in main memory, but the last: behind it there is none. */
  predicate CodeAt(a: nat, thumb: bool) {
    var n := if thumb then 2 else 4;
    START <= a < START + 0x100_0000 - n && a % n == 0
  }

  lemma LocalFacts(a: nat)
    requires START <= a < START + 0x100_0000
    ensures MainMemory(a) == MAIN + a % 0x40_0000 && MainMemory(a) % GRANULE_SIZE == a % GRANULE_SIZE
  {
    KeepsPosition(a);
  }

  lemma LocalNear(a: nat, b: nat)
    requires START <= a < START + 0x100_0000 && START <= b < START + 0x100_0000
    requires a / GRANULE_SIZE == b / GRANULE_SIZE
    ensures MainMemory(a) / GRANULE_SIZE == MainMemory(b) / GRANULE_SIZE
    ensures MainMemory(b) - MainMemory(a) == b - a
  {
    var q, m := a / 0x40_0000, a % 0x40_0000;
    var q', m' := b / 0x40_0000, b % 0x40_0000;
    assert a / GRANULE_SIZE == 0x4_0000 * q + m / GRANULE_SIZE && b / GRANULE_SIZE == 0x4_0000 * q' + m' / GRANULE_SIZE;
    assert q == q';
  }

  function Code(a: nat, thumb: bool): Place { Place(false, MainMemory(a), if thumb then 2 else 4) }

  lemma FetchFacts(core: Core, max: int, branches: bool, literals: bool, a: nat, thumb: bool)
    requires core == Arm7Core(max, branches, literals) && CodeAt(a, thumb)
    ensures CodeAddress(Config(core, thumb), a) == a
    ensures forall b :: InstrPlace(Config(core, thumb), b) == Code(b, thumb)
  {
    hide MainMemory;
  }

  // ---- one address in both states

  /** ANDEQ PC, R0, R0, LSL #16; its low half is the second half of a Thumb long branch. */
  const BOTH: seq<Byte> := [0, 0xF8, 0, 0]

  function Zeros(): Memory { (a: nat) => 0 }

  function Taken(thumb: bool): Cpu { Cpu(thumb, (k: nat) => Outcome(true, false)) }

  /** Compiled as an ARM instruction that branches, the other half overwritten, and compiled as a
      Thumb instruction. */
  function MixedSets(a: nat): Mistake {
    Mistake(a, WriteBytes(Zeros(), MainMemory(a), BOTH), Taken(false), MainMemory(a) + 2, [1, 0], Taken(true))
  }

  lemma BothEnd(core: Core, max: int, branches: bool, literals: bool, a: nat)
    requires core == Arm7Core(max, branches, literals)
    ensures LastTurn(TakeTurn(Config(core, false), Begin(a), BOTH, Outcome(true, false)))
    ensures LastTurn(TakeTurn(Config(core, true), Begin(a), BOTH[..2], Outcome(true, false)))
  {
    hide Wrap;
    assert FieldsOf(BOTH) == Fields(0, 0, 0, 15, 8, 0, 0);
    assert ArmDecode([], BOTH) == Info(true, true, false, false, 0, Unknown, None);
    assert ThumbDecode([], BOTH[..2]) == JUMP.(writesLink := true);
  }

  lemma MixedFetches(core: Core, max: int, branches: bool, literals: bool, a: nat)
    requires core == Arm7Core(max, branches, literals) && CodeAt(a, false)
    ensures MixedSets(a).First(FrontEndOf(core)) == [Access(false, MainMemory(a), BOTH)]
    ensures MixedSets(a).Second(FrontEndOf(core)) == [Access(false, MainMemory(a), BOTH[..2])]
  {
    hide TakeTurn, MainMemory, CodeAddress, InstrPlace;
    var m := MixedSets(a);
    BothEnd(core, max, branches, literals, a);
    FetchFacts(core, max, branches, literals, a, false);
    FetchFacts(core, max, branches, literals, a, true);
    var arm, thumb := Config(core, false), Config(core, true);
    assert InstrPlace(arm, a) == Code(a, false) && InstrPlace(thumb, a) == Code(a, true);
    assert BytesAt(m.mem, Code(a, false)) == BOTH && BytesAt(m.NewMem(), Code(a, true)) == BOTH[..2];
    LastInstr(arm, m.mem, m.before, Begin(a), 0, BOTH);
    LastInstr(thumb, m.NewMem(), m.after, Begin(a), 0, BOTH[..2]);
  }

  /** Both fetches hash the same word, and the translation of the other instruction set is
      restored. */
  lemma MixedSetsAreMistaken(core: Core, max: int, branches: bool, literals: bool, a: nat)
    requires core == Arm7Core(max, branches, literals) && CodeAt(a, false)
    ensures Mistaken(FrontEndOf(core), MixedSets(a))
  {
    hide MainMemory, FrontEndOf, Mistaken, SameCode;
    MixedFetches(core, max, branches, literals, a);
    LocalFacts(a);
    HalfOfWord(MainMemory(a));
    IsMistaken(FrontEndOf(core), MixedSets(a), [Access(false, MainMemory(a), BOTH)], 0, 2);
  }

  lemma HalfOfWord(l: nat)
    ensures SameCode([Access(false, l, BOTH)], [Access(false, l, BOTH[..2])])
  {
    assert AsWord(BOTH) == AsWord(BOTH[..2]);
  }

  // ---- a conditional branch

  /** BEQ; where it leads is in the granule of the next instruction, but is not it. */
  function Offset(a: nat, thumb: bool): int {
    if thumb then if a % 16 == 12 then -2 else 4 else if a % 16 == 8 then -4 else 8
  }

  function BranchIfEqual(a: nat, thumb: bool): (b: seq<Byte>)
    ensures |b| == if thumb then 2 else 4
  {
    if thumb then [if a % 16 == 12 then 0xFD else 0, 0xD0]
    else if a % 16 == 8 then [0xFD, 0xFF, 0xFF, 0x0A] else [0, 0, 0, 0x0A]
  }

  /** BX R0 */
  function Exit(thumb: bool): (b: seq<Byte>)
    ensures |b| == if thumb then 2 else 4
  {
    if thumb then [0, 0x47] else [0x10, 0xFF, 0x2F, 0xE1]
  }

  /** MOV R8, R8 or MOV R0, R0 */
  function DoNothing(thumb: bool): (b: seq<Byte>)
    ensures |b| == (if thumb then 2 else 4) && b[0] != Exit(thumb)[0]
  {
    if thumb then [0xC0, 0x46] else [0, 0, 0xA0, 0xE1]
  }

  function Behind(a: nat, thumb: bool): nat { a + if thumb then 2 else 4 }

  function Target(a: nat, thumb: bool): nat
    requires CodeAt(a, thumb)
  {
    a + Offset(a, thumb)
  }

  function BranchCode(a: nat, thumb: bool): Memory
    requires CodeAt(a, thumb)
  {
    WriteBytes(WriteBytes(WriteBytes(Zeros(), MainMemory(a), BranchIfEqual(a, thumb)), MainMemory(Behind(a, thumb)),
                          Exit(thumb)), MainMemory(Target(a, thumb)), Exit(thumb))
  }

  /** The branch is not taken. */
  function Passed(thumb: bool): Cpu { Cpu(thumb, (k: nat) => Outcome(k > 0, false)) }

  /** The branch is taken, its target overwritten, and then it is not taken. */
  function BranchBothWays(a: nat, thumb: bool): Mistake
    requires CodeAt(a, thumb)
  {
    Mistake(a, BranchCode(a, thumb), Taken(thumb), MainMemory(Target(a, thumb)), DoNothing(thumb), Passed(thumb))
  }

  lemma Around(a: nat, thumb: bool)
    requires CodeAt(a, thumb)
    ensures var n := if thumb then 2 else 4; var f, t := Behind(a, thumb), Target(a, thumb);
      && START <= f < START + 0x100_0000 && START <= t < START + 0x100_0000
      && a % n == f % n == t % n == 0 && f / GRANULE_SIZE == t / GRANULE_SIZE
      && a != f && a != t && f != t && -16 < a - f < 16 && -16 < a - t < 16 && -16 < f - t < 16
  {
    var n, q, r := if thumb then 2 else 4, a / 16, a % 16;
    MultipleOf(a, n);
    hide START;
    Positions(q, r, n);
    AlignedFrom(a, n, n);
    AlignedFrom(a, Offset(a, thumb), n);
  }

  /** The three positions in the granules. */
  lemma Positions(q: nat, r: nat, n: nat)
    requires n in {2, 4} && r < 16 && r % n == 0
    ensures var t := 16 * q + r - n; (16 * q + r + n) / 16 == (if r == 16 - 2 * n then t else t + 3 * n) / 16
  {
    if r == 16 - n {
      SameGranule16(q + 1, 0, n);
    } else if r == 16 - 2 * n {
      SameGranule16(q, 16 - n, 16 - 3 * n);
    } else {
      SameGranule16(q, r + n, r + 2 * n);
    }
  }

  lemma AlignedFrom(a: nat, offset: int, n: nat)
    requires n in {2, 4} && a % n == 0 && offset % n == 0
    ensures (a + offset) % n == 0
  {
  }

  lemma MultipleOf(a: nat, n: nat)
    requires n in {2, 4}
    ensures a == 16 * (a / 16) + a % 16 && (a % n == 0 <==> a % 16 % n == 0)
  {
    assert a == n * ((16 / n) * (a / 16)) + a % 16;
  }

  lemma SameGranule16(q: nat, r: nat, r': nat)
    requires r < 16 && r' < 16
    ensures (16 * q + r) / 16 == (16 * q + r') / 16 == q && (16 * q + r) % 16 == r && (16 * q + r') % 16 == r'
  {
  }

  lemma DecodeBranch(a: nat, thumb: bool)
    requires CodeAt(a, thumb)
    ensures Decode(thumb, [], BranchIfEqual(a, thumb)) == JUMP.(cond := 0, target := Fixed(Offset(a, thumb), false))
    ensures Decode(thumb, BranchIfEqual(a, thumb), Exit(thumb)) == JUMP
  {
    if !thumb {
      var b := BranchIfEqual(a, false);
      assert FieldsOf(Exit(false)) == Fields(0xE, 0x12, 15, 15, 15, 1, 0);
      assert FieldsOf(b).op == 0xA0 + b[2] / 16 && FieldsOf(b).cond == 0;
      assert ArmDest(FieldsOf(b)) == {15};
    }
  }

  /** A branch at the start and the instruction it leads to. */
  lemma TwoInstrs(cfg: Config, a: nat, mem: Memory, cpu: Cpu, branch: seq<Byte>, exit: seq<Byte>, next: nat, seg: nat)
    requires 1 < Limit(cfg.core) && CodeAddress(cfg, a) == a && !cpu.outcome(0).stops
    requires branch == BytesAt(mem, InstrPlace(cfg, a)) && exit == BytesAt(mem, InstrPlace(cfg, next))
    requires TakeTurn(cfg, Begin(a), branch, cpu.outcome(0)) == Turn(None, Loop(next, 1, branch, a, seg, None), false)
    requires cfg.core.decode(cfg.thumb, branch, exit) == JUMP
    ensures FetchPlaces(cfg, a, mem, cpu) == [InstrPlace(cfg, a), InstrPlace(cfg, next)]
  {
    hide InstrPlace, CodeAddress, Wrap;
    var l := Loop(next, 1, branch, a, seg, None);
    assert PlacesFrom(cfg, mem, cpu, l, 1) == [InstrPlace(cfg, next)] by {
      LastInstr(cfg, mem, cpu, l, 1, exit);
    }
    hide TakeTurn;
  }

  lemma BranchTurn(core: Core, max: int, literals: bool, a: nat, thumb: bool, taken: bool)
    requires core == Arm7Core(max, true, literals) && max > 1 && CodeAt(a, thumb)
    ensures var next := if taken then Target(a, thumb) else Behind(a, thumb); var b := BranchIfEqual(a, thumb);
      TakeTurn(Config(core, thumb), Begin(a), b, Outcome(taken, false)) ==
        Turn(None, Loop(next, 1, b, a, if taken then next else a, None), false)
  {
    hide Decode, BranchIfEqual;
    DecodeBranch(a, thumb);
  }

  lemma ReadBack(mem: Memory, a: nat, bytes: seq<Byte>)
    ensures BytesAt(WriteBytes(mem, a, bytes), Place(false, a, |bytes|)) == bytes
  {
  }

  lemma ReadOther(mem: Memory, a: nat, bytes: seq<Byte>, p: Place)
    requires a + |bytes| <= p.addr || p.addr + p.size <= a
    ensures BytesAt(WriteBytes(mem, a, bytes), p) == BytesAt(mem, p)
  {
  }

  lemma BranchMemory(a: nat, thumb: bool)
    requires CodeAt(a, thumb)
    ensures var m := BranchBothWays(a, thumb);
      && BytesAt(m.mem, Code(a, thumb)) == BytesAt(m.NewMem(), Code(a, thumb)) == BranchIfEqual(a, thumb)
      && BytesAt(m.mem, Code(Target(a, thumb), thumb)) == Exit(thumb)
      && BytesAt(m.NewMem(), Code(Behind(a, thumb), thumb)) == Exit(thumb)
  {
    hide MainMemory, WriteBytes, BytesAt, BranchIfEqual, Exit, DoNothing, Target, Behind;
    var m, f, t := BranchBothWays(a, thumb), Behind(a, thumb), Target(a, thumb);
    var b, x := BranchIfEqual(a, thumb), Exit(thumb);
    Around(a, thumb);
    Apart(a, f, |x|);
    Apart(a, t, |x|);
    Apart(f, t, |x|);
    ThreeWrites(Code(a, thumb), Code(f, thumb), Code(t, thumb), b, x, DoNothing(thumb));
  }

  /** What three stores at different places and one more at the last leave. */
  lemma ThreeWrites(p: Place, q: Place, r: Place, b: seq<Byte>, x: seq<Byte>, y: seq<Byte>)
    requires p.size == q.size == r.size == |b| == |x| == |y| && !p.isLiteral && !q.isLiteral && !r.isLiteral
    requires Separate(p, q) && Separate(p, r) && Separate(q, r)
    ensures var mem := WriteBytes(WriteBytes(WriteBytes(Zeros(), p.addr, b), q.addr, x), r.addr, x);
      var mem' := WriteBytes(mem, r.addr, y);
      && BytesAt(mem, p) == BytesAt(mem', p) == b && BytesAt(mem', q) == x && BytesAt(mem, r) == x
  {
    hide WriteBytes, BytesAt;
    var m1 := WriteBytes(Zeros(), p.addr, b);
    var m2 := WriteBytes(m1, q.addr, x);
    var m3 := WriteBytes(m2, r.addr, x);
    ReadBack(Zeros(), p.addr, b);
    ReadOther(m1, q.addr, x, p);
    ReadOther(m2, r.addr, x, p);
    ReadOther(m3, r.addr, y, p);
    ReadBack(m1, q.addr, x);
    ReadOther(m2, r.addr, x, q);
    ReadOther(m3, r.addr, y, q);
    ReadBack(m2, r.addr, x);
  }

  predicate Separate(p: Place, q: Place) { p.addr + p.size <= q.addr || q.addr + q.size <= p.addr }

  lemma Apart(a: nat, b: nat, n: nat)
    requires START <= a < START + 0x100_0000 && START <= b < START + 0x100_0000
    requires n in {2, 4} && a % n == b % n == 0 && a != b && -16 < a - b < 16
    ensures MainMemory(a) >= MainMemory(b) + n || MainMemory(b) >= MainMemory(a) + n
  {
  }

  lemma BranchFetches(core: Core, max: int, literals: bool, a: nat, thumb: bool)
    requires core == Arm7Core(max, true, literals) && max > 1 && CodeAt(a, thumb)
    ensures var m, b, x := BranchBothWays(a, thumb), BranchIfEqual(a, thumb), Exit(thumb);
      && m.First(FrontEndOf(core)) == [Access(false, MainMemory(a), b), Access(false, MainMemory(Target(a, thumb)), x)]
      && m.Second(FrontEndOf(core)) == [Access(false, MainMemory(a), b), Access(false, MainMemory(Behind(a, thumb)), x)]
  {
    hide MainMemory, Decode, TakeTurn, CodeAddress, InstrPlace, FetchPlaces, Exit, BranchIfEqual;
    var m, b, cfg := BranchBothWays(a, thumb), BranchIfEqual(a, thumb), Config(core, thumb);
    var f, t := Behind(a, thumb), Target(a, thumb);
    FetchFacts(core, max, true, literals, a, thumb);
    assert InstrPlace(cfg, f) == Code(f, thumb) && InstrPlace(cfg, t) == Code(t, thumb);
    BranchMemory(a, thumb);
    DecodeBranch(a, thumb);
    BranchTurn(core, max, literals, a, thumb, true);
    BranchTurn(core, max, literals, a, thumb, false);
    TwoInstrs(cfg, a, m.mem, m.before, b, Exit(thumb), t, t);
    TwoInstrs(cfg, a, m.NewMem(), m.after, b, Exit(thumb), f, a);
  }

  lemma BranchIsMistaken(core: Core, max: int, literals: bool, a: nat, thumb: bool)
    requires core == Arm7Core(max, true, literals) && max > 1 && CodeAt(a, thumb)
    ensures Mistaken(FrontEndOf(core), BranchBothWays(a, thumb))
  {
    hide MainMemory, FrontEndOf, Mistaken, BranchCode, BranchIfEqual, Exit, DoNothing, Target, SameCode, InOneGranule;
    var m, f, t := BranchBothWays(a, thumb), Behind(a, thumb), Target(a, thumb);
    BranchFetches(core, max, literals, a, thumb);
    Around(a, thumb);
    LocalNear(f, t);
    var la, lt, b, x := MainMemory(a), MainMemory(t), BranchIfEqual(a, thumb), Exit(thumb);
    InGranule(a, |b|);
    InGranule(t, |b|);
    SameBranch(la, MainMemory(f), lt, b, x);
    assert m.NewMem()(lt + 0) == DoNothing(thumb)[0];
    IsMistaken(FrontEndOf(core), m, [Access(false, la, b), Access(false, lt, x)], 1, 0);
  }

  lemma InGranule(a: nat, n: nat)
    requires START <= a < START + 0x100_0000 && n in {2, 4} && a % n == 0
    ensures InOneGranule(MainMemory(a), n)
  {
    LocalFacts(a);
  }

  lemma SameBranch(la: nat, lf: nat, lt: nat, b: seq<Byte>, x: seq<Byte>)
    requires lf / GRANULE_SIZE == lt / GRANULE_SIZE
    ensures SameCode([Access(false, la, b), Access(false, lt, x)], [Access(false, la, b), Access(false, lf, x)])
  {
  }

  // ---- when every run is coherent

  /** In which states addresses are compiled. */
  type Uses = (nat, bool) -> bool

  function ProgramOf(uses: Uses): Program { (a: nat, cpu: Cpu) => uses(a, cpu.thumb) }

  ghost predicate InMainMemory(uses: Uses) { forall a, t | uses(a, t) :: CodeAt(a, t) }

  ghost predicate InOneState(uses: Uses) { forall a :: !(uses(a, false) && uses(a, true)) }

  lemma StaleIsIncoherent(fe: FrontEnd, m: Mistake, uses: Uses)
    requires Mistaken(fe, m) && uses(m.addr, m.before.thumb) && uses(m.addr, m.after.thumb)
    ensures !AlwaysCoherent(fe, ProgramOf(uses))
  {
    hide Mistaken, Next;
    var states := StaleRunExists(fe, m);
    EveryRunIsStale(fe, m, states);
    assert StepsOf(ProgramOf(uses), m.Steps()) && IsFresh(states[0]);
  }

  /** Whatever addresses a program compiles in which states: all its runs are coherent if and only
      if no conditional branch can be followed and no address is compiled in both states. */
  lemma CoherentExactly(max: int, branches: bool, literals: bool, uses: Uses)
    requires InMainMemory(uses) && exists a, t :: uses(a, t)
    ensures AlwaysCoherent(FrontEndOf(Arm7Core(max, branches, literals)), ProgramOf(uses)) <==>
      (!branches || max <= 1) && InOneState(uses)
  {
    hide Mistaken, AlwaysCoherent, MainMemory, Decode;
    var core := Arm7Core(max, branches, literals);
    if branches && max > 1 {
      var a, t :| uses(a, t);
      BranchIsMistaken(core, max, literals, a, t);
      StaleIsIncoherent(FrontEndOf(core), BranchBothWays(a, t), uses);
    } else if !InOneState(uses) {
      var a :| uses(a, false) && uses(a, true);
      MixedSetsAreMistaken(core, max, branches, literals, a);
      StaleIsIncoherent(FrontEndOf(core), MixedSets(a), uses);
    } else {
      forall a, s, s' | ProgramOf(uses)(a, s) && ProgramOf(uses)(a, s') ensures s.thumb == s'.thumb {
        assert !(uses(a, false) && uses(a, true));
      }
      SteadyIsCoherent(core, ProgramOf(uses));
    }
  }
}
