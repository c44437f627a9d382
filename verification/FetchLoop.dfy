/** The loop in which CompileBlock fetches, interprets and follows the instructions of a block:
    which places one compilation reads, and when that makes restoring retired blocks safe. */
module FetchLoop {
  import opened CodeCoverage
  import opened JitCache
  import opened Options

  /** Where a branch goes, as far as the instruction says. Offsets count from the instruction. */
  datatype Target = Unknown | Fixed(offset: int, link: bool) | Returns

  /** What the loop needs to know of an instruction. `secondHalf` marks the second halfword of a
      long branch, whose target is that of both halves together. */
  datatype Info = Info(branches: bool, ends: bool, writesLink: bool, secondHalf: bool, cond: nat,
                       target: Target, literal: Option<int>)

  /** The settings, the processor with its address map, and its decoder, which is given the
      instruction set, the instruction before and the instruction. */
  datatype Core = Core(arm9: bool, maxBlockSize: int, branchOptimisations: bool, literalOptimisations: bool,
                       localise: nat -> nat, decode: (bool, seq<Byte>, seq<Byte>) -> Info)

  /** The processor in one of its two states; a compilation never leaves the one it starts in. */
  datatype Config = Config(core: Core, thumb: bool)

  function Limit(core: Core): (n: nat)
    ensures 1 <= n <= 32
  {
    if core.maxBlockSize < 1 then 1 else if core.maxBlockSize > 32 then 32 else core.maxBlockSize
  }

  /** Conditional branches can be followed. */
  predicate Follows(core: Core) { core.branchOptimisations && Limit(core) > 1 }

  function Wrap(n: int): nat { n % 0x1_0000_0000 }

  function Align(cfg: Config): (n: nat)
    ensures n in {2, 4}
  {
    if cfg.thumb then 2 else 4
  }

  /** The program counter is aligned. */
  function CodeAddress(cfg: Config, addr: nat): nat { Wrap(addr) - Wrap(addr) % Align(cfg) }

  /** Local addresses keep the position in the granule; what is not executable is at 0. */
  ghost predicate ValidCore(core: Core) {
    && (forall a: nat :: core.localise(a) == 0 || core.localise(a) % GRANULE_SIZE == a % GRANULE_SIZE)
    && forall t, p, b | core.decode(t, p, b).target.Fixed? ::
         core.decode(t, p, b).target.offset % Align(Config(core, t)) == 0
  }

  // ---- one instruction

  /** The ARM9 fetches two halfwords at a time. */
  function InstrPlace(cfg: Config, addr: nat): (p: Place)
    ensures !p.isLiteral && p.size in {2, 4}
  {
    Place(false, cfg.core.localise(addr), if !cfg.thumb || (cfg.core.arm9 && addr % 4 == 0) then 4 else 2)
  }

  function LiteralPlace(cfg: Config, addr: nat, offset: int): Place {
    var base := if cfg.thumb then addr + 4 - (addr + 4) % 4 else addr + 8;
    var a := Wrap(base + offset);
    Place(true, cfg.core.localise(a - a % 4), 4)
  }

  function BytesAt(mem: Memory, p: Place): (bs: seq<Byte>)
    ensures |bs| == p.size
  {
    seq(p.size, k requires 0 <= k => mem(p.addr + k))
  }

  /** The variables of the loop: the next address and index, the instruction before, where the
      current straight piece began, and the link register while it is known. */
  datatype Loop = Loop(addr: nat, index: nat, before: seq<Byte>, beforeAddr: nat, segment: nat, link: Option<nat>)

  datatype Decision = Stay(ends: bool) | Follow(target: nat, link: Option<nat>)

  function TargetOf(info: Info, at: nat, link: Option<nat>): Option<nat> {
    match info.target
    case Unknown => None
    case Fixed(offset, _) => Some(Wrap(at + offset))
    case Returns => link
  }

  /** Whether and where the loop follows a branch at `at` with index i; `next` is the address
      behind it. Only conditional branches depend on the outcome. */
  function Decide(cfg: Config, info: Info, at: nat, i: nat, segment: nat, link: Option<nat>, next: nat,
                  out: Outcome): Decision
  {
    if !(info.branches && cfg.core.branchOptimisations) then Stay(info.ends || info.branches)
    else
      var target := TargetOf(info, at, link);
      var branched := if target.None? then out.branched
                      else target.value != next && (info.cond >= 0xE || out.branched);
      if target.Some? && !(info.cond < 0xE && segment <= target.value < at)
         && branched && !(i > 0 && at == target.value) && i + 1 < Limit(cfg.core)
      then Follow(target.value, if info.target.Fixed? && info.target.link then Some(Wrap(at + 4)) else link)
      else Stay(branched || info.cond >= 0xE || i + 1 >= Limit(cfg.core))
  }

  datatype Turn = Turn(literal: Option<int>, next: Loop, ends: bool)

  /** One turn of the loop, from the bytes of the instruction. */
  function TakeTurn(cfg: Config, l: Loop, bytes: seq<Byte>, out: Outcome): Turn {
    var info := cfg.core.decode(cfg.thumb, l.before, bytes);
    var merged := info.secondHalf && l.before != [] && l.index > 0;
    var at, i := if merged then l.beforeAddr else l.addr, if merged then l.index - 1 else l.index;
    var link := if info.writesLink then None else l.link;
    var next := Wrap(l.addr + Align(cfg));
    var d := Decide(cfg, info, at, i, l.segment, link, next, out);
    var before := if merged then [] else bytes;
    Turn(if cfg.core.literalOptimisations then info.literal else None,
         match d
         case Follow(target, link') => Loop(target, i + 1, before, l.addr, target, link')
         case Stay(_) => Loop(next, i + 1, before, l.addr, l.segment, link),
         d.Stay? && d.ends)
  }

  /** The loop goes on after a turn. */
  predicate GoesOn(cfg: Config, t: Turn, out: Outcome) {
    !t.ends && t.next.index < Limit(cfg.core) && !out.stops
  }

  function Literals(cfg: Config, addr: nat, t: Turn): (ps: seq<Place>)
    ensures forall i | 0 <= i < |ps| :: ps[i].isLiteral
  {
    if t.literal.Some? then [LiteralPlace(cfg, addr, t.literal.value)] else []
  }

  /** A merged long branch takes the loop back by one index, but no two in a row do. */
  function Rank(cfg: Config, l: Loop): (n: nat)
    requires l.index < Limit(cfg.core)
  {
    2 * (Limit(cfg.core) - l.index) + if l.before != [] then 1 else 0
  }

  lemma TurnAdvances(cfg: Config, l: Loop, bytes: seq<Byte>, out: Outcome)
    requires l.index < Limit(cfg.core) && bytes != []
    ensures var t := TakeTurn(cfg, l, bytes, out); GoesOn(cfg, t, out) ==> Rank(cfg, t.next) < Rank(cfg, l)
  {
  }

  /** The places read from the k-th instruction on. */
  function PlacesFrom(cfg: Config, mem: Memory, cpu: Cpu, l: Loop, k: nat): (ps: seq<Place>)
    requires l.index < Limit(cfg.core)
    ensures |ps| > 0 && !ps[0].isLiteral
    decreases Rank(cfg, l)
  {
    var p := InstrPlace(cfg, l.addr);
    var bytes := BytesAt(mem, p);
    var t := TakeTurn(cfg, l, bytes, cpu.outcome(k));
    TurnAdvances(cfg, l, bytes, cpu.outcome(k));
    [p] + Literals(cfg, l.addr, t) +
      if GoesOn(cfg, t, cpu.outcome(k)) then PlacesFrom(cfg, mem, cpu, t.next, k + 1) else []
  }

  function Begin(addr: nat): Loop { Loop(addr, 0, [], addr, addr, None) }

  function FetchPlaces(cfg: Config, addr: nat, mem: Memory, cpu: Cpu): seq<Place> {
    PlacesFrom(cfg, mem, cpu, Begin(CodeAddress(cfg, addr)), 0)
  }

  /** The instruction set is that of the CPU at the time. */
  function FrontEndOf(core: Core): FrontEnd {
    (addr: nat, mem: Memory, cpu: Cpu) => FetchPlaces(Config(core, cpu.thumb), addr, mem, cpu)
  }

  // ---- the loop

  /** The branch handling, in the order of the source. */
  method HandleBranch(cfg: Config, info: Info, at: nat, i: nat, segment: nat, link: Option<nat>, next: nat,
                      out: Outcome)
    returns (d: Decision)
    requires info.branches && cfg.core.branchOptimisations
    ensures d == Decide(cfg, info, at, i, segment, link, next, out)
  {
    var target := TargetOf(info, at, link);
    var hasBranched := out.branched;
    if target.Some? {
      hasBranched := target.value != next && (info.cond >= 0xE || out.branched);
    }
    var ends := true;
    if target.Some? {
      var isBackJump := hasBranched && i > 0 && at == target.value;
      if info.cond < 0xE && target.value < at && target.value >= segment {
        // possibly an idle loop
      } else if hasBranched && !isBackJump && i + 1 < Limit(cfg.core) {
        var lr := link;
        if info.target.Fixed? && info.target.link {
          lr := Some(Wrap(at + 4));
        }
        return Follow(target.value, lr);
      }
    }
    if !hasBranched && info.cond < 0xE && i + 1 < Limit(cfg.core) {
      ends := false;
    }
    return Stay(ends);
  }

  /** The body of the fetch loop, after the instruction was read. */
  method FetchOne(cfg: Config, l: Loop, bytes: seq<Byte>, out: Outcome)
    returns (literals: seq<Place>, next: Loop, ends: bool)
    ensures var t := TakeTurn(cfg, l, bytes, out);
      literals == Literals(cfg, l.addr, t) && next == t.next && ends == t.ends
  {
    var info := cfg.core.decode(cfg.thumb, l.before, bytes);
    var link, literal := l.link, if cfg.core.literalOptimisations then info.literal else None;
    if info.writesLink {
      link := None;
    }
    literals := [];
    if literal.Some? {
      literals := [LiteralPlace(cfg, l.addr, literal.value)];
    }
    var merged := info.secondHalf && l.before != [] && l.index > 0;
    var at, i, addr, segment := l.addr, l.index, Wrap(l.addr + Align(cfg)), l.segment;
    if merged {
      at, i := l.beforeAddr, i - 1;
    }
    ends := info.ends || info.branches;
    if info.branches && cfg.core.branchOptimisations {
      var d := HandleBranch(cfg, info, at, i, segment, link, addr, out);
      match d {
        case Follow(target, lr) =>
          addr, segment, link, ends := target, target, lr, false;
        case Stay(e) =>
          ends := e;
      }
    }
    next := Loop(addr, i + 1, if merged then [] else bytes, l.addr, segment, link);
  }

  /** The fetch loop. */
  method FetchBlock(cfg: Config, blockAddr: nat, mem: Memory, cpu: Cpu) returns (places: seq<Place>)
    ensures places == FetchPlaces(cfg, blockAddr, mem, cpu)
  {
    hide TakeTurn, InstrPlace, LiteralPlace, CodeAddress, Literals;
    var l, numInstrs, running := Begin(CodeAddress(cfg, blockAddr)), 0, true;
    places := [];
    while running
      invariant running ==> l.index < Limit(cfg.core)
      invariant FetchPlaces(cfg, blockAddr, mem, cpu) ==
        places + if running then PlacesFrom(cfg, mem, cpu, l, numInstrs) else []
      decreases if running then Rank(cfg, l) + 1 else 0
    {
      var place := InstrPlace(cfg, l.addr);
      var bytes := BytesAt(mem, place);
      TurnAdvances(cfg, l, bytes, cpu.outcome(numInstrs));
      var literals, next, ends := FetchOne(cfg, l, bytes, cpu.outcome(numInstrs));
      places := places + ([place] + literals);
      running := !ends && next.index < Limit(cfg.core) && !cpu.outcome(numInstrs).stops;
      l, numInstrs := next, numInstrs + 1;
    }
  }

  // ---- every place is inside a granule

  predicate Aligned(cfg: Config, l: Loop) {
    && l.addr % Align(cfg) == 0 && l.beforeAddr % Align(cfg) == 0
    && (l.link.Some? ==> l.link.value % Align(cfg) == 0)
  }

  lemma WrapAligned(a: nat, offset: int, n: nat)
    requires n in {2, 4} && a % n == 0 && offset % n == 0
    ensures Wrap(a + offset) % n == 0
  {
  }

  lemma TurnStaysAligned(cfg: Config, l: Loop, bytes: seq<Byte>, out: Outcome)
    requires ValidCore(cfg.core) && Aligned(cfg, l)
    ensures Aligned(cfg, TakeTurn(cfg, l, bytes, out).next)
  {
    hide Wrap, Limit;
    var info, n := cfg.core.decode(cfg.thumb, l.before, bytes), Align(cfg);
    WrapAligned(l.addr, n, n);
    WrapAligned(l.addr, 4, n);
    WrapAligned(l.beforeAddr, 4, n);
    if info.target.Fixed? {
      WrapAligned(l.addr, info.target.offset, n);
      WrapAligned(l.beforeAddr, info.target.offset, n);
    }
  }

  lemma InstrFits(cfg: Config, addr: nat)
    requires ValidCore(cfg.core) && addr % Align(cfg) == 0
    ensures var p := InstrPlace(cfg, addr); InOneGranule(p.addr, p.size)
  {
    FitsAt(cfg.core.localise(addr), InstrPlace(cfg, addr).size);
  }

  lemma FitsAt(a: nat, n: nat)
    requires n in {2, 4} && (a == 0 || a % GRANULE_SIZE + n <= GRANULE_SIZE)
    ensures InOneGranule(a, n)
  {
  }

  lemma LiteralFits(cfg: Config, addr: nat, offset: int)
    requires ValidCore(cfg.core)
    ensures var p := LiteralPlace(cfg, addr, offset); InOneGranule(p.addr, p.size)
  {
    var a := Wrap((if cfg.thumb then addr + 4 - (addr + 4) % 4 else addr + 8) + offset);
    FitsAt(cfg.core.localise(a - a % 4), 4);
  }

  predicate AllFit(ps: seq<Place>) { forall i | 0 <= i < |ps| :: InOneGranule(ps[i].addr, ps[i].size) }

  lemma {:induction false} PlacesFit(cfg: Config, mem: Memory, cpu: Cpu, l: Loop, k: nat)
    requires ValidCore(cfg.core) && Aligned(cfg, l) && l.index < Limit(cfg.core)
    ensures AllFit(PlacesFrom(cfg, mem, cpu, l, k))
    decreases Rank(cfg, l)
  {
    hide InOneGranule, InstrPlace, LiteralPlace, TakeTurn, ValidCore, Aligned;
    var bytes := BytesAt(mem, InstrPlace(cfg, l.addr));
    var t := TakeTurn(cfg, l, bytes, cpu.outcome(k));
    assert l.addr % Align(cfg) == 0 by {
      IsAligned(cfg, l);
    }
    InstrFits(cfg, l.addr);
    if t.literal.Some? {
      LiteralFits(cfg, l.addr, t.literal.value);
    }
    TurnStaysAligned(cfg, l, bytes, cpu.outcome(k));
    if GoesOn(cfg, t, cpu.outcome(k)) {
      TurnAdvances(cfg, l, bytes, cpu.outcome(k));
      PlacesFit(cfg, mem, cpu, t.next, k + 1);
    }
  }

  lemma IsAligned(cfg: Config, l: Loop)
    requires Aligned(cfg, l)
    ensures l.addr % Align(cfg) == 0
  {
  }

  /** What the loop reads never straddles two granules. */
  lemma FrontEndFits(core: Core)
    requires ValidCore(core)
    ensures WellFormedFrontEnd(FrontEndOf(core))
  {
    hide CodeAddress, PlacesFrom, ValidCore, InOneGranule;
    forall addr, mem: Memory, cpu ensures WellPlaced(Fetched(FrontEndOf(core), addr, mem, cpu)) {
      var cfg := Config(core, cpu.thumb);
      StartAligned(cfg, addr);
      PlacesFit(cfg, mem, cpu, Begin(CodeAddress(cfg, addr)), 0);
    }
  }

  lemma StartAligned(cfg: Config, addr: nat)
    ensures Aligned(cfg, Begin(CodeAddress(cfg, addr)))
  {
  }

  // ---- when the instructions determine the places

  lemma {:induction false} ValuesSplit(t: seq<Access>, u: seq<Access>, literals: bool)
    ensures Values(t + u, literals) == Values(t, literals) + Values(u, literals)
  {
    if t == [] {
      assert t + u == u;
    } else {
      assert (t + u)[1..] == t[1..] + u;
      ValuesSplit(t[1..], u, literals);
    }
  }

  lemma {:induction false} NoInstructions(t: seq<Access>)
    requires forall i | 0 <= i < |t| :: t[i].isLiteral
    ensures Values(t, false) == []
  {
    if t != [] {
      NoInstructions(t[1..]);
    }
  }

  /** The values of an instruction, its literals and what follows. */
  lemma ValuesOfTurn(p: Place, literals: seq<Place>, rest: seq<Place>, mem: Memory)
    requires !p.isLiteral && forall i | 0 <= i < |literals| :: literals[i].isLiteral
    ensures Values(ReadAll([p] + literals + rest, mem), false)
      == [AsWord(BytesAt(mem, p))] + Values(ReadAll(rest, mem), false)
  {
    var a, b, c := ReadAll([p], mem), ReadAll(literals, mem), ReadAll(rest, mem);
    assert ReadAll([p] + literals + rest, mem) == a + b + c;
    ValuesSplit(a + b, c, false);
    ValuesSplit(a, b, false);
    NoInstructions(b);
    assert a[1..] == [] && Values(a[1..], false) == [];
    assert a[0].bytes == BytesAt(mem, p);
  }

  ghost predicate SameBranches(s: Cpu, s': Cpu) { forall k :: s.outcome(k).branched == s'.outcome(k).branched }

  /** Only the outcome of a branch that can be followed matters to where the loop goes. */
  lemma SameTurn(cfg: Config, l: Loop, bytes: seq<Byte>, out: Outcome, out': Outcome)
    requires !Follows(cfg.core) || out.branched == out'.branched
    ensures TakeTurn(cfg, l, bytes, out) == TakeTurn(cfg, l, bytes, out')
  {
  }

  /** Two compilations from the same address that fetch the same instructions read the same
      places, unless a branch was followed in one of them only. */
  lemma {:induction false} SameValuesSamePlaces(cfg: Config, m: Memory, m': Memory, s: Cpu, s': Cpu, l: Loop, k: nat)
    requires l.index < Limit(cfg.core)
    requires !Follows(cfg.core) || SameBranches(s, s')
    requires Values(ReadAll(PlacesFrom(cfg, m, s, l, k), m), false)
      == Values(ReadAll(PlacesFrom(cfg, m', s', l, k), m'), false)
    ensures PlacesFrom(cfg, m, s, l, k) == PlacesFrom(cfg, m', s', l, k)
    decreases Rank(cfg, l)
  {
    hide TakeTurn, InstrPlace, Follows, ReadAll, Values;
    var p := InstrPlace(cfg, l.addr);
    var b, b' := BytesAt(m, p), BytesAt(m', p);
    var t, t' := TakeTurn(cfg, l, b, s.outcome(k)), TakeTurn(cfg, l, b', s'.outcome(k));
    TurnAdvances(cfg, l, b, s.outcome(k));
    TurnAdvances(cfg, l, b', s'.outcome(k));
    var rest := if GoesOn(cfg, t, s.outcome(k)) then PlacesFrom(cfg, m, s, t.next, k + 1) else [];
    var rest' := if GoesOn(cfg, t', s'.outcome(k)) then PlacesFrom(cfg, m', s', t'.next, k + 1) else [];
    ValuesOfTurn(p, Literals(cfg, l.addr, t), rest, m);
    ValuesOfTurn(p, Literals(cfg, l.addr, t'), rest', m');
    var v, v' := Values(ReadAll(rest, m), false), Values(ReadAll(rest', m'), false);
    assert [AsWord(b)] + v == [AsWord(b')] + v';
    assert AsWord(b) == ([AsWord(b)] + v)[0] == ([AsWord(b')] + v')[0] == AsWord(b');
    assert b == AsWord(b)[..p.size] == AsWord(b')[..p.size] == b';
    assert v == ([AsWord(b)] + v)[1..] == ([AsWord(b')] + v')[1..] == v';
    SameTurn(cfg, l, b, s.outcome(k), s'.outcome(k));
    HasValue(rest, m);
    HasValue(rest', m');
    if GoesOn(cfg, t, s.outcome(k)) && GoesOn(cfg, t', s'.outcome(k)) {
      SameValuesSamePlaces(cfg, m, m', s, s', t.next, k + 1);
    }
  }

  lemma HasValue(ps: seq<Place>, mem: Memory)
    requires ps != [] ==> !ps[0].isLiteral
    ensures Values(ReadAll(ps, mem), false) == [] <==> ps == []
  {
    if ps != [] {
      assert !ReadAll(ps, mem)[0].isLiteral;
    }
  }

  /** Whenever an address is compiled, it is compiled in the same state, and where conditional
      branches can be followed they go the same way. */
  ghost predicate Steady(core: Core, program: Program) {
    forall addr, s, s' | program(addr, s) && program(addr, s') ::
      s.thumb == s'.thumb && (Follows(core) ==> SameBranches(s, s'))
  }

  /** In a steady program the instructions determine the addresses. */
  lemma SteadyIsDetermined(core: Core, program: Program)
    requires Steady(core, program)
    ensures AddressDetermined(FrontEndOf(core), program)
  {
    var fe := FrontEndOf(core);
    forall addr, m, m': Memory, s, s' | program(addr, s) && program(addr, s') &&
      Values(Fetched(fe, addr, m, s), false) == Values(Fetched(fe, addr, m', s'), false)
      ensures fe(addr, m, s) == fe(addr, m', s')
    {
      var cfg := Config(core, s.thumb);
      SameValuesSamePlaces(cfg, m, m', s, s', Begin(CodeAddress(cfg, addr)), 0);
    }
  }
}
