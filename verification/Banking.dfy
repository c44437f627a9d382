/** The register banks of the ARM modes: registers swapped in and out on mode changes, against
    one register file indexed by mode. */
module Banking {

  type Word = n: int | 0 <= n < 0x1_0000_0000

  type Regs = s: seq<Word> | |s| == 16 witness seq(16, _ => 0)

  const USR: nat := 0x10
  const FIQ: nat := 0x11
  const IRQ: nat := 0x12
  const SVC: nat := 0x13
  const ABT: nat := 0x17
  const UND: nat := 0x1B

  /** The modes with registers of their own. */
  predicate HasBank(mode: nat) { mode in {FIQ, IRQ, SVC, ABT, UND} }

  /** The first register a mode has for itself; the last is R14. */
  function First(mode: nat): nat { if mode == FIQ then 8 else 13 }

  /** Which bank register i of a mode belongs to (ARM DDI 0100, section A2.4). */
  function Owner(mode: nat, i: nat): nat {
    if HasBank(mode) && First(mode) <= i < 15 then mode else USR
  }

  /** Two of the seven modes see the same register i exactly if it is R0 to R7 or R15, R8 to R12
      with neither being FIQ mode, or both are user and system mode. */
  lemma SharedExactly(mode: nat, mode': nat, i: nat)
    requires mode in {0x10, 0x11, 0x12, 0x13, 0x17, 0x1B, 0x1F} && mode' in {0x10, 0x11, 0x12, 0x13, 0x17, 0x1B, 0x1F}
    requires i < 16 && mode != mode'
    ensures Owner(mode, i) == Owner(mode', i) <==>
      i < 8 || i == 15 || (i < 13 && mode != 0x11 && mode' != 0x11) || {mode, mode'} == {0x10, 0x1F}
    ensures Owner(mode, i) == Owner(0x10, i) || Owner(mode, i) == mode
  {
    assert 0x11 in {mode, mode'} || 0x12 in {mode, mode'} || 0x13 in {mode, mode'} || 0x17 in {mode, mode'}
      || 0x1B in {mode, mode'} || {mode, mode'} == {0x10, 0x1F};
  }

  type Banks = map<nat, seq<Word>>

  ghost predicate ShapedBanks(banks: Banks) {
    forall b | HasBank(b) :: b in banks && |banks[b]| == 15 - First(b)
  }

  /** The register file that the registers and banks hold when laid out for a mode: register i
      of a bank. */
  function FileAt(mode: nat, r: Regs, banks: Banks, owner: nat, i: nat): Word
    requires ShapedBanks(banks)
  {
    if i >= 16 then 0
    else if owner == Owner(mode, i) then r[i]
    else if owner == USR then banks[mode][i - First(mode)]
    else if HasBank(owner) && First(owner) <= i < 15 then banks[owner][i - First(owner)]
    else 0
  }

  /** Two layouts of the same register file. */
  ghost predicate SameFile(mode: nat, r: Regs, banks: Banks, mode': nat, r': Regs, banks': Banks)
    requires ShapedBanks(banks) && ShapedBanks(banks')
  {
    forall owner: nat, i: nat :: FileAt(mode', r', banks', owner, i) == FileAt(mode, r, banks, owner, i)
  }

  /** The program status: condition flags and mode bits. */
  datatype Psr = Psr(flags: nat, irqOff: bool, fiqOff: bool, thumb: bool, mode: nat)

  class Arm {
    const num: nat
    var r: Regs
    var banks: Banks
    var spsr: map<nat, Psr>
    var cpsr: Psr

    ghost predicate Shaped()
      reads this`banks, this`spsr
    {
      ShapedBanks(banks) && forall b | HasBank(b) :: b in spsr
    }

    constructor (num: nat)
      ensures Shaped() && this.num == num
    {
      this.num := num;
      r := seq(16, _ => 0);
      banks := map[FIQ := [0, 0, 0, 0, 0, 0, 0], IRQ := [0, 0], SVC := [0, 0], ABT := [0, 0], UND := [0, 0]];
      var p := Psr(0, false, false, false, USR);
      spsr := map[FIQ := p, IRQ := p, SVC := p, ABT := p, UND := p];
      cpsr := Psr(0, true, true, false, SVC);
    }

    /** The SWAP statements for a mode's bank. */
    method SwapBank(mode: nat)
      requires Shaped() && HasBank(mode)
      modifies this`r, this`banks
      ensures Shaped()
      ensures banks == old(banks)[mode := old(r)[First(mode)..15]]
      ensures r == old(r)[..First(mode)] + old(banks)[mode] + [old(r)[15]]
    {
      var first, regs, bank := First(mode), r, banks[mode];
      ghost var regs0, bank0 := r, banks[mode];
      for i := 0 to 15 - first
        invariant |bank| == |bank0| && |regs| == 16
        invariant forall k | 0 <= k < |bank| :: bank[k] == if k < i then regs0[first + k] else bank0[k]
        invariant forall k | 0 <= k < 16 :: regs[k] == if first <= k < first + i then bank0[k - first] else regs0[k]
      {
        var temp := regs[first + i];
        regs := regs[first + i := bank[i]];
        bank := bank[i := temp];
      }
      assert bank == regs0[first..15] && regs == regs0[..first] + bank0 + [regs0[15]];
      r, banks := regs, banks[mode := bank];
    }

    /** Changing from one mode's layout to another's keeps the register file. */
    method UpdateMode(oldmode: nat, newmode: nat)
      requires Shaped()
      modifies this`r, this`banks
      ensures Shaped() && SameFile(oldmode, old(r), old(banks), newmode, r, banks)
      ensures r[..8] == old(r)[..8] && r[15] == old(r)[15]
    {
      if oldmode == newmode {
        return;
      }
      ghost var r0, banks0 := r, banks;
      if HasBank(oldmode) {
        SwapBank(oldmode);
      }
      ghost var r1, banks1 := r, banks;
      LeftBank(oldmode, r0, banks0, r1, banks1);
      if HasBank(newmode) {
        SwapBank(newmode);
      }
      EnteredBank(newmode, r1, banks1, r, banks);
    }

    // ---- exceptions

    /** The jump's effect on R15 and the state bit; fetching is left to the memory. */
    method JumpTo(addr: Word, restoreCpsr: bool)
      requires Shaped()
      modifies this`r, this`banks, this`cpsr
      ensures Shaped()
      ensures var p := if restoreCpsr && HasBank(old(cpsr.mode)) then old(spsr)[old(cpsr.mode)] else old(cpsr);
        var thumb := if restoreCpsr then p.thumb else addr % 2 == 1;
        && cpsr == p.(thumb := thumb) && r[15] == JumpedTo(addr, thumb)
        && r[15] as int == (if thumb then addr - addr % 2 + 2 else addr - addr % 4 + 4) % 0x1_0000_0000
        && SameFile(old(cpsr.mode), old(r)[15 := JumpedTo(addr, thumb)], old(banks), p.mode, r, banks)
      ensures !restoreCpsr ==> forall i | 0 <= i < 15 :: r[i] == old(r)[i]
    {
      JumpedInNumbers(addr);
      hide JumpedTo, FileAt, Owner;
      ghost var r0, banks0, mode0 := r, banks, cpsr.mode;
      var a := addr;
      if restoreCpsr {
        RestoreCPSR();
        a := WithBit0(addr, cpsr.thumb);
      }
      OnlyPc(mode0, r0, banks0, cpsr.mode, r, banks, JumpedTo(addr, a % 2 == 1));
      SameTarget(addr, a % 2 == 1);
      if a % 2 == 1 {
        r := r[15 := JumpedTo(a, true)];
        cpsr := cpsr.(thumb := true);
      } else {
        r := r[15 := JumpedTo(a, false)];
        cpsr := cpsr.(thumb := false);
      }
    }

    method RestoreCPSR()
      requires Shaped()
      modifies this`r, this`banks, this`cpsr
      ensures Shaped() && cpsr == if HasBank(old(cpsr.mode)) then old(spsr)[old(cpsr.mode)] else old(cpsr)
      ensures SameFile(old(cpsr.mode), old(r), old(banks), cpsr.mode, r, banks)
    {
      var oldcpsr := cpsr;
      if HasBank(cpsr.mode) {
        cpsr := spsr[cpsr.mode];
      }
      UpdateMode(oldcpsr.mode, cpsr.mode);
    }

    /** Entry to the IRQ handler, when interrupts are on. */
    method TriggerIRQ(exceptionBase: Word)
      requires Shaped() && exceptionBase % 4 == 0
      modifies this
      ensures Shaped()
      ensures old(cpsr.irqOff) ==> r == old(r) && banks == old(banks) && spsr == old(spsr) && cpsr == old(cpsr)
      ensures !old(cpsr.irqOff) ==>
        && cpsr == Psr(old(cpsr.flags), true, true, false, IRQ) && spsr == old(spsr)[IRQ := old(cpsr)]
        && r[14] == LinkTo(old(r)[15], old(cpsr.thumb))
        && r[14] as int == (old(r)[15] as int + if old(cpsr.thumb) then 2 else 0) % 0x1_0000_0000
        && r[15] as int == (exceptionBase + 0x1C) % 0x1_0000_0000
        && forall owner: nat, i: nat | (owner, i) != (IRQ, 14) && (owner, i) != (USR, 15) ::
             FileAt(IRQ, r, banks, owner, i) == old(FileAt(cpsr.mode, r, banks, owner, i))
    {
      if cpsr.irqOff {
        return;
      }
      var oldcpsr := cpsr;
      cpsr := Psr(cpsr.flags, true, true, false, IRQ);
      UpdateMode(oldcpsr.mode, IRQ);
      spsr := spsr[IRQ := oldcpsr];
      LinkInNumbers(r[15], oldcpsr.thumb);
      r := r[14 := LinkTo(r[15], oldcpsr.thumb)];
      VectorInNumbers(exceptionBase);
      JumpTo((exceptionBase + 0x18) % 0x1_0000_0000, false);
    }
  }

  function WithBit0(addr: Word, bit: bool): (a: Word)
    ensures (a % 2 == 1) == bit
  {
    if bit then addr - addr % 2 + 1 else addr - addr % 2
  }

  lemma SameTarget(addr: Word, thumb: bool)
    ensures JumpedTo(WithBit0(addr, thumb), thumb) == JumpedTo(addr, thumb)
  {
    var q, m := addr / 4, addr % 4;
    Quarter(q, m);
    Quarter(q, m - m % 2);
    if !thumb {
      assert WithBit0(addr, thumb) as int == 4 * q + (m - m % 2);
      assert WithBit0(addr, thumb) - WithBit0(addr, thumb) % 4 == 4 * q == addr - addr % 4;
    }
  }

  lemma Quarter(q: nat, m: nat)
    requires m < 4
    ensures (4 * q + m) % 4 == m && (4 * q + m) % 2 == m % 2
  {
  }

  /** What R15 holds after a jump: the address behind the target. */
  function JumpedTo(addr: Word, thumb: bool): Word {
    if thumb then (addr - addr % 2 + 2) % 0x1_0000_0000 else (addr - addr % 4 + 4) % 0x1_0000_0000
  }

  lemma VectorInNumbers(base: Word)
    requires base % 4 == 0
    ensures JumpedTo((base + 0x18) % 0x1_0000_0000, false) as int == (base + 0x1C) % 0x1_0000_0000
  {
  }

  lemma JumpedInNumbers(addr: Word)
    ensures JumpedTo(addr, true) as int == (addr - addr % 2 + 2) % 0x1_0000_0000
    ensures JumpedTo(addr, false) as int == (addr - addr % 4 + 4) % 0x1_0000_0000
  {
  }

  /** The link register of an interrupt: four past the next instruction. */
  function LinkTo(pc: Word, thumb: bool): Word { (pc + if thumb then 2 else 0) % 0x1_0000_0000 }

  lemma LinkInNumbers(pc: Word, thumb: bool)
    ensures LinkTo(pc, thumb) as int == (pc as int + if thumb then 2 else 0) % 0x1_0000_0000
  {
  }

  /** The next instruction, from the link. */
  function BackFrom(link: Word): Word { (link as int - 4) % 0x1_0000_0000 }

  lemma OnlyPc(mode: nat, r: Regs, banks: Banks, mode': nat, r': Regs, banks': Banks, pc: Word)
    requires ShapedBanks(banks) && ShapedBanks(banks') && SameFile(mode, r, banks, mode', r', banks')
    ensures SameFile(mode, r[15 := pc], banks, mode', r'[15 := pc], banks')
  {
    var s, s' := r[15 := pc], r'[15 := pc];
    forall owner: nat, i: nat ensures FileAt(mode', s', banks', owner, i) == FileAt(mode, s, banks, owner, i) {
      assert FileAt(mode', r', banks', owner, i) == FileAt(mode, r, banks, owner, i);
    }
  }

  /** An interrupt and the return from it, with R15 aligned as it always is. The status word and
      R15 come back, and so do R0 to R14 unless IRQ mode was interrupted, whose R14 then is
      the link. */
  method IrqAndBack(cpu: Arm, exceptionBase: Word)
    requires cpu.Shaped() && !cpu.cpsr.irqOff && exceptionBase % 4 == 0
    requires cpu.r[15] % (if cpu.cpsr.thumb then 2 else 4) == 0
    modifies cpu
    ensures cpu.Shaped() && cpu.cpsr == old(cpu.cpsr) && cpu.r[15] == old(cpu.r[15])
    ensures forall i | 0 <= i < 14 :: cpu.r[i] == old(cpu.r)[i]
    ensures cpu.r[14] ==
      if old(cpu.cpsr.mode) == IRQ then LinkTo(old(cpu.r)[15], old(cpu.cpsr.thumb)) else old(cpu.r)[14]
    ensures forall owner: nat, i: nat | (owner, i) != (IRQ, 14) ::
      FileAt(cpu.cpsr.mode, cpu.r, cpu.banks, owner, i) == old(FileAt(cpu.cpsr.mode, cpu.r, cpu.banks, owner, i))
  {
    ghost var r0, banks0, mode0 := cpu.r, cpu.banks, cpu.cpsr.mode;
    cpu.TriggerIRQ(exceptionBase);
    ghost var r1, banks1 := cpu.r, cpu.banks;
    cpu.JumpTo(BackFrom(cpu.r[14]), true);
    VisibleAgain(mode0, r0, banks0, r1, banks1, cpu.r, cpu.banks, cpu.cpsr.thumb);
  }

  lemma VisibleAgain(mode: nat, r0: Regs, banks0: Banks, r1: Regs, banks1: Banks, r2: Regs, banks2: Banks, thumb: bool)
    requires ShapedBanks(banks0) && ShapedBanks(banks1) && ShapedBanks(banks2)
    requires r0[15] % (if thumb then 2 else 4) == 0 && r1[14] == LinkTo(r0[15], thumb)
    requires forall owner: nat, i: nat | (owner, i) != (IRQ, 14) && (owner, i) != (USR, 15) ::
               FileAt(IRQ, r1, banks1, owner, i) == FileAt(mode, r0, banks0, owner, i)
    requires SameFile(IRQ, r1[15 := JumpedTo(BackFrom(r1[14]), thumb)], banks1, mode, r2, banks2)
    ensures r2[15] == r0[15]
    ensures forall i | 0 <= i < 14 :: r2[i] == r0[i]
    ensures r2[14] == if mode == IRQ then LinkTo(r0[15], thumb) else r0[14]
    ensures forall owner: nat, i: nat | (owner, i) != (IRQ, 14) ::
      FileAt(mode, r2, banks2, owner, i) == FileAt(mode, r0, banks0, owner, i)
  {
    var pc := JumpedTo(BackFrom(r1[14]), thumb);
    ReturnAddress(r0[15], thumb);
    hide JumpedTo, LinkTo, BackFrom;
    forall owner: nat, i: nat | (owner, i) != (IRQ, 14)
      ensures FileAt(mode, r2, banks2, owner, i) == FileAt(mode, r0, banks0, owner, i)
    {
      assert FileAt(mode, r2, banks2, owner, i) == FileAt(IRQ, r1[15 := pc], banks1, owner, i);
    }
    forall i | 0 <= i < 16 ensures r2[i] == FileAt(mode, r2, banks2, Owner(mode, i), i) &&
      r0[i] == FileAt(mode, r0, banks0, Owner(mode, i), i) {
    }
    assert FileAt(mode, r2, banks2, IRQ, 14) == FileAt(IRQ, r1[15 := pc], banks1, IRQ, 14) == r1[14];
  }

  lemma ThumbReturn(pc: Word)
    requires pc % 2 == 0
    ensures var back := BackFrom(LinkTo(pc, true));
      back as int == (if pc < 2 then 0xFFFF_FFFE else pc - 2) && back % 2 == 0
  {
    assert LinkTo(pc, true) as int == if pc < 0xFFFF_FFFE then pc + 2 else 0;
  }

  lemma ArmReturn(pc: Word)
    requires pc % 4 == 0
    ensures var back := BackFrom(LinkTo(pc, false));
      back as int == (if pc < 4 then 0xFFFF_FFFC else pc - 4) && back % 4 == 0
  {
  }

  lemma ReturnAddress(pc: Word, thumb: bool)
    requires pc % (if thumb then 2 else 4) == 0
    ensures JumpedTo(BackFrom(LinkTo(pc, thumb)), thumb) == pc
  {
    hide LinkTo, BackFrom;
    if thumb {
      ThumbReturn(pc);
    } else {
      ArmReturn(pc);
    }
  }

  // ---- runs of mode changes and register writes

  datatype Step = Mode(mode: nat) | SetReg(i: nat, v: Word)

  /** The file after a step, for a machine in a mode: only the bank that owns a register changes. */
  function Stepped(file: (nat, nat) -> Word, mode: nat, step: Step): (nat, nat) -> Word {
    match step
    case Mode(_) => file
    case SetReg(i, v) => (owner: nat, k: nat) => if k == i && owner == Owner(mode, i) then v else file(owner, k)
  }

  function After(file: (nat, nat) -> Word, mode: nat, steps: seq<Step>): ((nat, nat) -> Word, nat) {
    if steps == [] then (file, mode)
    else
      var (f, m) := After(file, mode, steps[..|steps| - 1]);
      var last := steps[|steps| - 1];
      (Stepped(f, m, last), if last.Mode? then last.mode else m)
  }

  ghost predicate Holds(mode: nat, r: Regs, banks: Banks, file: (nat, nat) -> Word)
    requires ShapedBanks(banks)
  {
    forall owner: nat, i: nat :: FileAt(mode, r, banks, owner, i) == file(owner, i)
  }

  /** Over every sequence of mode changes and register writes, the swapped registers are the
      register file. */
  method Run(cpu: Arm, steps: seq<Step>, ghost file: (nat, nat) -> Word)
    requires cpu.Shaped() && Holds(cpu.cpsr.mode, cpu.r, cpu.banks, file)
    requires forall k | 0 <= k < |steps| && steps[k].SetReg? :: steps[k].i < 16
    modifies cpu
    ensures var (f, m) := After(file, old(cpu.cpsr.mode), steps);
      cpu.Shaped() && cpu.cpsr.mode == m && Holds(m, cpu.r, cpu.banks, f)
  {
    hide FileAt, Stepped;
    for k := 0 to |steps|
      invariant cpu.Shaped()
      invariant var (f, m) := After(file, old(cpu.cpsr.mode), steps[..k]);
        cpu.cpsr.mode == m && Holds(m, cpu.r, cpu.banks, f)
    {
      ghost var (f, m) := After(file, old(cpu.cpsr.mode), steps[..k]);
      assert steps[..k + 1][..k] == steps[..k];
      match steps[k] {
        case Mode(mode) =>
          ModeKeepsFile(f, m, mode);
          cpu.UpdateMode(cpu.cpsr.mode, mode);
          cpu.cpsr := cpu.cpsr.(mode := mode);
        case SetReg(i, v) =>
          RegWritten(m, cpu.r, cpu.banks, f, i, v);
          cpu.r := cpu.r[i := v];
      }
    }
    assert steps[..|steps|] == steps;
  }

  lemma ModeKeepsFile(file: (nat, nat) -> Word, mode: nat, next: nat)
    ensures Stepped(file, mode, Mode(next)) == file
  {
  }

  lemma RegWritten(mode: nat, r: Regs, banks: Banks, file: (nat, nat) -> Word, i: nat, v: Word)
    requires ShapedBanks(banks) && i < 16 && Holds(mode, r, banks, file)
    ensures Holds(mode, r[i := v], banks, Stepped(file, mode, SetReg(i, v)))
  {
    forall owner: nat, k: nat
      ensures FileAt(mode, r[i := v], banks, owner, k) == Stepped(file, mode, SetReg(i, v))(owner, k)
    {
      assert FileAt(mode, r, banks, owner, k) == file(owner, k);
    }
  }

  /** Swapping a mode's bank out leaves the layout of user mode. */
  lemma LeftBank(mode: nat, r: Regs, banks: Banks, r': Regs, banks': Banks)
    requires ShapedBanks(banks) && ShapedBanks(banks')
    requires if HasBank(mode) then r' == r[..First(mode)] + banks[mode] + [r[15]] &&
      banks' == banks[mode := r[First(mode)..15]]
             else r' == r && banks' == banks
    ensures SameFile(mode, r, banks, USR, r', banks')
  {
  }

  lemma EnteredBank(mode: nat, r: Regs, banks: Banks, r': Regs, banks': Banks)
    requires ShapedBanks(banks) && ShapedBanks(banks')
    requires if HasBank(mode) then r' == r[..First(mode)] + banks[mode] + [r[15]] &&
      banks' == banks[mode := r[First(mode)..15]]
             else r' == r && banks' == banks
    ensures SameFile(USR, r, banks, mode, r', banks')
  {
  }

  // ---- user-bank transfers without writeback

  /** The registers of an instruction's list, by number. */
  type List = s: seq<bool> | |s| == 16 witness seq(16, _ => false)

  /** How many listed registers are below i. */
  function Rank(list: List, i: nat): (n: nat)
    requires i <= 16
    ensures n <= i
  {
    if i == 0 then 0 else Rank(list, i - 1) + if list[i - 1] then 1 else 0
  }

  /** The address of a listed register: ascending from the lowest, for each of the four modes. */
  function AddressOf(base: Word, list: List, up: bool, pre: bool, i: nat): Word
    requires i <= 16
  {
    var start := if up then base as int else base as int - 4 * Rank(list, 16);
    (start + 4 * Rank(list, i) + (if pre == up then 4 else 0)) % 0x1_0000_0000
  }

  function Add4(a: Word): Word { (a + 4) % 0x1_0000_0000 }

  /** The running address before register i. */
  function Running(base: Word, list: List, up: bool, i: nat): Word
    requires i <= 16
  {
    var start := if up then base as int else base as int - 4 * Rank(list, 16);
    (start + 4 * Rank(list, i)) % 0x1_0000_0000
  }

  /** It goes on by a word at each listed register, before the access or behind it. */
  lemma RunningOn(base: Word, list: List, up: bool, pre: bool, i: nat)
    requires i < 16
    ensures Running(base, list, up, i + 1) ==
      if list[i] then Add4(Running(base, list, up, i)) else Running(base, list, up, i)
    ensures AddressOf(base, list, up, pre, i) ==
      if pre == up then Add4(Running(base, list, up, i)) else Running(base, list, up, i)
  {
    RankSteps(list, i);
    hide Rank;
    var a := (if up then base as int else base as int - 4 * Rank(list, 16)) + 4 * Rank(list, i);
    WordOn(a);
  }

  lemma WordOn(a: int)
    ensures (a % 0x1_0000_0000 + 4) % 0x1_0000_0000 == (a + 4) % 0x1_0000_0000
  {
  }

  lemma RankSteps(list: List, i: nat)
    requires i < 16
    ensures Rank(list, i + 1) == Rank(list, i) + if list[i] then 1 else 0
  {
  }

  /** The loop over the list that takes a descending transfer to its lowest address. */
  method FirstAddress(oldbase: Word, list: List, up: bool) returns (base: Word)
    ensures base == Running(oldbase, list, up, 0)
  {
    hide Rank;
    base := oldbase;
    RankZero(list);
    if !up {
      for i := 0 to 16
        invariant base as int == (oldbase - 4 * Rank(list, i)) % 0x1_0000_0000
      {
        RankSteps(list, i);
        if list[i] {
          base := (base - 4) % 0x1_0000_0000;
        }
      }
    }
  }

  lemma RankZero(list: List)
    ensures Rank(list, 0) == 0
  {
  }

  /** The listed registers below i. */
  function ListedBelow(list: List, i: nat): (s: set<nat>)
    requires i <= 16
    ensures forall k :: k in s <==> 0 <= k < i && list[k]
  {
    set k: nat | k < i && list[k]
  }

  lemma {:induction false} RankIsCount(list: List, i: nat)
    requires i <= 16
    ensures Rank(list, i) == |ListedBelow(list, i)|
  {
    if i > 0 {
      RankIsCount(list, i - 1);
      if list[i - 1] {
        assert ListedBelow(list, i) == ListedBelow(list, i - 1) + {i - 1};
      } else {
        assert ListedBelow(list, i) == ListedBelow(list, i - 1);
      }
    } else {
      assert ListedBelow(list, 0) == {};
    }
  }

  /** With n registers listed, k of them below i: increment after, increment before, decrement
      after and decrement before. */
  lemma AddressInNumbers(base: Word, list: List, i: nat)
    requires i < 16 && list[i]
    ensures var n, k := |ListedBelow(list, 16)|, |ListedBelow(list, i)|;
      && AddressOf(base, list, true, false, i) as int == (base + 4 * k) % 0x1_0000_0000
      && AddressOf(base, list, true, true, i) as int == (base + 4 * (k + 1)) % 0x1_0000_0000
      && AddressOf(base, list, false, false, i) as int == (base - 4 * (n - 1 - k)) % 0x1_0000_0000
      && AddressOf(base, list, false, true, i) as int == (base - 4 * (n - k)) % 0x1_0000_0000
  {
    RankIsCount(list, 16);
    RankIsCount(list, i);
    hide Rank;
  }

  type Memory = Word -> Word

  /** The value STM stores for a listed register: the user bank's, but the running address for a
      base register that is not banked and not the lowest, on the ARM7. */
  function StoredFor(num: nat, mode: nat, r: Regs, banks: Banks, baseid: nat, list: List, address: Word, i: nat): Word
    requires ShapedBanks(banks) && i < 16
  {
    if i == baseid && Owner(mode, i) == USR && num != 0 && Rank(list, i) > 0 then address
    else FileAt(mode, r, banks, USR, i)
  }

  /** The accesses for the listed registers below n. */
  function StoresBelow(cpu: (nat, nat, Regs, Banks), baseid: nat, list: List, up: bool, pre: bool,
                       n: nat): seq<(Word, Word)>
    requires ShapedBanks(cpu.3) && n <= 16 && baseid < 16
  {
    if n == 0 then []
    else
      var before := StoresBelow(cpu, baseid, list, up, pre, n - 1);
      var a := AddressOf(cpu.2[baseid], list, up, pre, n - 1);
      if list[n - 1] then before + [(a, StoredFor(cpu.0, cpu.1, cpu.2, cpu.3, baseid, list, a, n - 1))] else before
  }

  lemma UserLayout(mode: nat, r: Regs, banks: Banks, r': Regs, banks': Banks, i: nat)
    requires ShapedBanks(banks) && ShapedBanks(banks') && SameFile(mode, r, banks, USR, r', banks') && i < 16
    ensures r'[i] == FileAt(mode, r, banks, USR, i) && (Owner(mode, i) == USR ==> r'[i] == r[i])
  {
    assert FileAt(USR, r', banks', USR, i) == FileAt(mode, r, banks, USR, i);
  }

  lemma SameAgain(mode: nat, r: Regs, banks: Banks, r': Regs, banks': Banks)
    requires ShapedBanks(banks) && ShapedBanks(banks') && SameFile(mode, r, banks, mode, r', banks')
    ensures r' == r
  {
    forall i | 0 <= i < 16 ensures r'[i] == r[i] {
      assert FileAt(mode, r', banks', Owner(mode, i), i) == FileAt(mode, r, banks, Owner(mode, i), i);
    }
  }

  /** The base register is taken from the current bank exactly if it is not the user's. */
  predicate BaseIsBanked(mode: nat, baseid: nat) {
    if mode == FIQ then 8 <= baseid < 15 else mode != USR && mode != 0x1F && 13 <= baseid < 15
  }

  predicate KnownMode(mode: nat) { HasBank(mode) || mode == USR || mode == 0x1F }

  /** A_STM with the user-bank bit, in a mode the processor has. */
  method StoreUser(cpu: Arm, baseid: nat, list: List, up: bool, pre: bool) returns (log: seq<(Word, Word)>)
    requires cpu.Shaped() && baseid < 16 && KnownMode(cpu.cpsr.mode)
    modifies cpu`r, cpu`banks
    ensures cpu.Shaped() && cpu.r == old(cpu.r)
    ensures SameFile(cpu.cpsr.mode, old(cpu.r), old(cpu.banks), cpu.cpsr.mode, cpu.r, cpu.banks)
    ensures log == StoresBelow((cpu.num, cpu.cpsr.mode, old(cpu.r), old(cpu.banks)), baseid, list, up, pre, 16)
  {
    hide FileAt, Owner, AddressOf;
    ghost var r0, banks0, mode := cpu.r, cpu.banks, cpu.cpsr.mode;
    var oldbase := cpu.r[baseid];
    var base := FirstAddress(oldbase, list, up);
    var preinc := if up then pre else !pre;
    var isBanked := BaseIsBanked(cpu.cpsr.mode, baseid);
    cpu.UpdateMode(cpu.cpsr.mode, USR);
    ghost var r1, banks1 := cpu.r, cpu.banks;
    log := [];
    for i := 0 to 16
      invariant cpu.r == r1 && cpu.banks == banks1
      invariant base == Running(oldbase, list, up, i)
      invariant log == StoresBelow((cpu.num, mode, r0, banks0), baseid, list, up, pre, i)
    {
      RunningOn(oldbase, list, up, pre, i);
      if list[i] {
        if preinc {
          base := Add4(base);
        }
        UserLayout(mode, r0, banks0, cpu.r, cpu.banks, i);
        BankedBase(mode, baseid);
        if i == baseid && !isBanked {
          if cpu.num == 0 || Rank(list, i) == 0 {
            log := log + [(base, oldbase)];
          } else {
            log := log + [(base, base)];
          }
        } else {
          log := log + [(base, cpu.r[i])];
        }
        if !preinc {
          base := Add4(base);
        }
      }
    }
    cpu.UpdateMode(USR, cpu.cpsr.mode);
    SameAgain(mode, r0, banks0, cpu.r, cpu.banks);
  }

  lemma BankedBase(mode: nat, baseid: nat)
    requires KnownMode(mode)
    ensures BaseIsBanked(mode, baseid) <==> Owner(mode, baseid) != USR
  {
  }

  /** The instruction stores the running address instead of the base register's value: on the
      ARM7, for a listed base of the user bank that is not the lowest listed register, unless
      the addresses end at the base with it as the highest. */
  predicate StoresWrongBase(num: nat, mode: nat, baseid: nat, list: List, up: bool, pre: bool)
    requires baseid < 16
  {
    && num != 0 && list[baseid] && Owner(mode, baseid) == USR && Rank(list, baseid) > 0
    && !(!up && !pre && Rank(list, baseid) + 1 == Rank(list, 16))
  }

  lemma {:induction false} RankGrows(list: List, i: nat, j: nat)
    requires i <= j <= 16
    ensures Rank(list, i) <= Rank(list, j) && (i < j && list[i] ==> Rank(list, i) < Rank(list, j))
    decreases j - i
  {
    if i < j {
      RankGrows(list, i, j - 1);
    }
  }

  /** Where the running address is the base: at the lowest register of STMIA, and at the highest
      of STMDA. */
  lemma MeetsBase(base: Word, list: List, up: bool, pre: bool, i: nat)
    requires i < 16 && list[i]
    ensures AddressOf(base, list, up, pre, i) == base <==>
      !pre && if up then Rank(list, i) == 0 else Rank(list, i) + 1 == Rank(list, 16)
  {
    RankGrows(list, i, 16);
    var k := 4 * Rank(list, i) + (if pre == up then 4 else 0) - if up then 0 else 4 * Rank(list, 16);
    assert -64 <= k <= 64;
    assert AddressOf(base, list, up, pre, i) == (base + k) % 0x1_0000_0000;
  }

  /** A register is stored with its value in the user bank, except exactly for the base of such an
      instruction. */
  lemma StoresUserExactly(num: nat, mode: nat, r: Regs, banks: Banks, baseid: nat, list: List, up: bool, pre: bool,
                          i: nat)
    requires ShapedBanks(banks) && baseid < 16 && i < 16 && list[i]
    ensures var stored := StoredFor(num, mode, r, banks, baseid, list, AddressOf(r[baseid], list, up, pre, i), i);
      stored == FileAt(mode, r, banks, USR, i) <==> !(i == baseid && StoresWrongBase(num, mode, baseid, list, up, pre))
  {
    hide AddressOf, Rank;
    MeetsBase(r[baseid], list, up, pre, i);
  }

  /** The stores of an instruction that stores the user bank. */
  function UserStores(mode: nat, r: Regs, banks: Banks, baseid: nat, list: List, up: bool, pre: bool, n: nat)
    : seq<(Word, Word)>
    requires ShapedBanks(banks) && n <= 16 && baseid < 16
  {
    if n == 0 then []
    else
      UserStores(mode, r, banks, baseid, list, up, pre, n - 1) +
      if list[n - 1] then [(AddressOf(r[baseid], list, up, pre, n - 1), FileAt(mode, r, banks, USR, n - 1))] else []
  }

  lemma {:induction false} StoresBelowExactly(num: nat, mode: nat, r: Regs, banks: Banks, baseid: nat, list: List,
                                              up: bool, pre: bool, n: nat)
    requires ShapedBanks(banks) && n <= 16 && baseid < 16
    ensures var log := StoresBelow((num, mode, r, banks), baseid, list, up, pre, n);
      var user := UserStores(mode, r, banks, baseid, list, up, pre, n);
      |log| == |user| && (log == user <==> !(baseid < n && StoresWrongBase(num, mode, baseid, list, up, pre)))
  {
    hide AddressOf, Rank, StoredFor, FileAt;
    if n > 0 {
      StoresBelowExactly(num, mode, r, banks, baseid, list, up, pre, n - 1);
      var log := StoresBelow((num, mode, r, banks), baseid, list, up, pre, n - 1);
      var user := UserStores(mode, r, banks, baseid, list, up, pre, n - 1);
      if list[n - 1] {
        StoresUserExactly(num, mode, r, banks, baseid, list, up, pre, n - 1);
        var a := AddressOf(r[baseid], list, up, pre, n - 1);
        var x, y := (a, StoredFor(num, mode, r, banks, baseid, list, a, n - 1)),
          (a, FileAt(mode, r, banks, USR, n - 1));
        assert (log + [x])[..|log|] == log && (user + [y])[..|user|] == user;
        assert (log + [x])[|log|] == x && (user + [y])[|user|] == y;
      } else {
        assert user + [] == user;
      }
    }
  }

  /** STM stores the user bank if and only if it is not such an instruction. */
  lemma StmStoresUserExactly(num: nat, mode: nat, r: Regs, banks: Banks, baseid: nat, list: List, up: bool, pre: bool)
    requires ShapedBanks(banks) && baseid < 16
    ensures var log := StoresBelow((num, mode, r, banks), baseid, list, up, pre, 16);
      log == UserStores(mode, r, banks, baseid, list, up, pre, 16) <==>
        !StoresWrongBase(num, mode, baseid, list, up, pre)
  {
    StoresBelowExactly(num, mode, r, banks, baseid, list, up, pre, 16);
  }

  /** STMIA R1, {R0, R1}^ in supervisor mode of the ARM7. */
  const TWO_REGISTERS: List := [true, true] + seq(14, _ => false)

  /** It stores the address 0x1004 where R1, 0x1000, belongs. */
  lemma WrongBaseStored(r: Regs, banks: Banks)
    requires ShapedBanks(banks) && r[1] == 0x1000
    ensures StoresBelow((1, SVC, r, banks), 1, TWO_REGISTERS, true, false, 16) == [(0x1000, r[0]), (0x1004, 0x1004)]
    ensures UserStores(SVC, r, banks, 1, TWO_REGISTERS, true, false, 16) == [(0x1000, r[0]), (0x1004, 0x1000)]
  {
    RankOfTwo(0);
    RankOfTwo(1);
    NoMoreStores(r, banks, 16);
    var cpu := (1, SVC, r, banks);
    assert AddressOf(0x1000, TWO_REGISTERS, true, false, 0) == 0x1000;
    assert AddressOf(0x1000, TWO_REGISTERS, true, false, 1) == 0x1004;
    assert StoresBelow(cpu, 1, TWO_REGISTERS, true, false, 0) == [];
    assert StoresBelow(cpu, 1, TWO_REGISTERS, true, false, 1) == [(0x1000, r[0])];
    assert UserStores(SVC, r, banks, 1, TWO_REGISTERS, true, false, 0) == [];
    assert UserStores(SVC, r, banks, 1, TWO_REGISTERS, true, false, 1) == [(0x1000, r[0])];
  }

  lemma {:induction false} RankOfTwo(i: nat)
    requires i <= 16
    ensures Rank(TWO_REGISTERS, i) == if i < 2 then i else 2
  {
    if i > 0 {
      RankOfTwo(i - 1);
    }
  }

  lemma {:induction false} NoMoreStores(r: Regs, banks: Banks, n: nat)
    requires ShapedBanks(banks) && 2 <= n <= 16
    ensures StoresBelow((1, SVC, r, banks), 1, TWO_REGISTERS, true, false, n)
      == StoresBelow((1, SVC, r, banks), 1, TWO_REGISTERS, true, false, 2)
    ensures UserStores(SVC, r, banks, 1, TWO_REGISTERS, true, false, n)
      == UserStores(SVC, r, banks, 1, TWO_REGISTERS, true, false, 2)
  {
    if n > 2 {
      NoMoreStores(r, banks, n - 1);
      assert !TWO_REGISTERS[n - 1];
    }
  }

  /** A_LDM with the user-bank bit and without R15: the listed registers of the user bank are
      loaded, and every other bank keeps its values. */
  method LoadUser(cpu: Arm, baseid: nat, list: List, up: bool, pre: bool, mem: Memory)
    requires cpu.Shaped() && baseid < 16 && !list[15]
    modifies cpu`r, cpu`banks
    ensures cpu.Shaped()
    ensures forall owner: nat, i: nat | i < 16 ::
      FileAt(cpu.cpsr.mode, cpu.r, cpu.banks, owner, i)
      == (if owner == USR && list[i] then mem(AddressOf(old(cpu.r)[baseid], list, up, pre, i))
          else old(FileAt(cpu.cpsr.mode, cpu.r, cpu.banks, owner, i)))
  {
    hide AddressOf;
    var oldbase := cpu.r[baseid];
    var base := FirstAddress(oldbase, list, up);
    var preinc := if up then pre else !pre;
    cpu.UpdateMode(cpu.cpsr.mode, USR);
    ghost var r1, banks1 := cpu.r, cpu.banks;
    var loaded := cpu.r;
    for i := 0 to 15
      invariant cpu.r == r1 && cpu.banks == banks1 && base == Running(oldbase, list, up, i)
      invariant forall k | 0 <= k < 16 ::
        loaded[k] == if k < i && list[k] then mem(AddressOf(oldbase, list, up, pre, k)) else r1[k]
    {
      RunningOn(oldbase, list, up, pre, i);
      if list[i] {
        if preinc {
          base := Add4(base);
        }
        loaded := loaded[i := mem(base)];
        if !preinc {
          base := Add4(base);
        }
      }
    }
    cpu.r := loaded;
    UserLoaded(r1, banks1, loaded);
    cpu.UpdateMode(USR, cpu.cpsr.mode);
  }

  lemma UserLoaded(r: Regs, banks: Banks, r': Regs)
    requires ShapedBanks(banks)
    ensures forall owner: nat, i: nat | i < 16 ::
      FileAt(USR, r', banks, owner, i) == if owner == USR then r'[i] else FileAt(USR, r, banks, owner, i)
    ensures forall i: nat | i < 16 :: FileAt(USR, r, banks, USR, i) == r[i]
  {
  }
}
