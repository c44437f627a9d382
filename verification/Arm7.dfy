/** The ARM7 with its code in main memory: what the fetch loop is told of its instructions in
    either state, and where main memory is. */
module Arm7 {
  import opened CodeCoverage
  import opened FetchLoop
  import opened Options

  /** A field of `2 * half` values, taken as a signed number. */
  function Signed(v: nat, half: nat): int
    requires half > 0
  {
    if v % (2 * half) < half then v % (2 * half) else v % (2 * half) - 2 * half
  }

  const PLAIN := Info(false, false, false, false, 0xE, Unknown, None)
  const JUMP := Info(true, true, false, false, 0xE, Unknown, None)

  // ---- Thumb state

  /** The halfword is the two bytes, the low one first. The merged long branch counts as a jump
      to an unknown target, because the bit that is tested for its exchanging form is always
      set in its first half. */
  function ThumbDecode(before: seq<Byte>, bytes: seq<Byte>): Info {
    if |bytes| < 2 then PLAIN
    else
      var lo: nat, hi: nat := bytes[0], bytes[1];
      var rd := lo % 8 + 8 * (lo / 0x80);
      if hi in {0x44, 0x46} then
        if rd == 15 then JUMP else PLAIN.(writesLink := rd == 14)
      else if hi == 0x47 then
        JUMP.(writesLink := lo >= 0x80, target := if lo < 0x80 && lo / 8 == 14 then Returns else Unknown)
      else if 0x48 <= hi < 0x50 then PLAIN.(literal := Some(4 * lo))
      else if hi == 0xBD then JUMP
      else if hi in {0xB1, 0xB2, 0xB3, 0xBE, 0xBF, 0xDE, 0xDF} || 0xB6 <= hi < 0xBC then JUMP.(writesLink := true)
      else if 0xD0 <= hi < 0xDE then JUMP.(cond := hi % 16, target := Fixed(4 + 2 * Signed(lo, 128), false))
      else if 0xE0 <= hi < 0xE8 then JUMP.(target := Fixed(4 + 2 * Signed(lo + 256 * (hi % 8), 1024), false))
      else if 0xF0 <= hi < 0xF8 then PLAIN.(writesLink := true)
      else if 0xE8 <= hi then JUMP.(writesLink := true, secondHalf := |before| >= 2 && 0xF0 <= before[1] < 0xF8)
      else PLAIN
  }

  // ---- ARM state

  /** The fields of an instruction, by their lowest bits: bits 20 to 27 are `op`. */
  datatype Fields = Fields(cond: nat, op: nat, rn: nat, rd: nat, rs: nat, mid: nat, rm: nat)

  function FieldsOf(b: seq<Byte>): (f: Fields)
    requires |b| >= 4
    ensures f.cond < 16 && f.op < 256 && f.rn < 16 && f.rd < 16 && f.rs < 16 && f.mid < 16 && f.rm < 16
  {
    Fields(b[3] / 16, 16 * (b[3] % 16) + b[2] / 16, b[2] % 16, b[1] / 16, b[1] % 16, b[0] / 16, b[0] % 16)
  }

  predicate Bit(n: nat, weight: nat)
    requires weight > 0
  {
    n / weight % 2 == 1
  }

  function If(b: bool, r: nat): set<nat> { if b then {r} else {} }

  const UNDEFINED: set<nat> := {14, 15}

  /** Multiplications, swaps, and loads and stores of halfwords and doublewords. */
  function ExtraDest(f: Fields): set<nat> {
    if f.mid == 9 then
      if f.op < 4 then {f.rn} else if f.op < 8 then UNDEFINED else if f.op < 0x10 then {f.rn, f.rd}
      else if f.op in {0x10, 0x14} then {f.rd} else UNDEFINED
    else if f.op < 0x10 && Bit(f.op, 2) then UNDEFINED
    else
      (if Bit(f.op, 1) then {f.rd} else if f.mid == 0xD then {f.rd, f.rd + 1} else {})
      + If(f.op < 0x10 || Bit(f.op, 2), f.rn)
  }

  /** MRS, MSR and BX; the signed multiplications do nothing on the ARM7. */
  function MiscDest(f: Fields): set<nat> {
    if f.mid >= 8 then {}
    else if f.mid == 0 then If(f.op in {0x10, 0x14}, f.rd)
    else if f.op == 0x12 && f.mid == 1 then {15}
    else UNDEFINED
  }

  /** The registers an instruction may write; of a list only the last two matter. */
  function ArmDest(f: Fields): set<nat> {
    if f.op < 0x20 && f.mid in {9, 0xB, 0xD, 0xF} then ExtraDest(f)
    else if f.op in {0x10, 0x12, 0x14, 0x16} then MiscDest(f)
    else if f.op < 0x40 then
      if f.op in {0x30, 0x34} then UNDEFINED else If(!(0x10 <= f.op % 0x20 < 0x18), f.rd)
    else if f.op < 0x80 then
      if f.op >= 0x60 && Bit(f.mid, 1) then UNDEFINED
      else If(Bit(f.op, 1), f.rd) + If(f.op % 0x20 < 0x10 || Bit(f.op, 2), f.rn)
    else if f.op < 0xA0 then
      If(Bit(f.op, 2), f.rn) + If(Bit(f.op, 1) && Bit(f.rd, 4), 14) + If(Bit(f.op, 1) && Bit(f.rd, 8), 15)
    else if f.op < 0xB0 then {15}
    else if f.op < 0xE0 then UNDEFINED
    else if f.op < 0xF0 then
      if !Bit(f.mid, 1) || f.rs != 14 then UNDEFINED else If(Bit(f.op, 1), f.rd)
    else UNDEFINED
  }

  /** Cache and wait operations of a coprocessor end a block without a branch. */
  predicate EndsBlock(f: Fields) {
    && 0xE0 <= f.op < 0xF0 && !Bit(f.op, 1) && Bit(f.mid, 1) && f.rn == 7
    && (f.rm, f.mid / 2) in {(0, 4), (8, 2), (5, 0), (5, 1), (5, 2)}
  }

  predicate WritesControl(f: Fields) {
    (f.op in {0x32, 0x36} || (f.op in {0x12, 0x16} && f.mid == 0)) && Bit(f.rn, 1)
  }

  /** Words, bytes and unsigned halfwords loaded relative to the program counter. */
  function ArmLiteral(f: Fields): Option<int> {
    var sign := if Bit(f.op, 8) then 1 else -1;
    if f.rn != 15 then None
    else if 0x50 <= f.op < 0x60 && Bit(f.op, 1) then Some(sign * (256 * f.rs + 16 * f.mid + f.rm))
    else if f.op in {0x15, 0x17, 0x1D, 0x1F} && f.mid == 0xB then Some(sign * (16 * f.rs + f.rm))
    else None
  }

  function ArmTarget(f: Fields, b: seq<Byte>): Target
    requires |b| >= 4
  {
    var lo: nat, mid: nat, hi: nat := b[0], b[1], b[2];
    if 0xA0 <= f.op < 0xC0 then Fixed(8 + 4 * Signed(lo + 256 * mid + 0x1_0000 * hi, 0x80_0000), f.op >= 0xB0)
    else if f.op == 0x12 && f.mid == 1 && f.rm == 14 then Returns
    else Unknown
  }

  /** The word is the four bytes, the low one first; the condition 15 makes it do nothing. */
  function ArmDecode(before: seq<Byte>, bytes: seq<Byte>): Info {
    if |bytes| < 4 then PLAIN
    else
      var f := FieldsOf(bytes);
      var dest := ArmDest(f);
      if f.cond == 15 then PLAIN.(cond := 15)
      else
        Info(15 in dest, 15 in dest || EndsBlock(f), 14 in dest || WritesControl(f), false, f.cond,
             ArmTarget(f, bytes), ArmLiteral(f))
  }

  function Decode(thumb: bool, before: seq<Byte>, bytes: seq<Byte>): Info {
    if thumb then ThumbDecode(before, bytes) else ArmDecode(before, bytes)
  }

  // ---- the processor

  /** Main memory, region 4 of the local addresses, is at 0x02000000 and repeats every 4 MiB. */
  const MAIN: nat := 0x2000_0000
  const START: nat := 0x0200_0000

  function MainMemory(addr: nat): nat {
    if addr / 0x100_0000 == 2 then MAIN + addr % 0x40_0000 else 0
  }

  function Arm7Core(maxBlockSize: int, branches: bool, literals: bool): Core {
    Core(false, maxBlockSize, branches, literals, MainMemory, Decode)
  }

  lemma Arm7IsValid(maxBlockSize: int, branches: bool, literals: bool)
    ensures ValidCore(Arm7Core(maxBlockSize, branches, literals))
  {
    hide MainMemory, ThumbDecode, ArmDecode;
    forall a: nat ensures MainMemory(a) == 0 || MainMemory(a) % GRANULE_SIZE == a % GRANULE_SIZE {
      KeepsPosition(a);
    }
    forall t, p, b | Decode(t, p, b).target.Fixed?
      ensures Decode(t, p, b).target.offset % (if t then 2 else 4) == 0
    {
      AlignedOffset(t, p, b);
    }
  }

  lemma KeepsPosition(a: nat)
    ensures MainMemory(a) == 0 || MainMemory(a) % GRANULE_SIZE == a % GRANULE_SIZE
  {
    var q, m := a / 0x40_0000, a % 0x40_0000;
    assert a == 16 * (0x4_0000 * q) + m;
  }

  lemma AlignedOffset(thumb: bool, before: seq<Byte>, bytes: seq<Byte>)
    requires Decode(thumb, before, bytes).target.Fixed?
    ensures Decode(thumb, before, bytes).target.offset % (if thumb then 2 else 4) == 0
  {
    hide Signed, ArmDest, ArmLiteral, EndsBlock, WritesControl;
  }
}
