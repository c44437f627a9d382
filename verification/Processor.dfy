/** How the ARM7 reads its instructions, as numbers: jumps, returns, loads relative to the program
    counter, and which instructions may write R15 or R14. The decoder is compared with it. */
module Processor {
  import opened CodeCoverage
  import opened FetchLoop
  import opened Arm7
  import opened Options

  function Width(thumb: bool): nat { if thumb then 2 else 4 }

  /** The number of an instruction, its first byte the least significant. */
  function Word(b: seq<Byte>, thumb: bool): int
    requires |b| == Width(thumb)
  {
    var b0: int, b1: int := b[0], b[1];
    if thumb then b0 + 0x100 * b1
    else
      var b2: int, b3: int := b[2], b[3];
      b0 + 0x100 * b1 + 0x1_0000 * b2 + 0x100_0000 * b3
  }

  datatype Jump = Jump(distance: int, always: bool, links: bool)

  /** B and BL in either state, and what they add to the address of the instruction. */
  function JumpOf(w: int, thumb: bool): Option<Jump> {
    if thumb then
      if 0xD000 <= w < 0xDE00 then
        var v := w % 0x100;
        Some(Jump(4 + 2 * (if v < 0x80 then v else v - 0x100), false, false))
      else if 0xE000 <= w < 0xE800 then
        var v := w % 0x800;
        Some(Jump(4 + 2 * (if v < 0x400 then v else v - 0x800), true, false))
      else None
    else
      var cond, op, v := w / 0x1000_0000, w / 0x100_0000 % 0x10, w % 0x100_0000;
      if cond != 15 && op in {0xA, 0xB} then
        Some(Jump(8 + 4 * (if v < 0x80_0000 then v else v - 0x100_0000), cond == 14, op == 0xB))
      else None
  }

  /** BX LR. */
  predicate IsReturn(w: int, thumb: bool) {
    if thumb then 0x4770 <= w < 0x4778
    else w / 0x1000_0000 != 15 && w / 0x10_0000 % 0x100 == 0x12 && w / 0x10 % 0x10 == 1 && w % 0x10 == 14
  }

  /** How far from the program counter a load relative to it reads: words in Thumb state, words,
      bytes and unsigned halfwords with an offset in ARM state. */
  function LoadOf(w: int, thumb: bool): Option<int> {
    if thumb then if 0x4800 <= w < 0x5000 then Some(4 * (w % 0x100)) else None
    else
      var cond, op, rn := w / 0x1000_0000, w / 0x10_0000 % 0x100, w / 0x1_0000 % 0x10;
      var sign := if op / 8 % 2 == 1 then 1 else -1;
      if cond == 15 || rn != 15 then None
      else if 0x50 <= op < 0x60 && op % 2 == 1 then Some(sign * (w % 0x1000))
      else if op in {0x15, 0x17, 0x1D, 0x1F} && w / 0x10 % 0x10 == 0xB then
        Some(sign * (0x10 * (w / 0x100 % 0x10) + w % 0x10))
      else None
  }

  /** Bits 20 to 27 of an ARM instruction, and its fields of four bits from bit 16, 12, 8, 4 and 0 on. */
  datatype Arm = Arm(op: int, rn: int, rd: int, rs: int, mid: int, rm: int)

  function ArmOf(w: int): Arm {
    Arm(w / 0x10_0000 % 0x100, w / 0x1_0000 % 0x10, w / 0x1000 % 0x10, w / 0x100 % 0x10, w / 0x10 % 0x10, w % 0x10)
  }

  /** Arithmetic and logic with a result, in all operand forms. */
  predicate IsAlu(i: Arm) {
    i.op < 0x40 && !(0x10 <= i.op % 0x20 < 0x18) && !(i.op < 0x20 && i.mid in {9, 0xB, 0xD, 0xF})
  }

  /** Loads and stores of halfwords, signed bytes and doublewords. */
  predicate IsHalfTransfer(i: Arm) { i.op < 0x20 && i.mid in {0xB, 0xD, 0xF} }

  predicate IsTransfer(i: Arm) { 0x40 <= i.op < 0x80 && !(i.op >= 0x60 && i.mid % 2 == 1) }

  /** Post-indexed, or with the bit for writing back. */
  predicate WritesBase(i: Arm) { i.op % 0x20 < 0x10 || i.op / 2 % 2 == 1 }

  /** No instruction, one of a missing coprocessor, or SWI: an exception, which writes R14 and R15. */
  predicate IsException(i: Arm) {
    || (IsHalfTransfer(i) && i.op < 0x10 && i.op / 2 % 2 == 1)
    || (i.mid == 9 && (4 <= i.op < 8 || (0x10 <= i.op < 0x20 && i.op !in {0x10, 0x14})))
    || (i.op in {0x10, 0x12, 0x14, 0x16} && 1 <= i.mid < 8 && !(i.op == 0x12 && i.mid == 1))
    || i.op in {0x30, 0x34} || (0x60 <= i.op < 0x80 && i.mid % 2 == 1) || 0xC0 <= i.op < 0xE0
    || (0xE0 <= i.op < 0xF0 && (i.mid % 2 == 0 || i.rs != 14)) || 0xF0 <= i.op
  }

  /** The instruction may write register r, 14 or 15. */
  predicate MayWrite(i: Arm, r: int) {
    || (IsAlu(i) && r == i.rd)
    || (i.op < 4 && i.mid == 9 && r == i.rn)                                            // MUL, MLA
    || (8 <= i.op < 0x10 && i.mid == 9 && r in {i.rn, i.rd})                            // long multiplications
    || (i.op in {0x10, 0x14} && i.mid in {0, 9} && r == i.rd)                           // MRS, SWP
    || (IsHalfTransfer(i) && !IsException(i) &&
        ((i.op % 2 == 1 && r == i.rd) || (i.op % 2 == 0 && i.mid == 0xD && r in {i.rd, i.rd + 1}) ||
         (WritesBase(i) && r == i.rn)))
    || (IsTransfer(i) && ((i.op % 2 == 1 && r == i.rd) || (WritesBase(i) && r == i.rn)))
    || (0x80 <= i.op < 0xA0 && i.op / 2 % 2 == 1 && r == i.rn)                          // LDM, STM
    || (0x80 <= i.op < 0xA0 && i.op % 2 == 1 && (if r == 14 then i.rd / 4 else i.rd / 8) % 2 == 1)
    || (0xA0 <= i.op < 0xB0 && r == 15) || 0xB0 <= i.op < 0xC0                          // B, BL
    || (i.op == 0x12 && i.mid == 1 && r == 15)                                          // BX
    || (0xE0 <= i.op < 0xF0 && i.mid % 2 == 1 && i.rs == 14 && i.op % 2 == 1 && r == i.rd)   // MRC
    || IsException(i)
  }

  /** The instruction may write R15. */
  predicate Branches(w: int, thumb: bool) {
    if thumb then
      || (w / 0x100 in {0x44, 0x46} && w % 8 == 7 && w / 0x80 % 2 == 1)
      || 0x4700 <= w < 0x4800 || 0xB100 <= w < 0xB400 || 0xB600 <= w < 0xBC00 || 0xBD00 <= w < 0xC000
      || 0xD000 <= w < 0xF000 || 0xF800 <= w
    else w / 0x1000_0000 != 15 && MayWrite(ArmOf(w), 15)
  }

  /** The instruction may write R14, or changes the mode. */
  predicate WritesLink(w: int, thumb: bool) {
    if thumb then
      || (w / 0x100 in {0x44, 0x46} && w % 8 == 6 && w / 0x80 % 2 == 1)
      || 0x4780 <= w < 0x4800 || 0xB100 <= w < 0xB400 || 0xB600 <= w < 0xBC00 || 0xBE00 <= w < 0xC000
      || 0xDE00 <= w < 0xE000 || 0xE800 <= w
    else
      var i := ArmOf(w);
      w / 0x1000_0000 != 15 && (MayWrite(i, 14) ||
        ((i.op in {0x32, 0x36} || (i.op in {0x12, 0x16} && i.mid == 0)) && i.rn % 2 == 1))
  }

  /** Cache and wait operations of a coprocessor, which end a block. */
  predicate Waits(w: int, thumb: bool) {
    !thumb && var i := ArmOf(w);
      && w / 0x1000_0000 != 15 && 0xE0 <= i.op < 0xF0 && i.op % 2 == 0 && i.mid % 2 == 1 && i.rn == 7
      && (i.rm, i.mid / 2) in {(0, 4), (8, 2), (5, 0), (5, 1), (5, 2)}
  }

  predicate Conditional(w: int, thumb: bool) {
    if thumb then 0xD000 <= w < 0xDE00 else w / 0x1000_0000 < 14
  }

  // ---- the decoder

  /** What the fetch loop is told of an instruction. */
  predicate Agrees(i: Info, w: int, thumb: bool) {
    && (JumpOf(w, thumb).Some? <==> i.target.Fixed?) && (IsReturn(w, thumb) <==> i.target.Returns?)
    && (i.target.Fixed? ==> var j := JumpOf(w, thumb).value; i.target == Fixed(j.distance, j.links))
    && (i.branches <==> Branches(w, thumb)) && (i.writesLink <==> WritesLink(w, thumb))
    && (i.ends <==> Branches(w, thumb) || Waits(w, thumb)) && (i.cond < 14 <==> Conditional(w, thumb))
    && (i.secondHalf ==> i.branches && i.target == Unknown && !Conditional(w, thumb))
  }

  /** Jumps and returns write R15, and of them only calls write R14. */
  lemma JumpsWrite(w: int, thumb: bool)
    requires w >= 0
    ensures JumpOf(w, thumb).Some? ==> Branches(w, thumb) && (WritesLink(w, thumb) <==> JumpOf(w, thumb).value.links)
    ensures IsReturn(w, thumb) ==> Branches(w, thumb) && !WritesLink(w, thumb) && JumpOf(w, thumb) == None
  {
    TopDigit(w);
  }

  lemma ThumbAgrees(b: seq<Byte>, before: seq<Byte>)
    requires |b| == 2
    ensures Agrees(ThumbDecode(before, b), Word(b, true), true)
  {
    hide Signed;
    var lo: nat, hi: nat := b[0], b[1];
    HalfFields(lo, hi);
    HalfRanges(lo, hi);
    SignedHalves(lo);
    SignedHalves(lo + 256 * (hi % 8));
    assert Word(b, true) == 0x100 * hi + lo;
    hide Word;
  }

  lemma HalfRanges(lo: nat, hi: nat)
    requires lo < 0x100 && hi < 0x100
    ensures var w := 0x100 * hi + lo;
      && w / 0x100 == hi && w % 8 == lo % 8 && w / 0x80 % 2 == lo / 0x80
  {
    var w := 0x100 * hi + lo;
    assert w == 8 * (0x20 * hi + lo / 8) + lo % 8;
    assert w / 0x80 == 2 * hi + lo / 0x80;
  }

  lemma HalfFields(lo: nat, hi: nat)
    requires lo < 0x100 && hi < 0x100
    ensures var w := 0x100 * hi + lo;
      && w % 0x100 == lo && w % 0x800 == lo + 256 * (hi % 8)
      && (0xD000 <= w < 0xDE00 <==> 0xD0 <= hi < 0xDE) && (0xE000 <= w < 0xE800 <==> 0xE0 <= hi < 0xE8)
      && (0x4770 <= w < 0x4778 <==> hi == 0x47 && lo < 0x80 && lo / 8 == 14)
  {
  }

  lemma SignedHalves(v: nat)
    ensures v < 0x100 ==> Signed(v, 128) == if v < 0x80 then v else v - 0x100
    ensures v < 0x800 ==> Signed(v, 1024) == if v < 0x400 then v else v - 0x800
    ensures v < 0x100_0000 ==> Signed(v, 0x80_0000) == if v < 0x80_0000 then v else v - 0x100_0000
  {
  }

  lemma ArmFields(b: seq<Byte>)
    requires |b| == 4
    ensures var f, w := FieldsOf(b), Word(b, false);
      var b0: int, b1: int, b2: int := b[0], b[1], b[2];
      && ArmOf(w) == Arm(f.op, f.rn, f.rd, f.rs, f.mid, f.rm) && w / 0x1000_0000 == f.cond
      && w / 0x100_0000 % 0x10 == f.op / 0x10 && w % 0x100_0000 == b0 + 0x100 * b1 + 0x1_0000 * b2
  {
    var b0: nat, b1: nat, b2: nat, b3: nat := b[0], b[1], b[2], b[3];
    TopFields(b0, b1, b2, b3);
    LowFields(b0, b1, b2, b3);
    MiddleFields(b0, b1, b2, b3);
  }

  lemma ArmAgrees(b: seq<Byte>, before: seq<Byte>)
    requires |b| == 4
    ensures Agrees(ArmDecode(before, b), Word(b, false), false)
  {
    var f, w := FieldsOf(b), Word(b, false);
    ArmFields(b);
    DestAgrees(f);
    ArmJumps(b);
    hide Signed, ArmLiteral, ArmDest, MayWrite, Word, ArmOf, FieldsOf, ArmTarget, JumpOf, IsReturn;
  }

  /** Targets of ARM instructions. */
  lemma ArmJumps(b: seq<Byte>)
    requires |b| == 4
    ensures var f, w, t := FieldsOf(b), Word(b, false), ArmTarget(FieldsOf(b), b);
      && (JumpOf(w, false).Some? <==> t.Fixed? && f.cond != 15) && (IsReturn(w, false) <==> t.Returns? && f.cond != 15)
      && (t.Fixed? && f.cond != 15 ==> var j := JumpOf(w, false).value; t == Fixed(j.distance, j.links))
  {
    ArmFields(b);
    var b0: nat, b1: nat, b2: nat := b[0], b[1], b[2];
    SignedHalves(b0 + 256 * b1 + 0x1_0000 * b2);
    var f := FieldsOf(b);
    assert ArmOf(Word(b, false)).op == f.op;
    hide Signed, Word, FieldsOf;
  }

  /** The decoder's registers are those the instruction may write. */
  lemma DestAgrees(f: Fields)
    requires f.op < 256 && f.rn < 16 && f.rd < 16 && f.rs < 16 && f.mid < 16 && f.rm < 16
    ensures var i := Arm(f.op, f.rn, f.rd, f.rs, f.mid, f.rm);
      (14 in ArmDest(f) <==> MayWrite(i, 14)) && (15 in ArmDest(f) <==> MayWrite(i, 15))
  {
  }

  lemma Parts(w: int, d: int, q: int, r: int)
    requires d in {0x10, 0x100, 0x1000, 0x1_0000, 0x10_0000, 0x100_0000, 0x1000_0000} && 0 <= r < d && w == d * q + r
    ensures w / d == q && w % d == r
  {
  }

  lemma TopFields(b0: int, b1: int, b2: int, b3: int)
    requires 0 <= b0 < 0x100 && 0 <= b1 < 0x100 && 0 <= b2 < 0x100 && 0 <= b3 < 0x100
    ensures var w := b0 + 0x100 * b1 + 0x1_0000 * b2 + 0x100_0000 * b3;
      && w / 0x1000_0000 == b3 / 16 && w / 0x100_0000 % 0x10 == b3 % 16
      && w % 0x100_0000 == b0 + 0x100 * b1 + 0x1_0000 * b2
  {
    var w, low := b0 + 0x100 * b1 + 0x1_0000 * b2 + 0x100_0000 * b3, b0 + 0x100 * b1 + 0x1_0000 * b2;
    Parts(w, 0x100_0000, b3, low);
    Parts(w, 0x1000_0000, b3 / 16, 0x100_0000 * (b3 % 16) + low);
  }

  lemma LowFields(b0: int, b1: int, b2: int, b3: int)
    requires 0 <= b0 < 0x100 && 0 <= b1 < 0x100 && 0 <= b2 < 0x100 && 0 <= b3 < 0x100
    ensures var w := b0 + 0x100 * b1 + 0x1_0000 * b2 + 0x100_0000 * b3;
      w / 0x10_0000 % 0x100 == 16 * (b3 % 16) + b2 / 16 && w / 0x10 % 0x10 == b0 / 16 && w % 0x10 == b0 % 16
  {
    var w := b0 + 0x100 * b1 + 0x1_0000 * b2 + 0x100_0000 * b3;
    Parts(w, 0x10_0000, 16 * b3 + b2 / 16, 0x1_0000 * (b2 % 16) + 0x100 * b1 + b0);
    LowByte(b3 % 16, b2 / 16, b3 / 16);
    Parts(w, 0x10, 0x10 * (0x1_0000 * b3 + 0x100 * b2 + b1) + b0 / 16, b0 % 16);
    LowDigit(b0 / 16, 0x1_0000 * b3 + 0x100 * b2 + b1);
  }

  lemma LowByte(hi: int, lo: int, q: int)
    requires 0 <= hi < 0x10 && 0 <= lo < 0x10
    ensures (16 * (hi + 16 * q) + lo) % 0x100 == 16 * hi + lo
  {
    assert 16 * (hi + 16 * q) + lo == 0x100 * q + (16 * hi + lo);
  }

  lemma MiddleFields(b0: int, b1: int, b2: int, b3: int)
    requires 0 <= b0 < 0x100 && 0 <= b1 < 0x100 && 0 <= b2 < 0x100 && 0 <= b3 < 0x100
    ensures var w := b0 + 0x100 * b1 + 0x1_0000 * b2 + 0x100_0000 * b3;
      && w / 0x1_0000 % 0x10 == b2 % 16 && w / 0x100 % 0x10 == b1 % 16
      && w % 0x1000 == b0 + 0x100 * (b1 % 16) && w / 0x1000 % 0x10 == b1 / 16
  {
    var w := b0 + 0x100 * b1 + 0x1_0000 * b2 + 0x100_0000 * b3;
    Parts(w, 0x1_0000, b2 + 0x100 * b3, b0 + 0x100 * b1);
    Parts(w, 0x100, b1 + 0x100 * b2 + 0x1_0000 * b3, b0);
    Parts(w, 0x1000, b1 / 16 + 0x10 * (b2 + 0x100 * b3), b0 + 0x100 * (b1 % 16));
    LowDigit(b2, 0x10 * b3);
    LowDigit(b1, 0x10 * b2 + 0x1000 * b3);
    LowDigit(b1 / 16, b2 + 0x100 * b3);
  }

  lemma LowDigit(d: int, q: int)
    requires d >= 0
    ensures (d + 0x10 * q) % 0x10 == d % 0x10
  {
  }

  lemma ArmLoadAgrees(b: seq<Byte>)
    requires |b| == 4
    requires var w := Word(b, false);
      var b0: nat, b1: nat, b2: nat, b3: nat := b[0], b[1], b[2], b[3];
      && w / 0x1000_0000 == b3 / 16 && w / 0x10_0000 % 0x100 == 16 * (b3 % 16) + b2 / 16
      && w / 0x1_0000 % 0x10 == b2 % 16 && w / 0x100 % 0x10 == b1 % 16 && w / 0x10 % 0x10 == b0 / 16
      && w % 0x10 == b0 % 16 && w % 0x1000 == b0 + 0x100 * (b1 % 16)
    ensures LoadOf(Word(b, false), false) == if b[3] / 16 == 15 then None else ArmLiteral(FieldsOf(b))
  {
    hide Word;
  }

  lemma DecodeAgrees(thumb: bool, b: seq<Byte>, before: seq<Byte>)
    requires |b| == Width(thumb)
    ensures Agrees(Decode(thumb, before, b), Word(b, thumb), thumb)
  {
    hide Agrees, ArmDecode, ThumbDecode;
    if thumb {
      ThumbAgrees(b, before);
    } else {
      ArmAgrees(b, before);
    }
  }

  lemma LoadAgrees(thumb: bool, b: seq<Byte>, before: seq<Byte>)
    requires |b| == Width(thumb)
    ensures Decode(thumb, before, b).literal == LoadOf(Word(b, thumb), thumb)
  {
    hide Signed, EndsBlock, ArmTarget, ArmDest, ExtraDest, WritesControl;
    if thumb {
      HalfFields(b[0], b[1]);
    } else {
      var b0: nat, b1: nat, b2: nat, b3: nat := b[0], b[1], b[2], b[3];
      TopFields(b0, b1, b2, b3);
      LowFields(b0, b1, b2, b3);
      MiddleFields(b0, b1, b2, b3);
      ArmLoadAgrees(b);
    }
  }

  lemma JumpAligned(w: int, thumb: bool)
    requires JumpOf(w, thumb).Some?
    ensures JumpOf(w, thumb).value.distance % Width(thumb) == 0
  {
  }

  lemma TopDigit(w: int)
    requires w >= 0
    ensures w / 0x100_0000 % 0x10 == w / 0x10_0000 % 0x100 / 0x10
  {
    var q, r := w / 0x10_0000 / 0x100, w / 0x10_0000 % 0x100;
    assert w / 0x100_0000 == w / 0x10_0000 / 0x10;
    assert w / 0x10_0000 == 0x100 * q + r;
  }

  lemma ReturnIsNoJump(w: int)
    requires w >= 0 && IsReturn(w, false)
    ensures JumpOf(w, false) == None
  {
    TopDigit(w);
  }
}
