/** What each opcode byte of the Action Replay machine does, in numbers. */
module CheatOpcodes {
  import opened Options
  import opened CheatEngine

  /** The instruction at the code pointer: its opcode byte, its other 28 bits and its second word. */
  datatype Instr = Instr(op: nat, low: Word, b: Word)

  function At(code: Code, m: Cpu): Instr
    requires m.pc + 1 < |code|
  {
    Instr(code[m.pc] / 0x100_0000, code[m.pc] % 0x1000_0000, code[m.pc + 1])
  }

  /** An instruction that is executed: the condition holds, or the opcode is C5, D0, D1 or D2. */
  ghost predicate Executes(code: Code, m: Cpu, i: Instr) {
    InStep(code, m) && m.pc + 1 < |code| && i == At(code, m) && (m.cond || i.op in {0xC5, 0xD0, 0xD1, 0xD2})
  }

  lemma IsExec(code: Code, bus: Bus, m: Cpu, i: Instr)
    requires Executes(code, m, i)
    ensures m.pc + Size(code, m.pc) <= |code|
    ensures Step(code, bus, m) == Exec(code, bus, m.(pc := m.pc + 2), code[m.pc], i.b)
    ensures OpByte(code[m.pc]) == i.op < 0x100 && Low28(code[m.pc]) == i.low
  {
    hide Exec, WholeFrom, BoundaryFrom, Decode;
    BoundaryAdvances(code, 0, m.pc);
  }

  /** Under a false condition the other opcodes do nothing; E0 to EF pass over their data. */
  lemma Skipped(code: Code, bus: Bus, m: Cpu)
    requires InStep(code, m) && m.pc + 1 < |code| && !m.cond && At(code, m).op !in {0xC5, 0xD0, 0xD1, 0xD2}
    ensures var i := At(code, m);
      Step(code, bus, m) ==
        Continue(m.(pc := m.pc + 2 + if 0xE0 <= i.op < 0xF0 then 2 * ((i.b as int + 7) / 8) else 0))
  {
    hide WholeFrom, BoundaryFrom, Exec;
    BoundaryAdvances(code, 0, m.pc);
  }

  /** 00-0F, 10-1F, 20-2F: stores of 32, 16 and 8 bits. */
  lemma Stores(code: Code, bus: Bus, m: Cpu, i: Instr)
    requires Executes(code, m, i) && i.op < 0x30
    ensures var a := (i.low as int + m.offset as int) % 0x1_0000_0000;
      Step(code, bus, m) == Continue(m.(pc := m.pc + 2, log := m.log + [
        if i.op < 0x10 then Write(4, a, i.b)
        else if i.op < 0x20 then Write(2, a, i.b % 0x1_0000)
        else Write(1, a, i.b % 0x100)]))
  {
    hide WholeFrom, BoundaryFrom, InStep, Step;
    IsExec(code, bus, m, i);
  }

  function Shifted(stack: Word, cond: bool): Word { (2 * stack as int + if cond then 1 else 0) % 0x1_0000_0000 }

  /** 30-6F: compare the second word with a word of memory. */
  lemma Compares(code: Code, bus: Bus, m: Cpu, i: Instr)
    requires Executes(code, m, i) && 0x30 <= i.op < 0x70
    ensures var v := bus(m.log, 4, i.low);
      Step(code, bus, m) == Continue(m.(
        pc := m.pc + 2, log := m.log + [CheatEngine.Read(4, i.low)], condstack := Shifted(m.condstack, m.cond),
        cond := if i.op < 0x40 then i.b > v else if i.op < 0x50 then i.b < v else if i.op < 0x60 then i.b == v
                else i.b != v))
  {
    hide WholeFrom, BoundaryFrom, InStep, Step;
    IsExec(code, bus, m, i);
    assert i.low % 0x1_0000_0000 == i.low;
  }

  const WEIGHTS: seq<nat> := [1, 2, 4, 8, 0x10, 0x20, 0x40, 0x80, 0x100, 0x200, 0x400, 0x800, 0x1000, 0x2000, 0x4000,
                              0x8000]

  predicate Bit(v: nat, k: nat)
    requires k < 16
  {
    v / WEIGHTS[k] % 2 == 1
  }

  lemma HalfFirst(v: nat, k: nat)
    requires 0 < k < 16
    ensures Bit(v, k) <==> Bit(v / 2, k - 1)
  {
    assert v / WEIGHTS[k] == v / 2 / WEIGHTS[k - 1];
  }

  lemma {:induction false} AndBitsAt(a: nat, b: nat, n: nat, k: nat)
    requires k < n && k < 16
    ensures Bit(AndBits(a, b, n), k) <==> Bit(a, k) && Bit(b, k)
  {
    Product(a % 2, b % 2);
    var v := AndBits(a, b, n);
    assert v / 2 == AndBits(a / 2, b / 2, n - 1) && v % 2 == (a % 2) * (b % 2);
    if k > 0 {
      AndBitsAt(a / 2, b / 2, n - 1, k - 1);
      HalfFirst(v, k);
      HalfFirst(a, k);
      HalfFirst(b, k);
    }
  }

  lemma Product(x: nat, y: nat)
    requires x < 2 && y < 2
    ensures x * y == if x == 1 && y == 1 then 1 else 0
  {
  }

  function Ones(n: nat): nat { if n == 0 then 0 else 2 * Ones(n - 1) + 1 }

  lemma {:induction false} AndBitsBelow(a: nat, b: nat, n: nat)
    ensures AndBits(a, b, n) <= Ones(n)
  {
    if n > 0 {
      Product(a % 2, b % 2);
      AndBitsBelow(a / 2, b / 2, n - 1);
    }
  }

  lemma {:induction false} ComplementAt(x: nat, n: nat, k: nat)
    requires x <= Ones(n) && k < n && k < 16
    ensures Bit(Ones(n) - x, k) <==> !Bit(x, k)
  {
    var c := Ones(n) - x;
    assert c % 2 != x % 2 && c / 2 == Ones(n - 1) - x / 2;
    if k > 0 {
      ComplementAt(x / 2, n - 1, k - 1);
      HalfFirst(c, k);
      HalfFirst(x, k);
    }
  }

  lemma Ones16()
    ensures Ones(16) == 0xFFFF
  {
    assert Ones(4) == 0xF;
    assert Ones(8) == 0xFF;
    assert Ones(12) == 0xFFF;
  }

  /** 70-AF: compare the low half of the second word with those bits of a halfword of memory that the
      high half does not have. */
  lemma ComparesMasked(code: Code, bus: Bus, m: Cpu, i: Instr) returns (chk: nat)
    requires Executes(code, m, i) && 0x70 <= i.op < 0xB0
    ensures var v := bus(m.log, 2, i.low) % 0x1_0000; var b := i.b % 0x1_0000;
      && chk < 0x1_0000
      && (forall k | 0 <= k < 16 :: Bit(chk, k) <==> Bit(v, k) && !Bit(i.b / 0x1_0000, k))
      && Step(code, bus, m) == Continue(m.(
           pc := m.pc + 2, log := m.log + [CheatEngine.Read(2, i.low)], condstack := Shifted(m.condstack, m.cond),
           cond := if i.op < 0x80 then b > chk else if i.op < 0x90 then b < chk else if i.op < 0xA0 then b == chk
                   else b != chk))
  {
    hide WholeFrom, BoundaryFrom, InStep, Step, AndBits, Bit;
    IsExec(code, bus, m, i);
    assert i.low % 0x1_0000_0000 == i.low;
    var v, mask := bus(m.log, 2, i.low) % 0x1_0000, i.b / 0x1_0000;
    chk := UnmaskedBits(mask, v);
  }

  lemma UnmaskedBits(mask: nat, v: nat) returns (chk: nat)
    requires mask < 0x1_0000
    ensures chk == AndBits(0xFFFF - mask, v, 16) < 0x1_0000
    ensures forall k | 0 <= k < 16 :: Bit(chk, k) <==> Bit(v, k) && !Bit(mask, k)
  {
    hide Bit, AndBits;
    chk := MaskedBits(0xFFFF - mask, v);
    Ones16();
    forall k | 0 <= k < 16 ensures Bit(chk, k) <==> Bit(v, k) && !Bit(mask, k) {
      ComplementAt(mask, 16, k);
    }
  }

  lemma MaskedBits(a: nat, b: nat) returns (v: nat)
    ensures v == AndBits(a, b, 16) < 0x1_0000 && forall k | 0 <= k < 16 :: Bit(v, k) <==> Bit(a, k) && Bit(b, k)
  {
    hide Bit, AndBits;
    v := AndBits(a, b, 16);
    Ones16();
    AndBitsBelow(a, b, 16);
    forall k | 0 <= k < 16 ensures Bit(v, k) <==> Bit(a, k) && Bit(b, k) {
      AndBitsAt(a, b, 16, k);
    }
  }

  /** B0-BF: the offset becomes a word of memory. */
  lemma LoadsOffset(code: Code, bus: Bus, m: Cpu, i: Instr)
    requires Executes(code, m, i) && 0xB0 <= i.op < 0xC0
    ensures var a := (i.low as int + m.offset as int) % 0x1_0000_0000;
      Step(code, bus, m) ==
        Continue(m.(pc := m.pc + 2, log := m.log + [CheatEngine.Read(4, a)], offset := bus(m.log, 4, a)))
  {
    hide WholeFrom, BoundaryFrom, InStep, Step;
    IsExec(code, bus, m, i);
  }

  /** C0: a loop begins behind the instruction. C4 and unknown opcodes stop. C6 stores the offset. */
  lemma Loops(code: Code, bus: Bus, m: Cpu, i: Instr)
    requires Executes(code, m, i) && 0xC0 <= i.op < 0xD0 && i.op != 0xC5
    ensures var next := m.(pc := m.pc + 2);
      Step(code, bus, m) ==
        if i.op == 0xC0 then
          Continue(next.(loopstart := m.pc + 2, loopcount := i.b, loopcond := m.cond, loopcondstack := m.condstack))
        else if i.op == 0xC6 then Continue(next.(log := m.log + [Write(4, i.b, m.offset)]))
        else Stop(next)
  {
    hide WholeFrom, BoundaryFrom, InStep, Step;
    IsExec(code, bus, m, i);
  }

  /** C5 counts, and under a true condition tests the bits of the count that the low half of the
      second word has against the high half. */
  lemma Counts(code: Code, bus: Bus, m: Cpu, i: Instr) returns (chk: nat)
    requires Executes(code, m, i) && i.op == 0xC5
    ensures var count := (m.c5count as int + 1) % 0x1_0000_0000;
      && chk < 0x1_0000 && (forall k | 0 <= k < 16 :: Bit(chk, k) <==> Bit(count, k) && Bit(i.b % 0x1_0000, k))
      && Step(code, bus, m) == Continue(
           if !m.cond then m.(pc := m.pc + 2, c5count := count)
           else m.(pc := m.pc + 2, c5count := count, condstack := Shifted(m.condstack, true),
                   cond := chk == i.b / 0x1_0000))
  {
    hide WholeFrom, BoundaryFrom, InStep, Step, AndBits, Bit;
    IsExec(code, bus, m, i);
    chk := MaskedBits((m.c5count as int + 1) % 0x1_0000_0000, i.b % 0x1_0000);
  }

  /** D0 takes a condition from the stack; D1 and D2 go round the loop again, or leave it with the
      condition it began with, or with everything cleared. */
  lemma Ends(code: Code, bus: Bus, m: Cpu, i: Instr)
    requires Executes(code, m, i) && 0xD0 <= i.op < 0xD3
    ensures var next := m.(pc := m.pc + 2);
      Step(code, bus, m) == Continue(
        if i.op == 0xD0 then next.(cond := m.condstack % 2 == 1, condstack := m.condstack / 2)
        else if m.loopcount > 0 then m.(pc := m.loopstart, loopcount := m.loopcount - 1)
        else if i.op == 0xD1 then next.(cond := m.loopcond, condstack := m.loopcondstack)
        else next.(offset := 0, datareg := 0, condstack := 0, cond := true))
  {
    hide WholeFrom, BoundaryFrom, InStep, Step;
    IsExec(code, bus, m, i);
  }

  /** D3 to D5 and DC: sums modulo 2^32. DD to DF stop. */
  lemma Sums(code: Code, bus: Bus, m: Cpu, i: Instr)
    requires Executes(code, m, i) && (0xD3 <= i.op < 0xD6 || 0xDC <= i.op < 0xE0)
    ensures var next := m.(pc := m.pc + 2);
      Step(code, bus, m) ==
        if i.op == 0xD3 then Continue(next.(offset := i.b))
        else if i.op == 0xD4 then Continue(next.(datareg := (m.datareg as int + i.b as int) % 0x1_0000_0000))
        else if i.op == 0xD5 then Continue(next.(datareg := i.b))
        else if i.op == 0xDC then Continue(next.(offset := (m.offset as int + i.b as int) % 0x1_0000_0000))
        else Stop(next)
  {
    hide WholeFrom, BoundaryFrom, InStep, Step;
    IsExec(code, bus, m, i);
  }

  /** D6 to D8 store the data register and move the offset by the width; D9 to DB load it. */
  lemma Transfers(code: Code, bus: Bus, m: Cpu, i: Instr)
    requires Executes(code, m, i) && 0xD6 <= i.op < 0xDC
    ensures var a := (i.b as int + m.offset as int) % 0x1_0000_0000;
      var width := if i.op in {0xD6, 0xD9} then 4 else if i.op in {0xD7, 0xDA} then 2 else 1;
      var limit := if width == 4 then 0x1_0000_0000 else if width == 2 then 0x1_0000 else 0x100;
      Step(code, bus, m) == Continue(
        if i.op < 0xD9 then
          m.(pc := m.pc + 2, log := m.log + [Write(width, a, m.datareg % limit)],
             offset := (m.offset as int + width) % 0x1_0000_0000)
        else
          m.(pc := m.pc + 2, log := m.log + [CheatEngine.Read(width, a)], datareg := bus(m.log, width, a) % limit))
  {
    hide WholeFrom, BoundaryFrom, InStep, Step;
    IsExec(code, bus, m, i);
  }

  /** The k-th access of a copy of n bytes is to this offset: words first, then single bytes. */
  function PlaceOf(n: nat, k: nat): nat { if k < n / 4 then 4 * k else n - n % 4 + (k - n / 4) }

  function WidthOf(n: nat, k: nat): nat { if k < n / 4 then 4 else 1 }

  /** What the k-th access stores of the words behind the instruction, lowest bytes first. */
  function PieceOf(words: seq<Word>, n: nat, k: nat): (v: int)
    requires k < n / 4 + n % 4 && n <= 4 * |words|
    ensures 0 <= v < 0x1_0000_0000
  {
    if k < n / 4 then words[k]
    else words[n / 4] / (if k == n / 4 then 1 else if k == n / 4 + 1 then 0x100 else 0x1_0000) % 0x100
  }

  lemma {:induction false} BytesInNumbers(w: Word, k: nat, n: nat, dst: nat, i: nat)
    requires k + n <= 4 && i < n && k + i < 3
    ensures |BytesOut(w, k, n, dst)| == n
    ensures BytesOut(w, k, n, dst)[i] == Write(1, (dst + i) % 0x1_0000_0000,
      w / (if k + i == 0 then 1 else if k + i == 1 then 0x100 else 0x1_0000) % 0x100)
    decreases n
  {
    assert n == 1 ==> BytesOut(w, k + 1, n - 1, dst + 1) == [];
    if i > 0 {
      BytesInNumbers(w, k + 1, n - 1, dst + 1, i - 1);
    } else if n > 1 {
      BytesLength(w, k + 1, n - 1, dst + 1);
    }
  }

  lemma {:induction false} BytesLength(w: Word, k: nat, n: nat, dst: nat)
    requires k + n <= 4
    ensures |BytesOut(w, k, n, dst)| == n
    decreases n
  {
    hide ByteOf, Wrap;
    if n > 0 {
      BytesLength(w, k + 1, n - 1, dst + 1);
    }
  }

  lemma {:induction false} CopiedLength(words: seq<Word>, n: nat, dst: nat)
    requires |words| == 2 * ((n + 7) / 8)
    ensures |CopiedIn(words, n, dst)| == n / 4 + n % 4
    decreases n
  {
    hide BytesOut, Wrap;
    if n >= 8 {
      CopiedLength(words[2..], n - 8, dst + 8);
    } else if n >= 4 {
      BytesLength(words[1], 0, n - 4, dst + 4);
    } else if n > 0 {
      BytesLength(words[0], 0, n, dst);
    }
  }

  /** Behind the first eight bytes a copy is a shorter one. */
  lemma TwoWordsLess(words: seq<Word>, n: nat, k: nat)
    requires |words| >= 2 && 8 <= n <= 4 * |words| && 2 <= k < n / 4 + n % 4
    ensures k - 2 < (n - 8) / 4 + (n - 8) % 4 && PlaceOf(n, k) == PlaceOf(n - 8, k - 2) + 8
    ensures WidthOf(n, k) == WidthOf(n - 8, k - 2) && PieceOf(words, n, k) == PieceOf(words[2..], n - 8, k - 2)
  {
    assert (n - 8) / 4 == n / 4 - 2 && (n - 8) % 4 == n % 4;
  }

  predicate IsCopy(e: Event, words: seq<Word>, n: nat, dst: nat, k: nat)
    requires k < n / 4 + n % 4 && n <= 4 * |words|
  {
    PieceOf(words, n, k) >= 0
    && e == Write(WidthOf(n, k), (dst + PlaceOf(n, k)) % 0x1_0000_0000, PieceOf(words, n, k))
  }

  lemma FewCopied(words: seq<Word>, n: nat, dst: nat, k: nat)
    requires |words| == 2 * ((n + 7) / 8) && n < 8 && k < n / 4 + n % 4
    ensures |CopiedIn(words, n, dst)| == n / 4 + n % 4 && IsCopy(CopiedIn(words, n, dst)[k], words, n, dst, k)
  {
    hide BytesOut, ByteOf;
    CopiedLength(words, n, dst);
    if n < 4 {
      BytesInNumbers(words[0], 0, n, dst, k);
    } else if k >= 1 {
      BytesInNumbers(words[1], 0, n - 4, dst + 4, k - 1);
    }
  }

  lemma {:induction false} CopiedAt(words: seq<Word>, n: nat, dst: nat, k: nat)
    requires |words| == 2 * ((n + 7) / 8) && k < n / 4 + n % 4
    ensures |CopiedIn(words, n, dst)| == n / 4 + n % 4 && IsCopy(CopiedIn(words, n, dst)[k], words, n, dst, k)
    decreases n
  {
    hide BytesOut, ByteOf;
    CopiedLength(words, n, dst);
    if n < 8 {
      FewCopied(words, n, dst, k);
    } else if k >= 2 {
      TwoWordsLess(words, n, k);
      hide PlaceOf, WidthOf, PieceOf;
      CopiedAt(words[2..], n - 8, dst + 8, k - 2);
    }
  }

  /** Word writes of the words, then byte writes, to consecutive addresses. */
  predicate StoresWords(events: seq<Event>, words: seq<Word>, n: nat, dst: nat)
    requires n <= 4 * |words|
  {
    |events| == n / 4 + n % 4 && forall k | 0 <= k < |events| :: IsCopy(events[k], words, n, dst, k)
  }

  lemma CopiedStores(words: seq<Word>, n: nat, dst: nat)
    requires |words| == 2 * ((n + 7) / 8)
    ensures StoresWords(CopiedIn(words, n, dst), words, n, dst)
  {
    hide CopiedIn, IsCopy;
    CopiedLength(words, n, dst);
    forall k | 0 <= k < n / 4 + n % 4 ensures IsCopy(CopiedIn(words, n, dst)[k], words, n, dst, k) {
      CopiedAt(words, n, dst, k);
    }
  }

  /** E0 to EF copy the data behind the instruction and go on behind it. */
  lemma Copies(code: Code, bus: Bus, m: Cpu, i: Instr) returns (events: seq<Event>)
    requires Executes(code, m, i) && 0xE0 <= i.op < 0xF0
    ensures var end := m.pc + 2 + 2 * ((i.b as int + 7) / 8);
      && end <= |code| && Step(code, bus, m) == Continue(m.(pc := end, log := m.log + events))
      && StoresWords(events, code[m.pc + 2..end], i.b, i.low as int + m.offset as int)
  {
    hide WholeFrom, BoundaryFrom, InStep, Step, CopiedIn, StoresWords;
    IsExec(code, bus, m, i);
    var n: nat, end := i.b, m.pc + 2 + 2 * ((i.b as int + 7) / 8);
    events := CopiedIn(code[m.pc + 2..end], n, i.low as int + m.offset as int);
    CopiedStores(code[m.pc + 2..end], n, i.low as int + m.offset as int);
  }

  // ---- copies inside memory

  /** From position p of the log on, words and then bytes are read and written in turn; what is
      written is the answer to the read before. */
  predicate CopiesWords(bus: Bus, log: seq<Event>, p: nat, src: nat, dst: nat, n: nat)
    requires |log| == p + 2 * (n / 4 + n % 4)
  {
    forall k | 0 <= k < n / 4 + n % 4 ::
      CopiesAt(bus, log, p + 2 * k, WidthOf(n, k), src + PlaceOf(n, k), dst + PlaceOf(n, k))
  }

  predicate CopiesAt(bus: Bus, log: seq<Event>, at: nat, width: nat, src: nat, dst: nat) {
    at + 1 < |log| &&
    var a, b := src % 0x1_0000_0000, dst % 0x1_0000_0000;
    && log[at] == CheatEngine.Read(width, a)
    && log[at + 1] == Write(width, b, bus(log[..at], width, a) % if width == 4 then 0x1_0000_0000 else 0x100)
  }

  lemma PrefixOf<T>(all: seq<T>, next: seq<T>, log: seq<T>)
    requires log <= next <= all
    ensures log <= all
  {
  }

  /** One read and one write. */
  function Moved(bus: Bus, log: seq<Event>, src: nat, dst: nat, width: nat): seq<Event>
  {
    log + [CheatEngine.Read(width, Wrap(src)), Write(width, Wrap(dst), bus(log, width, Wrap(src)) % Limit(width))]
  }

  function Accesses(n: nat): nat { n / 4 + n % 4 }

  lemma MemoryStep(bus: Bus, log: seq<Event>, src: nat, dst: nat, n: nat)
    requires n > 0
    ensures var w := if n >= 4 then 4 else 1;
      && CopiedMemory(bus, log, src, dst, n) == CopiedMemory(bus, Moved(bus, log, src, dst, w), src + w, dst + w, n - w)
      && Accesses(n) == 1 + Accesses(n - w)
  {
    hide Wrap, Limit;
  }

  lemma {:induction false} MemoryLog(bus: Bus, log: seq<Event>, src: nat, dst: nat, n: nat)
    ensures var all := CopiedMemory(bus, log, src, dst, n); log <= all && |all| == |log| + 2 * Accesses(n)
    decreases n
  {
    hide Wrap, Limit, CopiedMemory, Accesses;
    if n > 0 {
      var w := if n >= 4 then 4 else 1;
      MemoryStep(bus, log, src, dst, n);
      MemoryLog(bus, Moved(bus, log, src, dst, w), src + w, dst + w, n - w);
      PrefixOf(CopiedMemory(bus, log, src, dst, n), Moved(bus, log, src, dst, w), log);
    } else {
      NoMemory(bus, log, src, dst);
    }
  }

  lemma NoMemory(bus: Bus, log: seq<Event>, src: nat, dst: nat)
    ensures CopiedMemory(bus, log, src, dst, 0) == log && Accesses(0) == 0
  {
  }

  lemma FirstAccess(bus: Bus, log: seq<Event>, all: seq<Event>, src: nat, dst: nat, width: nat)
    requires width in {1, 4}
    requires Moved(bus, log, src, dst, width) <= all
    ensures CopiesAt(bus, all, |log|, width, src, dst)
  {
    var next := Moved(bus, log, src, dst, width);
    assert all[..|log|] == log;
    assert all[|log|] == next[|log|] && all[|log| + 1] == next[|log| + 1];
  }

  lemma {:induction false} MemoryAt(bus: Bus, log: seq<Event>, src: nat, dst: nat, n: nat, k: nat)
    requires k < n / 4 + n % 4
    ensures CopiesAt(bus, CopiedMemory(bus, log, src, dst, n), |log| + 2 * k, WidthOf(n, k), src + PlaceOf(n, k),
                     dst + PlaceOf(n, k))
    decreases n
  {
    hide CopiesAt, Wrap, Limit, CopiedMemory;
    var w := if n >= 4 then 4 else 1;
    MemoryStep(bus, log, src, dst, n);
    if k == 0 {
      MemoryLog(bus, Moved(bus, log, src, dst, w), src + w, dst + w, n - w);
      FirstAccess(bus, log, CopiedMemory(bus, log, src, dst, n), src, dst, w);
    } else {
      MemoryAt(bus, Moved(bus, log, src, dst, w), src + w, dst + w, n - w, k - 1);
    }
  }

  /** F0 to FF copy from the offset to the address in the first word. */
  lemma CopiesMemory(code: Code, bus: Bus, m: Cpu, i: Instr) returns (log: seq<Event>)
    requires Executes(code, m, i) && i.op >= 0xF0
    ensures var n: nat := i.b;
      && Step(code, bus, m) == Continue(m.(pc := m.pc + 2, log := log))
      && m.log <= log && |log| == |m.log| + 2 * (n / 4 + n % 4)
      && CopiesWords(bus, log, |m.log|, m.offset, i.low, n)
  {
    hide WholeFrom, BoundaryFrom, InStep, Step, CopiedMemory, CopiesAt, WidthOf, PlaceOf;
    IsExec(code, bus, m, i);
    var n: nat := i.b;
    log := CopiedMemory(bus, m.log, m.offset, i.low, n);
    MemoryLog(bus, m.log, m.offset, i.low, n);
    forall k | 0 <= k < n / 4 + n % 4
      ensures CopiesAt(bus, log, |m.log| + 2 * k, WidthOf(n, k), m.offset as int + PlaceOf(n, k),
                       i.low as int + PlaceOf(n, k))
    {
      MemoryAt(bus, m.log, m.offset, i.low, n, k);
    }
  }
}
