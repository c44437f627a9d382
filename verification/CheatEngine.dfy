/** The Action Replay virtual machine: codes of 32-bit word pairs with a condition stack and
    one loop level, run against a bus whose answers may be anything. */
module CheatEngine {
  import opened Options


  type Word = n: int | 0 <= n < 0x1_0000_0000

  datatype Event = Read(width: nat, addr: Word) | Write(width: nat, addr: Word, value: Word)

  /** The value at an address after the given accesses. */
  type Bus = (seq<Event>, nat, Word) -> Word

  datatype Test = Above | Below | Equal | Differs

  datatype Op =
    | Store(width: nat)
    | If(test: Test)
    | IfMasked(test: Test)
    | LoadOffset
    | For
    | Self
    | Counter
    | StoreOffset
    | EndIf
    | Next
    | NextFlush
    | SetOffset
    | AddData
    | SetData
    | StoreData(width: nat)
    | LoadData(width: nat)
    | AddOffset
    | CopyIn
    | CopyMemory
    | Bad

  function OpByte(a: Word): nat { a / 0x100_0000 }

  function Decode(a: Word): Op {
    var op := OpByte(a);
    match op / 0x10
    case 0 => Store(4)
    case 1 => Store(2)
    case 2 => Store(1)
    case 3 => If(Above)
    case 4 => If(Below)
    case 5 => If(Equal)
    case 6 => If(Differs)
    case 7 => IfMasked(Above)
    case 8 => IfMasked(Below)
    case 9 => IfMasked(Equal)
    case 10 => IfMasked(Differs)
    case 11 => LoadOffset
    case 12 => if op == 0xC0 then For else if op == 0xC4 then Self else if op == 0xC5 then Counter
               else if op == 0xC6 then StoreOffset else Bad
    case 13 => (match op % 0x10
                case 0 => EndIf
                case 1 => Next
                case 2 => NextFlush
                case 3 => SetOffset
                case 4 => AddData
                case 5 => SetData
                case 6 => StoreData(4)
                case 7 => StoreData(2)
                case 8 => StoreData(1)
                case 9 => LoadData(4)
                case 10 => LoadData(2)
                case 11 => LoadData(1)
                case 12 => AddOffset
                case _ => Bad)
    case 14 => CopyIn
    case _ => CopyMemory
  }

  /** The instructions a false condition skips. */
  predicate Skippable(a: Word) {
    (OpByte(a) < 0xD0 && OpByte(a) != 0xC5) || OpByte(a) > 0xD2
  }

  function Wrap(n: nat): Word { n % 0x1_0000_0000 }

  function Low28(a: Word): Word { a % 0x1000_0000 }

  function Holds(t: Test, x: nat, y: nat): bool {
    match t
    case Above => x > y
    case Below => x < y
    case Equal => x == y
    case Differs => x != y
  }

  /** Bitwise and of the n low bits. */
  function AndBits(a: nat, b: nat, n: nat): nat {
    if n == 0 then 0 else 2 * AndBits(a / 2, b / 2, n - 1) + (a % 2) * (b % 2)
  }

  // ---- programs

  type Code = seq<Word>

  /** The words of the instruction at p: two, and for a copy as many more pairs as its byte
      count needs. */
  function Size(code: Code, p: nat): (n: nat)
    requires p + 1 < |code|
    ensures n >= 2 && n % 2 == 0
  {
    var b: nat := code[p + 1];
    if Decode(code[p]) == CopyIn then 2 + 2 * ((b + 7) / 8) else 2
  }

  /** What ARCode::Code has room for. */
  const CODE_WORDS: nat := 128

  /** From p on the code is whole instructions, copied bytes included. */
  predicate WholeFrom(code: Code, p: nat)
    decreases |code| - p
  {
    p == |code| || (p + 1 < |code| && p + Size(code, p) <= |code| && WholeFrom(code, p + Size(code, p)))
  }

  /** p is where some instruction starts, or the end, counting instructions from q. */
  predicate BoundaryFrom(code: Code, q: nat, p: nat)
    decreases |code| - q
  {
    q == p || (q + 1 < |code| && q + Size(code, q) <= |code| && BoundaryFrom(code, q + Size(code, q), p))
  }

  lemma {:induction false} BoundaryIsWhole(code: Code, q: nat, p: nat)
    requires WholeFrom(code, q) && BoundaryFrom(code, q, p)
    ensures q <= p <= |code| && WholeFrom(code, p)
    decreases |code| - q
  {
    if q != p {
      BoundaryIsWhole(code, q + Size(code, q), p);
    }
  }

  lemma {:induction false} BoundaryAdvances(code: Code, q: nat, p: nat)
    requires WholeFrom(code, q) && BoundaryFrom(code, q, p) && p < |code|
    ensures p + 1 < |code| && p + Size(code, p) <= |code| && BoundaryFrom(code, q, p + Size(code, p))
    decreases |code| - q
  {
    if q != p {
      BoundaryIsWhole(code, q + Size(code, q), p);
      BoundaryAdvances(code, q + Size(code, q), p);
    }
  }

  // ---- the machine

  datatype Cpu = Cpu(pc: nat, offset: Word, datareg: Word, cond: bool, condstack: Word,
                     loopstart: nat, loopcount: Word, loopcond: bool, loopcondstack: Word,
                     c5count: Word, log: seq<Event>)

  const INITIAL := Cpu(0, 0, 0, true, 0, 0, 0, true, 0, 0, [])

  /** What the invariant of a run says about the two code pointers. */
  predicate InStep(code: Code, m: Cpu) {
    && WholeFrom(code, 0) && BoundaryFrom(code, 0, m.pc) && BoundaryFrom(code, 0, m.loopstart)
    && m.loopstart <= m.pc <= |code| <= CODE_WORDS
  }

  function ReadBus(bus: Bus, m: Cpu, width: nat, addr: nat): (Word, Cpu) {
    var a := Wrap(addr);
    (bus(m.log, width, a) % Limit(width), m.(log := m.log + [Read(width, a)]))
  }

  function Limit(width: nat): (n: nat)
    ensures 0 < n <= 0x1_0000_0000
  {
    if width == 1 then 0x100 else if width == 2 then 0x1_0000 else 0x1_0000_0000
  }

  function WriteBus(m: Cpu, width: nat, addr: nat, value: Word): Cpu {
    m.(log := m.log + [Write(width, Wrap(addr), value % Limit(width))])
  }

  function Push(m: Cpu, cond: bool): Cpu {
    m.(condstack := Wrap(2 * m.condstack + if m.cond then 1 else 0), cond := cond)
  }

  function ByteOf(w: Word, k: nat): Word
    requires k < 4
  {
    if k == 0 then w % 0x100
    else if k == 1 then w / 0x100 % 0x100
    else if k == 2 then w / 0x1_0000 % 0x100
    else w / 0x100_0000
  }

  /** The bytes of a word from the k-th on, n of them, one at a time. */
  function BytesOut(w: Word, k: nat, n: nat, dst: nat): seq<Event>
    requires k + n <= 4
    decreases n
  {
    if n == 0 then [] else [Write(1, Wrap(dst), ByteOf(w, k))] + BytesOut(w, k + 1, n - 1, dst + 1)
  }

  /** The writes of a copy instruction with n bytes in the words that follow it. */
  function CopiedIn(words: seq<Word>, n: nat, dst: nat): seq<Event>
    requires |words| == 2 * ((n + 7) / 8)
    decreases n
  {
    if n >= 8 then
      [Write(4, Wrap(dst), words[0]), Write(4, Wrap(dst + 4), words[1])] + CopiedIn(words[2..], n - 8, dst + 8)
    else if n >= 4 then [Write(4, Wrap(dst), words[0])] + BytesOut(words[1], 0, n - 4, dst + 4)
    else if n > 0 then BytesOut(words[0], 0, n, dst)
    else []
  }

  /** The log after copying n bytes inside memory. */
  function CopiedMemory(bus: Bus, log: seq<Event>, src: nat, dst: nat, n: nat): seq<Event>
    decreases n
  {
    if n == 0 then log
    else
      var width := if n >= 4 then 4 else 1;
      var v := bus(log, width, Wrap(src)) % Limit(width);
      CopiedMemory(bus, log + [Read(width, Wrap(src)), Write(width, Wrap(dst), v)], src + width, dst + width, n - width)
  }

  datatype Result = Continue(m: Cpu) | Stop(m: Cpu)

  /** Taking the loop again, or leaving it. */
  function LoopBack(m: Cpu, left: Cpu): Cpu {
    if m.loopcount > 0 then m.(loopcount := m.loopcount - 1, pc := m.loopstart) else left
  }

  /** An instruction that is not skipped; m.pc is already behind its two words. */
  function Exec(code: Code, bus: Bus, m: Cpu, a: Word, b: Word): Result
    requires m.pc + 2 * ((b as int + 7) / 8) <= |code| || Decode(a) != CopyIn
  {
    match Decode(a)
    case Store(w) => Continue(WriteBus(m, w, Low28(a) + m.offset, b))
    case If(t) =>
      var (v, m') := ReadBus(bus, m, 4, Low28(a));
      Continue(Push(m', Holds(t, b, v)))
    case IfMasked(t) =>
      var (v, m') := ReadBus(bus, m, 2, Low28(a));
      Continue(Push(m', Holds(t, b % 0x1_0000, AndBits(0xFFFF - b / 0x1_0000, v, 16))))
    case LoadOffset =>
      var (v, m') := ReadBus(bus, m, 4, Low28(a) + m.offset);
      Continue(m'.(offset := v))
    case For => Continue(m.(loopstart := m.pc, loopcount := b, loopcond := m.cond, loopcondstack := m.condstack))
    case Self => Stop(m)
    case Counter =>
      var m' := m.(c5count := Wrap(m.c5count + 1));
      Continue(if !m.cond then m' else Push(m', AndBits(m'.c5count, b % 0x1_0000, 16) == b / 0x1_0000))
    case StoreOffset => Continue(WriteBus(m, 4, b, m.offset))
    case EndIf => Continue(m.(cond := m.condstack % 2 == 1, condstack := m.condstack / 2))
    case Next => Continue(LoopBack(m, m.(cond := m.loopcond, condstack := m.loopcondstack)))
    case NextFlush => Continue(LoopBack(m, m.(offset := 0, datareg := 0, condstack := 0, cond := true)))
    case SetOffset => Continue(m.(offset := b))
    case AddData => Continue(m.(datareg := Wrap(m.datareg + b)))
    case SetData => Continue(m.(datareg := b))
    case StoreData(w) => Continue(WriteBus(m, w, b + m.offset, m.datareg).(offset := Wrap(m.offset + w)))
    case LoadData(w) =>
      var (v, m') := ReadBus(bus, m, w, b + m.offset);
      Continue(m'.(datareg := v))
    case AddOffset => Continue(m.(offset := Wrap(m.offset + b)))
    case CopyIn =>
      var end := m.pc + 2 * ((b as int + 7) / 8);
      Continue(m.(log := m.log + CopiedIn(code[m.pc..end], b, Low28(a) + m.offset), pc := end))
    case CopyMemory => Continue(m.(log := CopiedMemory(bus, m.log, m.offset, Low28(a), b)))
    case Bad => Stop(m)
  }

  /** One pass of the interpreter loop. */
  function Step(code: Code, bus: Bus, m: Cpu): (r: Result)
    requires InStep(code, m) && m.pc < |code|
  {
    BoundaryAdvances(code, 0, m.pc);
    var a, b := code[m.pc], code[m.pc + 1];
    if Skippable(a) && !m.cond then Continue(m.(pc := m.pc + Size(code, m.pc)))
    else Exec(code, bus, m.(pc := m.pc + 2), a, b)
  }

  /** A step keeps both pointers on instruction boundaries and makes progress: a later loop
      start, or fewer rounds to go, or a later instruction. */
  lemma StepAdvances(code: Code, bus: Bus, m: Cpu)
    requires InStep(code, m) && m.pc < |code| && Step(code, bus, m).Continue?
    ensures var m' := Step(code, bus, m).m;
      && InStep(code, m')
      && (m'.loopstart > m.loopstart
          || (m'.loopstart == m.loopstart && m'.loopcount < m.loopcount)
          || (m'.loopstart == m.loopstart && m'.loopcount == m.loopcount && m'.pc > m.pc))
  {
    hide Decode, Exec, Skippable, WholeFrom, BoundaryFrom, OpByte;
    BoundaryAdvances(code, 0, m.pc);
    BoundaryIsWhole(code, 0, m.pc + Size(code, m.pc));
    if !Skippable(code[m.pc]) || m.cond {
      ExecMoves(code, bus, m.(pc := m.pc + 2), code[m.pc], code[m.pc + 1]);
    }
  }

  /** How an instruction moves the code pointers. */
  lemma ExecMoves(code: Code, bus: Bus, m: Cpu, a: Word, b: Word)
    requires m.pc + 2 * ((b as int + 7) / 8) <= |code| || Decode(a) != CopyIn
    requires Exec(code, bus, m, a, b).Continue?
    ensures var m' := Exec(code, bus, m, a, b).m;
      if Decode(a) == CopyIn then
        m'.pc == m.pc + 2 * ((b as int + 7) / 8) && m'.loopstart == m.loopstart && m'.loopcount == m.loopcount
      else
        || (m'.pc == m.pc && m'.loopstart == m.loopstart && m'.loopcount == m.loopcount)
        || (m'.pc == m'.loopstart == m.pc)
        || (m'.pc == m.loopstart == m'.loopstart && m'.loopcount < m.loopcount)
  {
    hide Decode, CopiedIn, CopiedMemory, AndBits, Holds, Limit, Wrap, Low28;
  }

  /** A whole run. It ends for every code of whole instructions, whatever the bus answers. */
  function Run(code: Code, bus: Bus, m: Cpu): Result
    requires InStep(code, m)
    decreases |code| - m.loopstart, m.loopcount, |code| - m.pc
  {
    if m.pc == |code| then Continue(m)
    else
      var r := Step(code, bus, m);
      if r.Stop? then r
      else
        StepAdvances(code, bus, m);
        Run(code, bus, r.m)
  }

  // ---- the interpreter

  /** The byte loop at the end of a copy instruction. */
  method CopyBytesOut(w: Word, n: nat, dst: nat) returns (events: seq<Event>)
    requires n <= 4
    ensures events == BytesOut(w, 0, n, dst)
  {
    hide Wrap, ByteOf, BytesOut;
    events := [];
    var k := 0;
    while k < n
      invariant k <= n && BytesOut(w, 0, n, dst) == events + BytesOut(w, k, n - k, dst + k)
    {
      BytesOutStep(events, w, k, n - k, dst + k);
      events := events + [Write(1, Wrap(dst + k), ByteOf(w, k))];
      k := k + 1;
    }
    assert BytesOut(w, k, 0, dst + k) == [] by { NoBytesOut(w, k, dst + k); }
  }

  lemma BytesOutStep(before: seq<Event>, w: Word, k: nat, n: nat, dst: nat)
    requires n > 0 && k + n <= 4
    ensures before + BytesOut(w, k, n, dst)
      == before + [Write(1, Wrap(dst), ByteOf(w, k))] + BytesOut(w, k + 1, n - 1, dst + 1)
  {
    hide Wrap, ByteOf;
  }

  lemma NoBytesOut(w: Word, k: nat, dst: nat)
    requires k <= 4
    ensures BytesOut(w, k, 0, dst) == []
  {
  }

  /** Fewer than eight bytes, from the next two words. */
  method CopyRest(words: seq<Word>, n: nat, dst: nat) returns (events: seq<Event>)
    requires n < 8 && |words| == 2 * ((n + 7) / 8)
    ensures events == CopiedIn(words, n, dst)
  {
    hide BytesOut;
    events := [];
    if n >= 4 {
      var more := CopyBytesOut(words[1], n - 4, dst + 4);
      events := [Write(4, Wrap(dst), words[0])] + more;
    } else if n > 0 {
      events := CopyBytesOut(words[0], n, dst);
    }
  }

  /** The loop of the copy instruction; `pc` moves over the words it consumes. */
  method CopyPayload(code: Code, start: nat, b: Word, dst: nat) returns (events: seq<Event>, pc: nat)
    requires start + 2 * ((b as int + 7) / 8) <= |code|
    ensures pc == start + 2 * ((b as int + 7) / 8) && events == CopiedIn(code[start..pc], b, dst)
  {
    hide BytesOut, Wrap, CopiedIn;
    ghost var end := start + 2 * ((b as int + 7) / 8);
    events, pc := [], start;
    var bytesleft: nat, dstaddr := b, dst;
    while bytesleft >= 8
      invariant start <= pc && pc + 2 * ((bytesleft + 7) / 8) == end
      invariant CopiedIn(code[start..end], b, dst) == events + CopiedIn(code[pc..end], bytesleft, dstaddr)
    {
      CopiedInStep(events, code[pc..end], bytesleft, dstaddr);
      assert code[pc..end][2..] == code[pc + 2..end];
      events := events + [Write(4, Wrap(dstaddr), code[pc]), Write(4, Wrap(dstaddr + 4), code[pc + 1])];
      pc, dstaddr, bytesleft := pc + 2, dstaddr + 8, bytesleft - 8;
    }
    var words := if bytesleft > 0 then 2 else 0;
    var rest := CopyRest(code[pc..pc + words], bytesleft, dstaddr);
    events := events + rest;
    pc := pc + words;
  }

  lemma CopiedInStep(before: seq<Event>, words: seq<Word>, n: nat, dst: nat)
    requires n >= 8 && |words| == 2 * ((n + 7) / 8)
    ensures before + CopiedIn(words, n, dst)
      == before + [Write(4, Wrap(dst), words[0]), Write(4, Wrap(dst + 4), words[1])]
         + CopiedIn(words[2..], n - 8, dst + 8)
  {
    hide BytesOut, Wrap;
  }

  /** The loops of the memory copy instruction. */
  method CopyInMemory(bus: Bus, log: seq<Event>, src: nat, dst: nat, b: Word) returns (log': seq<Event>)
    ensures log' == CopiedMemory(bus, log, src, dst, b)
  {
    log' := log;
    var srcaddr, dstaddr, bytesleft: nat := src, dst, b;
    while bytesleft >= 4
      invariant CopiedMemory(bus, log', srcaddr, dstaddr, bytesleft) == CopiedMemory(bus, log, src, dst, b)
    {
      var v := bus(log', 4, Wrap(srcaddr)) % Limit(4);
      log' := log' + [Read(4, Wrap(srcaddr)), Write(4, Wrap(dstaddr), v)];
      srcaddr, dstaddr, bytesleft := srcaddr + 4, dstaddr + 4, bytesleft - 4;
    }
    while bytesleft > 0
      invariant bytesleft < 4
      invariant CopiedMemory(bus, log', srcaddr, dstaddr, bytesleft) == CopiedMemory(bus, log, src, dst, b)
    {
      var v := bus(log', 1, Wrap(srcaddr)) % Limit(1);
      log' := log' + [Read(1, Wrap(srcaddr)), Write(1, Wrap(dstaddr), v)];
      srcaddr, dstaddr, bytesleft := srcaddr + 1, dstaddr + 1, bytesleft - 1;
    }
  }

  /** The counting loop that steps over the bytes of a skipped copy. Its counter has 32 bits; it
      would wrap, and the loop not end, for lengths that no code has room for. */
  method SkipPayload(start: nat, b: Word) returns (pc: nat)
    requires b <= 0xFFFF_FFF8
    ensures pc == start + 2 * ((b as int + 7) / 8)
  {
    pc := start;
    var i: nat := 0;
    while i < b
      invariant i % 8 == 0 && i < b + 8 && pc == start + i / 4
    {
      pc := pc + 2;
      i := (i + 8) % 0x1_0000_0000;
    }
  }

  /** The body of the interpreter loop. */
  method Interpret(code: Code, bus: Bus, m: Cpu) returns (r: Result)
    requires InStep(code, m) && m.pc < |code|
    ensures r == Step(code, bus, m)
  {
    hide CopiedIn, CopiedMemory, WholeFrom, BoundaryFrom, Holds, AndBits, BytesOut, Push, WriteBus, ReadBus, LoopBack;
    BoundaryAdvances(code, 0, m.pc);
    var a, b := code[m.pc], code[m.pc + 1];
    var next := m.(pc := m.pc + 2);
    if Skippable(a) && !m.cond {
      if Decode(a) == CopyIn {
        var end := SkipPayload(next.pc, b);
        next := next.(pc := end);
      }
      r := Continue(next);
    } else if Decode(a) == CopyIn {
      var events, end := CopyPayload(code, next.pc, b, Low28(a) + m.offset);
      r := Continue(next.(log := m.log + events, pc := end));
    } else if Decode(a) == CopyMemory {
      var log := CopyInMemory(bus, m.log, m.offset, Low28(a), b);
      r := Continue(next.(log := log));
    } else {
      r := Exec(code, bus, next, a, b);
    }
  }

  /** RunCheat: the loop ends, and does what Run says. */
  method RunCheat(code: Code, bus: Bus) returns (r: Result)
    requires WholeFrom(code, 0) && |code| <= CODE_WORDS
    ensures r == Run(code, bus, Cpu(0, 0, 0, true, 0, 0, 0, true, 0, 0, []))
  {
    hide Step, WholeFrom, BoundaryFrom;
    var m := INITIAL;
    StartsWhole(code);
    while m.pc < |code|
      invariant InStep(code, m) && Run(code, bus, m) == Run(code, bus, INITIAL)
      decreases |code| - m.loopstart, m.loopcount, |code| - m.pc
    {
      var next := Interpret(code, bus, m);
      if next.Stop? {
        return next;
      }
      StepAdvances(code, bus, m);
      m := next.m;
    }
    r := Continue(m);
  }

  lemma StartsWhole(code: Code)
    requires WholeFrom(code, 0) && |code| <= CODE_WORDS
    ensures InStep(code, INITIAL)
  {
  }

  // ---- what a copy writes

  /** The single bytes that write accesses store. */
  function Stored(events: seq<Event>): seq<(Word, Word)> {
    if events == [] then []
    else
      var e := events[0];
      (if !e.Write? then []
       else if e.width == 1 then [(e.addr, e.value)]
       else seq(4, k requires 0 <= k < 4 => (Wrap(e.addr + k), ByteOf(e.value, k)))) + Stored(events[1..])
  }

  /** n bytes of a word sequence, the lowest byte of each word first. */
  function PayloadBytes(words: seq<Word>, n: nat, dst: nat): (bs: seq<(Word, Word)>)
    requires n <= 4 * |words|
    ensures |bs| == n
  {
    seq(n, i requires 0 <= i < n => (Wrap(dst + i), ByteOf(words[i / 4], i % 4)))
  }

  lemma {:induction false} StoredSplit(a: seq<Event>, b: seq<Event>)
    ensures Stored(a + b) == Stored(a) + Stored(b)
  {
    if a == [] {
      assert a + b == b;
    } else {
      assert (a + b)[1..] == a[1..] + b;
      StoredSplit(a[1..], b);
    }
  }

  lemma {:induction false} BytesOutStore(w: Word, k: nat, n: nat, dst: nat)
    requires k + n <= 4
    ensures Stored(BytesOut(w, k, n, dst)) == seq(n, i requires 0 <= i < n => (Wrap(dst + i), ByteOf(w, k + i)))
    decreases n
  {
    hide Wrap, ByteOf;
    if n > 0 {
      BytesOutStore(w, k + 1, n - 1, dst + 1);
      assert BytesOut(w, k, n, dst)[1..] == BytesOut(w, k + 1, n - 1, dst + 1);
    }
  }

  lemma WordStores(w: Word, dst: nat)
    ensures Stored([Write(4, Wrap(dst), w)]) == PayloadBytes([w], 4, dst)
  {
    hide ByteOf;
    assert Stored([]) == [];
  }

  /** The payload of k words, then the rest. */
  lemma PayloadSplit(words: seq<Word>, n: nat, dst: nat, k: nat)
    requires k <= |words| && 4 * k <= n <= 4 * |words|
    ensures PayloadBytes(words, n, dst) ==
      PayloadBytes(words[..k], 4 * k, dst) + PayloadBytes(words[k..], n - 4 * k, dst + 4 * k)
  {
    hide Wrap, ByteOf;
  }

  /** A copy instruction stores exactly the first n bytes behind it, at consecutive addresses. */
  lemma {:induction false} CopyStoresPayload(words: seq<Word>, n: nat, dst: nat)
    requires |words| == 2 * ((n + 7) / 8)
    ensures Stored(CopiedIn(words, n, dst)) == PayloadBytes(words, n, dst)
    decreases n
  {
    hide Wrap, ByteOf, Stored, PayloadBytes, BytesOut;
    if n >= 8 {
      CopyStoresPayload(words[2..], n - 8, dst + 8);
      var w0, w1 := [Write(4, Wrap(dst), words[0])], [Write(4, Wrap(dst + 4), words[1])];
      assert CopiedIn(words, n, dst) == w0 + (w1 + CopiedIn(words[2..], n - 8, dst + 8));
      StoredSplit(w0, w1 + CopiedIn(words[2..], n - 8, dst + 8));
      StoredSplit(w1, CopiedIn(words[2..], n - 8, dst + 8));
      WordStores(words[0], dst);
      WordStores(words[1], dst + 4);
      PayloadSplit(words, n, dst, 1);
      PayloadSplit(words[1..], n - 4, dst + 4, 1);
      assert words[..1] == [words[0]] && words[1..][..1] == [words[1]] && words[1..][1..] == words[2..];
    } else if n >= 4 {
      StoredSplit([Write(4, Wrap(dst), words[0])], BytesOut(words[1], 0, n - 4, dst + 4));
      WordStores(words[0], dst);
      FewBytes(words[1..], n - 4, dst + 4);
      PayloadSplit(words, n, dst, 1);
      assert words[..1] == [words[0]];
    } else if n > 0 {
      FewBytes(words, n, dst);
    } else {
      NoBytes(words, dst);
    }
  }

  lemma FewBytes(words: seq<Word>, n: nat, dst: nat)
    requires n <= 4 && words != []
    ensures Stored(BytesOut(words[0], 0, n, dst)) == PayloadBytes(words, n, dst)
  {
    BytesOutStore(words[0], 0, n, dst);
  }

  lemma NoBytes(words: seq<Word>, dst: nat)
    ensures Stored([]) == PayloadBytes(words, 0, dst)
  {
  }

  // ---- conditions

  /** Every instruction from p up to q is one that a false condition skips. */
  predicate SkippableTo(code: Code, p: nat, q: nat)
    decreases |code| - p
  {
    p == q || (p + 1 < |code| && p + Size(code, p) <= |code| && Skippable(code[p]) &&
      SkippableTo(code, p + Size(code, p), q))
  }

  lemma StepOfSkipped(code: Code, bus: Bus, m: Cpu)
    requires InStep(code, m) && m.pc < |code| && m.pc + 1 < |code| && Skippable(code[m.pc]) && !m.cond
    ensures Step(code, bus, m) == Continue(m.(pc := m.pc + Size(code, m.pc)))
  {
  }

  /** Under a false condition nothing up to q touches the bus or any register. */
  lemma {:induction false} FalseSkips(code: Code, bus: Bus, m: Cpu, q: nat)
    requires InStep(code, m) && !m.cond && SkippableTo(code, m.pc, q)
    ensures InStep(code, m.(pc := q)) && Run(code, bus, m) == Run(code, bus, m.(pc := q))
    decreases |code| - m.pc
  {
    hide Step, Skippable, WholeFrom, BoundaryFrom;
    if m.pc != q {
      StepOfSkipped(code, bus, m);
      StepAdvances(code, bus, m);
      FalseSkips(code, bus, m.(pc := m.pc + Size(code, m.pc)), q);
    }
  }

  /** The outcome of a test instruction: the answer of the bus, and whether the test holds. */
  function Asked(bus: Bus, m: Cpu, a: Word, b: Word): (Cpu, bool)
    requires Decode(a).If? || Decode(a).IfMasked?
  {
    var (v, m') := ReadBus(bus, m, if Decode(a).If? then 4 else 2, Low28(a));
    (m', if Decode(a).If? then Holds(Decode(a).test, b, v)
         else Holds(Decode(a).test, b % 0x1_0000, AndBits(0xFFFF - b / 0x1_0000, v, 16)))
  }

  lemma StepOfIf(code: Code, bus: Bus, m: Cpu)
    requires InStep(code, m) && m.pc < |code| && m.pc + 1 < |code| && m.cond
    requires Decode(code[m.pc]).If? || Decode(code[m.pc]).IfMasked?
    ensures var (m', holds) := Asked(bus, m, code[m.pc], code[m.pc + 1]);
      Step(code, bus, m) == Continue(Push(m', holds).(pc := m.pc + 2))
  {
    hide AndBits, Holds;
  }

  lemma StepOfEndIf(code: Code, bus: Bus, m: Cpu)
    requires InStep(code, m) && m.pc < |code| && m.pc + 1 < |code| && Decode(code[m.pc]) == EndIf
    ensures Step(code, bus, m) ==
      Continue(m.(pc := m.pc + 2, cond := m.condstack % 2 == 1, condstack := m.condstack / 2))
  {
    BoundaryAdvances(code, 0, m.pc);
  }

  lemma PushThenPop(m: Cpu, holds: bool)
    ensures var p := Push(m, holds); (p.condstack % 2 == 1) == m.cond && p.condstack / 2 == m.condstack % 0x8000_0000
  {
  }

  /** A test that fails, with no other control instruction up to the ENDIF at q, has no effect
      but the read: execution goes on behind the ENDIF with the condition it had. Only a 32nd
      enclosing condition would be lost. */
  lemma FalseIfIsNothing(code: Code, bus: Bus, m: Cpu, q: nat)
    requires InStep(code, m) && m.pc + 1 < |code| && m.cond
    requires Decode(code[m.pc]).If? || Decode(code[m.pc]).IfMasked?
    requires !Asked(bus, m, code[m.pc], code[m.pc + 1]).1
    requires m.pc + 2 <= q && q + 1 < |code| && SkippableTo(code, m.pc + 2, q) && Decode(code[q]) == EndIf
    ensures var asked := Asked(bus, m, code[m.pc], code[m.pc + 1]).0;
      var after := asked.(pc := q + 2, condstack := m.condstack % 0x8000_0000);
      InStep(code, after) && Run(code, bus, m) == Run(code, bus, after)
  {
    hide Step, Decode, WholeFrom, BoundaryFrom, Asked, Skippable, SkippableTo;
    StepOfIf(code, bus, m);
    StepAdvances(code, bus, m);
    var inside := Step(code, bus, m).m;
    FalseSkips(code, bus, inside, q);
    var at := inside.(pc := q);
    StepOfEndIf(code, bus, at);
    StepAdvances(code, bus, at);
    PushThenPop(Asked(bus, m, code[m.pc], code[m.pc + 1]).0, false);
    AskedKeeps(bus, m, code[m.pc], code[m.pc + 1]);
  }

  lemma AskedKeeps(bus: Bus, m: Cpu, a: Word, b: Word)
    requires Decode(a).If? || Decode(a).IfMasked?
    ensures var m' := Asked(bus, m, a, b).0; m' == m.(log := m'.log)
  {
    hide AndBits, Holds;
  }

  // ---- exactly when a failed test skips to its own ENDIF

  predicate IsTest(op: Op) { op.If? || op.IfMasked? || op == Counter }

  /** The ENDIF that belongs to the outermost of the tests that are open at p. */
  function OwnEndIf(code: Code, p: nat, depth: nat): (q: Option<nat>)
    requires depth > 0
    ensures q.Some? ==> p <= q.value && q.value + 1 < |code| && Decode(code[q.value]) == EndIf
    decreases |code| - p
  {
    if p + 1 >= |code| || p + Size(code, p) > |code| then None
    else if Decode(code[p]) == EndIf && depth == 1 then Some(p)
    else
      OwnEndIf(code, p + Size(code, p),
               if IsTest(Decode(code[p])) then depth + 1 else if Decode(code[p]) == EndIf then depth - 1 else depth)
  }

  /** Every step up to q moves the instruction pointer and changes nothing else. */
  predicate OnlyPcTo(code: Code, bus: Bus, m: Cpu, q: nat)
    requires InStep(code, m)
    decreases |code| - m.pc
  {
    m.pc == q ||
    (m.pc < |code| && Step(code, bus, m).Continue? &&
     var m' := Step(code, bus, m).m;
     m' == m.(pc := m'.pc) && (StepAdvances(code, bus, m); OnlyPcTo(code, bus, m', q)))
  }

  /** The instructions that a false condition does not skip count, end the test or go round the
      loop. */
  lemma NotSkippedChanges(code: Code, bus: Bus, m: Cpu)
    requires InStep(code, m) && m.pc < |code| && m.pc + 1 < |code| && !Skippable(code[m.pc])
    requires !m.cond && m.loopcond && m.condstack % 2 == 1
    ensures Step(code, bus, m).Continue? ==> Step(code, bus, m).m != m.(pc := Step(code, bus, m).m.pc)
  {
    hide WholeFrom, BoundaryFrom, CopiedIn, CopiedMemory, AndBits, Holds;
    var op := OpByte(code[m.pc]);
    assert op in {0xC5, 0xD0, 0xD1, 0xD2};
    assert Decode(code[m.pc]) in {Counter, EndIf, Next, NextFlush};
  }

  lemma {:induction false} OnlyPcExactly(code: Code, bus: Bus, m: Cpu, q: nat)
    requires InStep(code, m) && !m.cond && m.loopcond && m.condstack % 2 == 1
    ensures OnlyPcTo(code, bus, m, q) <==> SkippableTo(code, m.pc, q)
    decreases |code| - m.pc
  {
    hide Step, Skippable, WholeFrom, BoundaryFrom;
    if m.pc != q && m.pc < |code| {
      BoundaryAdvances(code, 0, m.pc);
      if Skippable(code[m.pc]) {
        StepOfSkipped(code, bus, m);
        StepAdvances(code, bus, m);
        OnlyPcExactly(code, bus, m.(pc := m.pc + Size(code, m.pc)), q);
      } else {
        NotSkippedChanges(code, bus, m);
      }
    }
  }

  /** The condition saved by FOR is true in every run, because FOR itself can be skipped. */
  lemma LoopCondStays(code: Code, bus: Bus, m: Cpu)
    requires InStep(code, m) && m.pc < |code| && Step(code, bus, m).Continue? && m.loopcond
    ensures INITIAL.loopcond && Step(code, bus, m).m.loopcond
  {
    hide WholeFrom, BoundaryFrom, CopiedIn, CopiedMemory, AndBits, Holds;
    BoundaryAdvances(code, 0, m.pc);
  }

  /** The machine behind a test that failed. */
  function Failed(bus: Bus, m: Cpu, a: Word, b: Word): Cpu
    requires Decode(a).If? || Decode(a).IfMasked?
  {
    Push(Asked(bus, m, a, b).0, false).(pc := m.pc + 2)
  }

  /** Up to the ENDIF of a failed test nothing but the instruction pointer changes if and only if
      every instruction in between is one that a false condition skips: no ENDIF of an inner
      test, no counter and no loop end. */
  lemma FailedTestExactly(code: Code, bus: Bus, m: Cpu, q: nat)
    requires InStep(code, m) && m.pc + 1 < |code| && m.cond && m.loopcond
    requires Decode(code[m.pc]).If? || Decode(code[m.pc]).IfMasked?
    requires !Asked(bus, m, code[m.pc], code[m.pc + 1]).1 && OwnEndIf(code, m.pc + 2, 1) == Some(q)
    ensures var inside := Failed(bus, m, code[m.pc], code[m.pc + 1]);
      && Step(code, bus, m) == Continue(inside) && InStep(code, inside)
      && (OnlyPcTo(code, bus, inside, q) <==> SkippableTo(code, m.pc + 2, q))
  {
    hide Step, Decode, WholeFrom, BoundaryFrom, Asked, Skippable, SkippableTo, OwnEndIf, OnlyPcTo;
    StepOfIf(code, bus, m);
    StepAdvances(code, bus, m);
    AskedKeeps(bus, m, code[m.pc], code[m.pc + 1]);
    OnlyPcExactly(code, bus, Failed(bus, m, code[m.pc], code[m.pc + 1]), q);
  }

  /** The first ENDIF ends a failed test, even one that belongs to an IF inside it. Here the
      outer test fails: the store inside it is made, the one behind it is not. */
  const NESTED: Code := [0x5000_0000, 1, 0x5000_0000, 1, 0xD000_0000, 0, 0x0000_0010, 7, 0xD000_0000, 0, 0x0000_0020, 7]

  lemma NestedIfLeaks(bus: Bus)
    requires forall log, width, a :: bus(log, width, a) == 0
    ensures InStep(NESTED, INITIAL) && Run(NESTED, bus, INITIAL).m.log == [Read(4, 0), Write(4, 0x10, 7)]
  {
    NestedDecoded(bus);
    NestedInside(bus);
    hide Step, Decode, WholeFrom, BoundaryFrom, Asked, Skippable, SkippableTo;
    FalseIfIsNothing(NESTED, bus, INITIAL, 4);
    StepAdvances(NESTED, bus, INITIAL.(pc := 6, log := [Read(4, 0)]));
    NestedEnd(bus);
  }

  /** The second ENDIF ends no test and makes the condition false. */
  lemma NestedEnd(bus: Bus)
    requires forall log, width, a :: bus(log, width, a) == 0
    requires InStep(NESTED, INITIAL.(pc := 8, log := [Read(4, 0), Write(4, 0x10, 7)]))
    ensures var stored := INITIAL.(pc := 8, log := [Read(4, 0), Write(4, 0x10, 7)]);
      Run(NESTED, bus, stored) == Continue(stored.(pc := 12, cond := false))
  {
    NestedDecoded(bus);
    hide Step, Decode, WholeFrom, BoundaryFrom, Asked, Skippable, SkippableTo;
    var stored := INITIAL.(pc := 8, log := [Read(4, 0), Write(4, 0x10, 7)]);
    StepOfEndIf(NESTED, bus, stored);
    StepAdvances(NESTED, bus, stored);
    FalseSkips(NESTED, bus, stored.(pc := 10, cond := false), 12);
  }

  lemma NestedDecoded(bus: Bus)
    requires forall log, width, a :: bus(log, width, a) == 0
    ensures Decode(NESTED[0]) == If(Equal) && Decode(NESTED[4]) == EndIf && Decode(NESTED[8]) == EndIf
    ensures Asked(bus, INITIAL, NESTED[0], NESTED[1]) == (INITIAL.(log := [Read(4, 0)]), false)
    ensures SkippableTo(NESTED, 2, 4) && SkippableTo(NESTED, 10, 12)
    ensures InStep(NESTED, INITIAL) && InStep(NESTED, INITIAL.(pc := 6))
  {
    hide SkippableTo, WholeFrom, BoundaryFrom, AndBits;
    NestedOps();
    NestedSkips();
    PairsAreWhole(NESTED, 0, 0);
    PairsAreWhole(NESTED, 0, 6);
    hide Decode;
    assert [] + [Read(4, 0)] == [Read(4, 0)];
  }

  lemma NestedOps()
    ensures Decode(NESTED[0]) == If(Equal) && Decode(NESTED[4]) == EndIf && Decode(NESTED[8]) == EndIf
    ensures forall i | 0 <= i < 12 && i % 2 == 0 :: Decode(NESTED[i]) != CopyIn
  {
  }

  /** Its own ENDIF is the second; the store in front of that one can be skipped, the first ENDIF
      cannot. */
  lemma NestedOwnEndIf()
    ensures OwnEndIf(NESTED, 2, 1) == Some(8) && !SkippableTo(NESTED, 2, 8)
  {
    hide OwnEndIf, SkippableTo;
    NestedOps();
    assert Decode(NESTED[2]) == If(Equal) && Decode(NESTED[6]) == Store(4) && !Skippable(NESTED[4]);
    assert OwnEndIf(NESTED, 8, 1) == Some(8) by { OwnEndIfStep(NESTED, 8, 1); }
    assert OwnEndIf(NESTED, 6, 1) == Some(8) by { OwnEndIfStep(NESTED, 6, 1); }
    assert OwnEndIf(NESTED, 4, 2) == Some(8) by { OwnEndIfStep(NESTED, 4, 2); }
    OwnEndIfStep(NESTED, 2, 1);
    NotSkippableStep(NESTED, 4, 8);
    SkippableStep(NESTED, 2, 8);
  }

  lemma OwnEndIfStep(code: Code, p: nat, depth: nat)
    requires depth > 0 && p + 1 < |code| && Decode(code[p]) != CopyIn && p + 2 <= |code|
    ensures OwnEndIf(code, p, depth) ==
      if Decode(code[p]) == EndIf && depth == 1 then Some(p)
      else
        OwnEndIf(code, p + 2,
                 if IsTest(Decode(code[p])) then depth + 1 else if Decode(code[p]) == EndIf then depth - 1 else depth)
  {
  }

  lemma SkippableStep(code: Code, p: nat, q: nat)
    requires p != q && p + 2 <= |code| && Decode(code[p]) != CopyIn
    ensures SkippableTo(code, p, q) ==> SkippableTo(code, p + 2, q)
  {
  }

  lemma NotSkippableStep(code: Code, p: nat, q: nat)
    requires p != q && p < |code| && !Skippable(code[p])
    ensures !SkippableTo(code, p, q)
  {
  }

  lemma NestedSkips()
    ensures SkippableTo(NESTED, 2, 4) && SkippableTo(NESTED, 10, 12)
  {
    assert SkippableTo(NESTED, 4, 4) && SkippableTo(NESTED, 12, 12);
  }

  lemma NestedInside(bus: Bus)
    requires InStep(NESTED, INITIAL.(pc := 6))
    ensures Step(NESTED, bus, INITIAL.(pc := 6, log := [Read(4, 0)])) ==
      Continue(INITIAL.(pc := 8, log := [Read(4, 0), Write(4, 0x10, 7)]))
  {
    hide WholeFrom, BoundaryFrom;
    assert Decode(NESTED[6]) == Store(4);
  }

  /** Codes without copy instructions are whole, and every even position is a boundary. */
  lemma {:induction false} PairsAreWhole(code: Code, p: nat, q: nat)
    requires |code| % 2 == p % 2 == q % 2 == 0 && p <= q <= |code|
    requires forall i | 0 <= i < |code| && i % 2 == 0 :: Decode(code[i]) != CopyIn
    ensures WholeFrom(code, p) && BoundaryFrom(code, p, q)
    decreases |code| - p
  {
    if p < |code| {
      PairsAreWhole(code, p + 2, if p < q then q else p + 2);
    }
  }

  // ---- loops

  predicate Plain(a: Word) { Decode(a) !in {For, Next, NextFlush, Self, Bad} }

  /** Only plain instructions from p up to q. */
  predicate PlainTo(code: Code, p: nat, q: nat)
    decreases |code| - p
  {
    p == q || (p + 1 < |code| && p + Size(code, p) <= |code| && Plain(code[p]) && PlainTo(code, p + Size(code, p), q))
  }

  lemma StepOfPlain(code: Code, bus: Bus, m: Cpu)
    requires InStep(code, m) && m.pc < |code| && m.pc + 1 < |code| && Plain(code[m.pc])
    ensures var r := Step(code, bus, m);
      && r.Continue? && r.m.pc == m.pc + Size(code, m.pc) && r.m.loopstart == m.loopstart &&
        r.m.loopcount == m.loopcount
      && r.m.loopcond == m.loopcond && r.m.loopcondstack == m.loopcondstack
  {
    BoundaryAdvances(code, 0, m.pc);
    hide Exec, Decode, WholeFrom, BoundaryFrom;
    if !Skippable(code[m.pc]) || m.cond {
      PlainMoves(code, bus, m.(pc := m.pc + 2), code[m.pc], code[m.pc + 1]);
    }
  }

  lemma PlainMoves(code: Code, bus: Bus, m: Cpu, a: Word, b: Word)
    requires m.pc + 2 * ((b as int + 7) / 8) <= |code| || Decode(a) != CopyIn
    requires Plain(a)
    ensures var r := Exec(code, bus, m, a, b);
      && r.Continue? && r.m.loopstart == m.loopstart && r.m.loopcount == m.loopcount
      && r.m.pc == (if Decode(a) == CopyIn then m.pc + 2 * ((b as int + 7) / 8) else m.pc)
      && r.m.loopcond == m.loopcond && r.m.loopcondstack == m.loopcondstack
  {
    hide Decode, CopiedIn, CopiedMemory, AndBits, Holds, Limit, Low28, Wrap;
  }

  /** The machine after the plain instructions up to q. */
  function Through(code: Code, bus: Bus, m: Cpu, q: nat): (m': Cpu)
    requires InStep(code, m) && PlainTo(code, m.pc, q)
    ensures InStep(code, m') && m'.pc == q && m'.loopstart == m.loopstart && m'.loopcount == m.loopcount
    ensures m'.loopcond == m.loopcond && m'.loopcondstack == m.loopcondstack
    ensures Run(code, bus, m) == Run(code, bus, m')
    decreases |code| - m.pc
  {
    if m.pc == q then m
    else
      StepOfPlain(code, bus, m);
      StepAdvances(code, bus, m);
      Through(code, bus, Step(code, bus, m).m, q)
  }

  /** n passes over the loop body, each starting where the last left the machine. */
  function Passes(code: Code, bus: Bus, m: Cpu, q: nat, n: nat): (m': Cpu)
    requires InStep(code, m) && m.pc == m.loopstart && n <= m.loopcount && PlainTo(code, m.loopstart, q)
    ensures InStep(code, m') && m'.pc == m'.loopstart == m.loopstart && m'.loopcount == m.loopcount - n
    ensures m'.loopcond == m.loopcond && m'.loopcondstack == m.loopcondstack
  {
    if n == 0 then m
    else
      var before := Passes(code, bus, m, q, n - 1);
      var end := Through(code, bus, before, q);
      BackToBody(code, end, m.loopcount);
      end.(pc := m.loopstart, loopcount := end.loopcount - 1)
  }

  lemma BackToBody(code: Code, m: Cpu, n: nat)
    requires InStep(code, m) && m.loopcount > 0
    ensures InStep(code, m.(pc := m.loopstart, loopcount := m.loopcount - 1))
  {
  }

  lemma StepOfNext(code: Code, bus: Bus, m: Cpu)
    requires InStep(code, m) && m.pc < |code| && m.pc + 1 < |code| && Decode(code[m.pc]) == Next
    ensures var m' := m.(pc := m.pc + 2);
      Step(code, bus, m) == Continue(LoopBack(m', m'.(cond := m.loopcond, condstack := m.loopcondstack)))
  {
    BoundaryAdvances(code, 0, m.pc);
  }

  lemma {:induction false} PassesRun(code: Code, bus: Bus, m: Cpu, q: nat, n: nat)
    requires InStep(code, m) && m.pc == m.loopstart && n <= m.loopcount && PlainTo(code, m.loopstart, q)
    requires q + 1 < |code| && Decode(code[q]) == Next
    ensures Run(code, bus, m) == Run(code, bus, Passes(code, bus, m, q, n))
  {
    hide Step, Decode, WholeFrom, BoundaryFrom;
    if n > 0 {
      PassesRun(code, bus, m, q, n - 1);
      var end := Through(code, bus, Passes(code, bus, m, q, n - 1), q);
      StepOfNext(code, bus, end);
      StepAdvances(code, bus, end);
    }
  }

  lemma StepOfFor(code: Code, bus: Bus, m: Cpu)
    requires InStep(code, m) && m.pc < |code| && m.pc + 1 < |code| && m.cond && Decode(code[m.pc]) == For
    ensures Step(code, bus, m) == Continue(m.(pc := m.pc + 2, loopstart := m.pc + 2, loopcount := code[m.pc + 1],
                                              loopcond := true, loopcondstack := m.condstack))
  {
    BoundaryAdvances(code, 0, m.pc);
  }

  /** The machine at the body of a loop, and behind the NEXT that leaves it. */
  function Entered(m: Cpu, b: Word): Cpu {
    m.(pc := m.pc + 2, loopstart := m.pc + 2, loopcount := b, loopcond := true, loopcondstack := m.condstack)
  }

  function Looped(code: Code, bus: Bus, m: Cpu, q: nat, b: Word): Cpu
    requires InStep(code, Entered(m, b)) && PlainTo(code, m.pc + 2, q)
  {
    Through(code, bus, Passes(code, bus, Entered(m, b), q, b), q).(pc := q + 2, cond := true, condstack := m.condstack)
  }

  /** FOR b with a plain body and NEXT runs the body b + 1 times and goes on behind the NEXT with
      the condition it had at the FOR, whatever the body did to it. */
  lemma LoopRunsBody(code: Code, bus: Bus, m: Cpu, q: nat)
    requires InStep(code, m) && m.pc + 1 < |code| && m.cond && Decode(code[m.pc]) == For
    requires PlainTo(code, m.pc + 2, q) && q + 1 < |code| && Decode(code[q]) == Next
    ensures var b := code[m.pc + 1];
      && InStep(code, Entered(m, b)) && InStep(code, Looped(code, bus, m, q, b))
      && Run(code, bus, m) == Run(code, bus, Looped(code, bus, m, q, b))
  {
    hide Step, Decode, WholeFrom, BoundaryFrom;
    StepOfFor(code, bus, m);
    StepAdvances(code, bus, m);
    var first := Step(code, bus, m).m;
    PassesRun(code, bus, first, q, first.loopcount);
    var last := Through(code, bus, Passes(code, bus, first, q, first.loopcount), q);
    StepOfNext(code, bus, last);
    StepAdvances(code, bus, last);
  }
}
