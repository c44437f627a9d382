/** Whether the tables of one compilation, which have as many entries as a block may have
    instructions, are large enough for what the fetch loop reads of ARM7 code. */
module TableSafety {
  import opened CodeCoverage
  import opened JitCache
  import opened FetchLoop
  import opened Arm7
  import opened Options

  function RangesOf(ps: seq<Place>): set<nat> { set p | p in ps :: RangeOf(p.addr) }

  lemma EntriesOf(ps: seq<Place>, mem: Memory)
    ensures |Cover(ReadAll(ps, mem)).ranges| == |RangesOf(ps)|
  {
    var t := ReadAll(ps, mem);
    TableSize(t);
    forall r ensures r in RangesRead(t) <==> r in RangesOf(ps) {
      if r in RangesRead(t) {
        var i :| 0 <= i < |t| && RangeOf(t[i].addr) == r;
        assert ps[i] in ps;
      }
      if r in RangesOf(ps) {
        var p :| p in ps && RangeOf(p.addr) == r;
        var i :| 0 <= i < |ps| && ps[i] == p;
        assert RangeOf(t[i].addr) == r;
      }
    }
    assert RangesRead(t) == RangesOf(ps);
  }

  lemma Smaller(a: set<nat>, b: set<nat>)
    requires a <= b
    ensures |a| <= |b|
  {
    assert b == a + (b - a);
  }

  /** What one turn reads, and the rest. */
  lemma OneTurn(cfg: Config, mem: Memory, cpu: Cpu, l: Loop, k: nat)
    requires l.index < Limit(cfg.core)
    ensures var p := InstrPlace(cfg, l.addr); var t := TakeTurn(cfg, l, BytesAt(mem, p), cpu.outcome(k));
      var rest := if GoesOn(cfg, t, cpu.outcome(k)) then PlacesFrom(cfg, mem, cpu, t.next, k + 1) else [];
      RangesOf(PlacesFrom(cfg, mem, cpu, l, k)) ==
        {RangeOf(p.addr)} + RangesOf(Literals(cfg, l.addr, t)) + RangesOf(rest)
  {
    hide TakeTurn, InstrPlace, Literals;
    var p := InstrPlace(cfg, l.addr);
    var t := TakeTurn(cfg, l, BytesAt(mem, p), cpu.outcome(k));
    var ls := Literals(cfg, l.addr, t);
    var rest := if GoesOn(cfg, t, cpu.outcome(k)) then PlacesFrom(cfg, mem, cpu, t.next, k + 1) else [];
    assert RangesOf([p] + ls + rest) == RangesOf([p]) + RangesOf(ls) + RangesOf(rest);
    assert RangesOf([p]) == {RangeOf(p.addr)};
  }

  // ---- as many turns as entries

  /** A merged long branch goes back by one, but ends the block. */
  lemma TurnCounts(core: Core, max: int, branches: bool, literals: bool, thumb: bool, l: Loop, bytes: seq<Byte>,
                   out: Outcome)
    requires core == Arm7Core(max, branches, literals)
    ensures var t := TakeTurn(Config(core, thumb), l, bytes, out); t.ends || t.next.index == l.index + 1
    ensures !literals ==> TakeTurn(Config(core, thumb), l, bytes, out).literal == None
  {
    hide Wrap, Signed;
    var info := Decode(thumb, l.before, bytes);
    if info.secondHalf {
      assert thumb && info.target == Unknown && info.cond == 0xE && info.ends;
    }
  }

  lemma {:induction false} ValuesBound(cfg: Config, max: int, branches: bool, literals: bool, mem: Memory, cpu: Cpu,
                                       l: Loop, k: nat)
    requires cfg.core == Arm7Core(max, branches, literals) && l.index < Limit(cfg.core)
    ensures var t := ReadAll(PlacesFrom(cfg, mem, cpu, l, k), mem); var n := Limit(cfg.core) - l.index;
      |Values(t, false)| <= n && |Values(t, true)| <= if literals then n else 0
    decreases Rank(cfg, l)
  {
    hide TakeTurn, InstrPlace, LiteralPlace, Decode, MainMemory, ReadAll, Values;
    var p := InstrPlace(cfg, l.addr);
    var bytes := BytesAt(mem, p);
    var t := TakeTurn(cfg, l, bytes, cpu.outcome(k));
    TurnCounts(cfg.core, max, branches, literals, cfg.thumb, l, bytes, cpu.outcome(k));
    TurnAdvances(cfg, l, bytes, cpu.outcome(k));
    var ls := Literals(cfg, l.addr, t);
    var rest := if GoesOn(cfg, t, cpu.outcome(k)) then PlacesFrom(cfg, mem, cpu, t.next, k + 1) else [];
    ValuesOfPlaces([p], mem);
    ValuesOfPlaces(ls, mem);
    SplitValues([p] + ls, rest, mem);
    SplitValues([p], ls, mem);
    if GoesOn(cfg, t, cpu.outcome(k)) {
      ValuesBound(cfg, max, branches, literals, mem, cpu, t.next, k + 1);
    } else {
      ValuesOfPlaces(rest, mem);
    }
  }

  lemma SplitValues(a: seq<Place>, b: seq<Place>, mem: Memory)
    ensures forall lit ::
      Values(ReadAll(a + b, mem), lit) == Values(ReadAll(a, mem), lit) + Values(ReadAll(b, mem), lit)
  {
    assert ReadAll(a + b, mem) == ReadAll(a, mem) + ReadAll(b, mem);
    ValuesSplit(ReadAll(a, mem), ReadAll(b, mem), false);
    ValuesSplit(ReadAll(a, mem), ReadAll(b, mem), true);
  }

  lemma ValuesOfPlaces(ps: seq<Place>, mem: Memory)
    requires |ps| <= 1
    ensures forall lit :: |Values(ReadAll(ps, mem), lit)| == if ps != [] && ps[0].isLiteral == lit then 1 else 0
  {
    var t := ReadAll(ps, mem);
    if ps != [] {
      assert t[1..] == [];
    }
  }

  /** The tables of instruction and literal values are always large enough. */
  lemma ValueTablesFit(max: int, branches: bool, literals: bool, addr: nat, mem: Memory, cpu: Cpu)
    ensures var core := Arm7Core(max, branches, literals); var t := Fetched(FrontEndOf(core), addr, mem, cpu);
      |Values(t, false)| <= Limit(core) && |Values(t, true)| <= Limit(core)
  {
    var cfg := Config(Arm7Core(max, branches, literals), cpu.thumb);
    ValuesBound(cfg, max, branches, literals, mem, cpu, Begin(CodeAddress(cfg, addr)), 0);
  }

  // ---- straight code stays close to its literals

  /** The range of an address, of which there is one for every 512 bytes. */
  function RangeAt(q: int): nat { RangeOf(MainMemory(Wrap(512 * q))) }

  lemma IsRangeAt(x: int)
    ensures RangeOf(MainMemory(Wrap(x))) == RangeAt(x / 512)
  {
    var r := x % 512;
    var v := WrapParts(x / 512, r);
    assert x == 512 * (x / 512) + r;
    LocalRange(v, r);
    LocalRange(v, 0);
  }

  lemma WrapParts(q: int, r: nat) returns (v: nat)
    requires r < 512
    ensures Wrap(512 * q) == 512 * v && Wrap(512 * q + r) == 512 * v + r
  {
    var a := q / 0x80_0000;
    v := q % 0x80_0000;
    assert 512 * q == 0x1_0000_0000 * a + 512 * v;
  }

  lemma LocalRange(v: nat, r: nat)
    requires r < 512
    ensures RangeOf(MainMemory(512 * v + r)) == if v / 0x8000 == 2 then MAIN / 512 + v % 0x2000 else 0
  {
    var a, b := v / 0x2000, v % 0x2000;
    assert 512 * v + r == 0x40_0000 * a + (512 * b + r);
    assert (512 * v + r) / 0x100_0000 == v / 0x8000;
  }

  function Span(q: int, n: nat): (s: set<nat>)
    ensures |s| <= n
    ensures forall j | q <= j < q + n :: RangeAt(j) in s
  {
    if n == 0 then {} else Span(q, n - 1) + {RangeAt(q + n - 1)}
  }

  /** Everything is read from addresses from lo up to hi, not wrapped yet. */
  ghost predicate Between(ps: seq<Place>, lo: int, hi: int) {
    forall p | p in ps :: IsBetween(p, lo, hi)
  }

  ghost predicate IsBetween(p: Place, lo: int, hi: int) {
    exists x: int :: lo <= x <= hi && p.addr == MainMemory(Wrap(x))
  }

  lemma BetweenBound(ps: seq<Place>, lo: int, hi: int)
    requires Between(ps, lo, hi) && lo <= hi
    ensures |RangesOf(ps)| <= hi / 512 - lo / 512 + 1
  {
    var s := Span(lo / 512, hi / 512 - lo / 512 + 1);
    forall r | r in RangesOf(ps) ensures r in s {
      var p :| p in ps && RangeOf(p.addr) == r;
      var x: int :| lo <= x <= hi && p.addr == MainMemory(Wrap(x));
      IsRangeAt(x);
    }
    Smaller(RangesOf(ps), s);
  }

  /** Thumb literals are up to 1020 bytes ahead, ARM literals up to 4095 either way. */
  lemma LiteralNear(thumb: bool, before: seq<Byte>, bytes: seq<Byte>)
    requires Decode(thumb, before, bytes).literal.Some?
    ensures var offset := Decode(thumb, before, bytes).literal.value;
      if thumb then 0 <= offset <= 1020 && offset % 4 == 0 else -4095 <= offset <= 4095
  {
    hide Signed, ArmDest, ArmTarget, EndsBlock, WritesControl;
  }

  function Lowest(a: nat, thumb: bool): int { if thumb then a else a - 4088 }

  function Highest(a: nat, thumb: bool): int { a + if thumb then 1086 else 4224 }

  function LiteralAddr(y: nat, thumb: bool, offset: int): int {
    var x := (if thumb then y + 4 - (y + 4) % 4 else y + 8) + offset;
    x - x % 4
  }

  lemma LiteralAt(cfg: Config, y: nat, offset: int)
    requires cfg.core.localise == MainMemory
    ensures LiteralPlace(cfg, Wrap(y), offset).addr == MainMemory(Wrap(LiteralAddr(y, cfg.thumb, offset)))
  {
    hide MainMemory, Wrap;
    var up := if cfg.thumb then 4 - (y + 4) % 4 else 8;
    WrapDown(y);
    WrapAgain(y, up + offset);
    WrapDown(y + up + offset);
  }

  lemma LiteralBetween(a: nat, thumb: bool, i: nat, offset: int)
    requires a % (if thumb then 2 else 4) == 0 && i < 32
    requires if thumb then 0 <= offset <= 1020 && offset % 4 == 0 else -4095 <= offset <= 4095
    ensures Lowest(a, thumb) <= LiteralAddr(a + (if thumb then 2 else 4) * i, thumb, offset) <= Highest(a, thumb)
  {
  }

  lemma WrapAgain(y: nat, n: int)
    ensures Wrap(Wrap(y) + n) == Wrap(y + n)
  {
    var a := y / 0x1_0000_0000;
    assert y + n == 0x1_0000_0000 * a + (Wrap(y) + n);
  }

  lemma WrapDown(n: int)
    ensures Wrap(n) % 4 == n % 4 && Wrap(n - n % 4) == Wrap(n) - Wrap(n) % 4
  {
    hide Wrap;
    var a, w := n / 0x1_0000_0000, n % 0x1_0000_0000;
    var v, r := w / 4, w % 4;
    WrapOf(a, 4 * v + r);
    WrapOf(a, 4 * v);
    Remainder(0x4000_0000 * a + v, r);
  }

  lemma WrapOf(a: int, w: nat)
    requires w < 0x1_0000_0000
    ensures Wrap(0x1_0000_0000 * a + w) == w
  {
  }

  lemma Remainder(b: int, r: nat)
    requires r < 4
    ensures (4 * b + r) % 4 == r
  {
  }

  /** Without branches followed, the i-th instruction is i instructions from the start. */
  lemma {:induction false} StraightBetween(cfg: Config, max: int, literals: bool, mem: Memory, cpu: Cpu, a: nat,
                                           l: Loop, k: nat)
    requires cfg.core == Arm7Core(max, false, literals) && a % Align(cfg) == 0
    requires l.index < Limit(cfg.core) && l.addr == Wrap(a + Align(cfg) * l.index)
    ensures Between(PlacesFrom(cfg, mem, cpu, l, k), Lowest(a, cfg.thumb), Highest(a, cfg.thumb))
    decreases Rank(cfg, l)
  {
    hide TakeTurn, LiteralPlace, MainMemory, Decode, Wrap;
    var p := InstrPlace(cfg, l.addr);
    var bytes := BytesAt(mem, p);
    var t := TakeTurn(cfg, l, bytes, cpu.outcome(k));
    TurnCounts(cfg.core, max, false, literals, cfg.thumb, l, bytes, cpu.outcome(k));
    TurnAdvances(cfg, l, bytes, cpu.outcome(k));
    StraightTurn(cfg, max, literals, l, bytes, cpu.outcome(k));
    assert IsBetween(p, Lowest(a, cfg.thumb), Highest(a, cfg.thumb)) by {
      assert p.addr == MainMemory(Wrap(a + Align(cfg) * l.index));
    }
    if t.literal.Some? {
      LiteralNear(cfg.thumb, l.before, bytes);
      LiteralAt(cfg, a + Align(cfg) * l.index, t.literal.value);
      LiteralBetween(a, cfg.thumb, l.index, t.literal.value);
    }
    if GoesOn(cfg, t, cpu.outcome(k)) {
      WrapAgain(a + Align(cfg) * l.index, Align(cfg));
      StraightBetween(cfg, max, literals, mem, cpu, a, t.next, k + 1);
    }
  }

  lemma StraightTurn(cfg: Config, max: int, literals: bool, l: Loop, bytes: seq<Byte>, out: Outcome)
    requires cfg.core == Arm7Core(max, false, literals)
    ensures var t := TakeTurn(cfg, l, bytes, out);
      && t.next.addr == Wrap(l.addr + Align(cfg))
      && t.literal == if literals then Decode(cfg.thumb, l.before, bytes).literal else None
  {
    hide Wrap, Decode;
  }

  /** Straight Thumb code and its literals lie in four ranges, straight ARM code in eighteen. */
  lemma StraightBound(cfg: Config, max: int, literals: bool, addr: nat, mem: Memory, cpu: Cpu)
    requires cfg.core == Arm7Core(max, false, literals)
    ensures |RangesOf(FetchPlaces(cfg, addr, mem, cpu))| <= if cfg.thumb then 4 else 18
  {
    hide PlacesFrom, MainMemory, Decode;
    var a := CodeAddress(cfg, addr);
    assert a % Align(cfg) == 0 && a == Wrap(a);
    StraightBetween(cfg, max, literals, mem, cpu, a, Begin(a), 0);
    BetweenBound(FetchPlaces(cfg, addr, mem, cpu), Lowest(a, cfg.thumb), Highest(a, cfg.thumb));
    SpanSize(a, cfg.thumb);
  }

  lemma SpanSize(a: nat, thumb: bool)
    requires a % (if thumb then 2 else 4) == 0
    ensures Highest(a, thumb) / 512 - Lowest(a, thumb) / 512 + 1 <= if thumb then 4 else 18
  {
    var b := Lowest(a, thumb);
    var q, r := b / 512, b % 512;
    assert b == 512 * q + r;
    assert r % 2 == 0;
    assert !thumb ==> r % 4 == 0;
  }

  lemma {:induction false} NoMoreThanPlaces(ps: seq<Place>)
    ensures |RangesOf(ps)| <= |ps|
  {
    if ps != [] {
      var n := |ps| - 1;
      NoMoreThanPlaces(ps[..n]);
      assert RangesOf(ps) <= RangesOf(ps[..n]) + {RangeOf(ps[n].addr)};
      Smaller(RangesOf(ps), RangesOf(ps[..n]) + {RangeOf(ps[n].addr)});
    }
  }

  lemma {:induction false} AllValues(t: seq<Access>)
    ensures |Values(t, false)| + |Values(t, true)| == |t|
  {
    if t != [] {
      AllValues(t[1..]);
    }
  }

  lemma WithoutLiterals(cfg: Config, max: int, branches: bool, addr: nat, mem: Memory, cpu: Cpu)
    requires cfg.core == Arm7Core(max, branches, false)
    ensures |RangesOf(FetchPlaces(cfg, addr, mem, cpu))| <= Limit(cfg.core)
  {
    hide PlacesFrom, Decode, MainMemory;
    var ps := FetchPlaces(cfg, addr, mem, cpu);
    ValuesBound(cfg, max, branches, false, mem, cpu, Begin(CodeAddress(cfg, addr)), 0);
    AllValues(ReadAll(ps, mem));
    NoMoreThanPlaces(ps);
  }

  // ---- code that needs more ranges than entries

  /** Nothing branches and nothing stops the CPU but what the instructions say. */
  function Calm(thumb: bool): Cpu { Cpu(thumb, (k: nat) => Outcome(false, false)) }

  function Size(thumb: bool): nat { if thumb then 2 else 4 }

  /** Local ranges of the main memory, counted from its start. */
  const FIRST: nat := MAIN / 512

  /** A load of a literal that goes on. */
  predicate IsLoad(info: Info, offset: int) { info == PLAIN.(cond := info.cond, literal := Some(offset)) }

  lemma LoadTurn(cfg: Config, max: int, branches: bool, l: Loop, bytes: seq<Byte>, offset: int)
    requires cfg.core == Arm7Core(max, branches, true)
    requires IsLoad(Decode(cfg.thumb, l.before, bytes), offset)
    ensures TakeTurn(cfg, l, bytes, Outcome(false, false)) ==
      Turn(Some(offset), Loop(Wrap(l.addr + Align(cfg)), l.index + 1, bytes, l.addr, l.segment, l.link), false)
  {
    hide Wrap, Decode;
  }

  lemma InMain(a: nat)
    requires a < 0x40_0000
    ensures Wrap(START + a) == START + a && MainMemory(START + a) == MAIN + a && RangeOf(MAIN + a) == FIRST + a / 512
  {
  }

  /** A load at offset a of main memory, with its literal at offset b. */
  lemma LoadReads(cfg: Config, max: int, branches: bool, mem: Memory, l: Loop, k: nat, bytes: seq<Byte>, offset: int,
                  a: nat, b: nat)
    requires cfg.core == Arm7Core(max, branches, true) && l.index < Limit(cfg.core)
    requires a < 0x40_0000 && b < 0x40_0000 && l.addr == START + a &&
      START + b == LiteralAddr(l.addr, cfg.thumb, offset)
    requires bytes == BytesAt(mem, Place(false, MAIN + a, Size(cfg.thumb)))
    requires IsLoad(Decode(cfg.thumb, l.before, bytes), offset)
    ensures var rest := if l.index + 1 < Limit(cfg.core)
        then PlacesFrom(cfg, mem, Calm(cfg.thumb),
                        Loop(l.addr + Align(cfg), l.index + 1, bytes, l.addr, l.segment, l.link), k + 1) else [];
      RangesOf(PlacesFrom(cfg, mem, Calm(cfg.thumb), l, k)) ==
        {FIRST + a / 512, FIRST + b / 512} + RangesOf(rest)
  {
    hide TakeTurn, Decode, LiteralPlace, LiteralAddr, PlacesFrom, MainMemory, Wrap, RangeOf, BytesAt;
    InMain(a);
    InMain(b);
    OneTurn(cfg, mem, Calm(cfg.thumb), l, k);
    LoadTurn(cfg, max, branches, l, bytes, offset);
    LiteralAt(cfg, l.addr, offset);
    WrapOf(0, l.addr + Align(cfg));
    var t := TakeTurn(cfg, l, bytes, Outcome(false, false));
    var q := LiteralPlace(cfg, l.addr, offset);
    assert Literals(cfg, l.addr, t) == [q] && RangesOf([q]) == {RangeOf(q.addr)};
  }

  /** More ranges than a bound, in a set without one more. */
  lemma AddOne(s: set<nat>, t: set<nat>, r: nat)
    requires {r} + s <= t && r !in s
    ensures |t| >= |s| + 1
  {
    assert |{r} + s| == |s| + 1;
    Smaller({r} + s, t);
  }

  /** Loads at the end of one range and the beginning of the next, with literals in two more. */
  function ThumbLoads(): Memory { (a: nat) => if a % 2 == 0 then 0xFF else 0x48 }

  lemma ThumbOverflow(cfg: Config, max: int, branches: bool)
    requires cfg.core == Arm7Core(max, branches, true) && cfg.thumb && max < 4
    ensures |RangesOf(FetchPlaces(cfg, START + 510, ThumbLoads(), Calm(true)))| > Limit(cfg.core)
  {
    hide PlacesFrom, ThumbDecode, MainMemory, LiteralAddr, RangesOf, BytesAt, Wrap;
    var mem, l, b := ThumbLoads(), Begin(START + 510), [0xFF, 0x48];
    IsThumbLoad(b);
    assert CodeAddress(cfg, START + 510) == START + 510 by { InMain(510); }
    LoadReads(cfg, max, branches, mem, l, 0, b, 1020, 510, 1532);
    var all := RangesOf(PlacesFrom(cfg, mem, Calm(true), l, 0));
    if Limit(cfg.core) == 1 {
      TwoOf(all, FIRST, FIRST + 2);
    } else {
      var l' := Loop(START + 512, 1, b, START + 510, START + 510, None);
      LoadReads(cfg, max, branches, mem, l', 1, b, 1020, 512, 1536);
      FourOf(all, FIRST);
    }
  }

  lemma TwoOf(s: set<nat>, a: nat, b: nat)
    requires a != b && {a, b} <= s
    ensures |s| >= 2
  {
    Smaller({a, b}, s);
  }

  lemma FourOf(s: set<nat>, a: nat)
    requires {a, a + 1, a + 2, a + 3} <= s
    ensures |s| >= 4
  {
    Smaller({a, a + 1, a + 2, a + 3}, s);
  }

  lemma IsThumbLoad(b: seq<Byte>)
    requires b == [0xFF, 0x48]
    ensures forall p :: ThumbDecode(p, b) == PLAIN.(literal := Some(1020))
    ensures BytesAt(ThumbLoads(), Place(false, MAIN + 510, 2)) ==
      BytesAt(ThumbLoads(), Place(false, MAIN + 512, 2)) == b
    ensures LiteralAddr(START + 510, true, 1020) == START + 1532 && LiteralAddr(START + 512, true, 1020) == START + 1536
  {
  }

  // ---- straight ARM code

  /** The i-th load is in the ninth range, and its literal in the i-th of the others. */
  const ARM_CODE: nat := 4540

  function LiteralOffset(i: nat): int { if i < 8 then 508 * i - 4040 else 508 * i - 4036 }

  function ArmLoad(i: nat): (b: seq<Byte>)
    requires i < 17
    ensures |b| == 4
  {
    var n: nat := if i < 8 then -LiteralOffset(i) else LiteralOffset(i);
    [n % 256, n / 256, if i < 8 then 0x1F else 0x9F, 0xE5]
  }

  function ArmLoads(): Memory {
    (a: nat) =>
      if MAIN + ARM_CODE <= a < MAIN + ARM_CODE + 68 then
        ArmLoad((a - MAIN - ARM_CODE) / 4)[(a - MAIN - ARM_CODE) % 4]
      else 0
  }

  lemma ArmLoadAt(i: nat)
    requires i < 17
    ensures BytesAt(ArmLoads(), Place(false, MAIN + ARM_CODE + 4 * i, 4)) == ArmLoad(i)
  {
    hide ArmLoad;
    var b := BytesAt(ArmLoads(), Place(false, MAIN + ARM_CODE + 4 * i, 4));
    forall j | 0 <= j < 4 ensures b[j] == ArmLoad(i)[j] {
      assert b[j] == ArmLoads()(MAIN + ARM_CODE + 4 * i + j);
      assert (4 * i + j) / 4 == i && (4 * i + j) % 4 == j;
    }
  }

  lemma ArmLoadDecoded(i: nat, before: seq<Byte>)
    requires i < 17
    ensures IsLoad(ArmDecode(before, ArmLoad(i)), LiteralOffset(i))
  {
    var b := ArmLoad(i);
    var n: nat := if i < 8 then -LiteralOffset(i) else LiteralOffset(i);
    var hi, lo: nat := n / 256, n % 256;
    assert n < 4096;
    var f := FieldsOf(b);
    assert f == Fields(0xE, if i < 8 then 0x51 else 0x59, 15, 0, hi, lo / 16, lo % 16);
    assert 256 * f.rs + 16 * f.mid + f.rm == n;
    assert ArmDest(f) == {0};
  }

  function RangeNumber(i: nat): (n: nat)
    ensures n != 8
  {
    if i < 8 then i else i + 1
  }

  function LiteralPos(i: nat): nat { 508 + 512 * i + if i < 8 then 0 else 4 }

  lemma ArmPositions(i: nat)
    requires i < 17
    ensures (ARM_CODE + 4 * i) / 512 == 8 && LiteralPos(i) / 512 == RangeNumber(i) < RangeNumber(i + 1)
    ensures START + LiteralPos(i) == LiteralAddr(START + ARM_CODE + 4 * i, false, LiteralOffset(i))
    ensures LiteralPos(i) < 0x40_0000
  {
  }

  /** The ranges of a load before others. */
  lemma MoreRanges(all: set<nat>, rest: set<nat>, code: nat, literal: nat, n: nat)
    requires all == {code, literal} + rest && code != literal && literal !in rest && (rest == {} || |rest| > n)
    ensures |all| > if rest == {} then 1 else n + 1
  {
    if rest == {} {
      TwoOf(all, code, literal);
    } else {
      AddOne(rest, all, literal);
    }
  }

  function ArmFrom(cfg: Config, l: Loop, i: nat): set<nat>
    requires l.index < Limit(cfg.core)
  {
    RangesOf(PlacesFrom(cfg, ArmLoads(), Calm(false), l, i))
  }

  lemma ArmTurn(cfg: Config, max: int, l: Loop, i: nat)
    requires cfg.core == Arm7Core(max, false, true) && !cfg.thumb && max < 18
    requires l.addr == START + ARM_CODE + 4 * i && l.index == i < Limit(cfg.core)
    ensures ArmFrom(cfg, l, i) == {FIRST + 8, FIRST + RangeNumber(i)} +
      if i + 1 < Limit(cfg.core)
      then ArmFrom(cfg, Loop(l.addr + 4, i + 1, ArmLoad(i), l.addr, l.segment, l.link), i + 1) else {}
  {
    hide PlacesFrom, ArmDecode, MainMemory, ArmLoad, LiteralAddr, LiteralOffset, RangeNumber, LiteralPos, BytesAt,
      ArmLoads;
    ArmLoadAt(i);
    ArmLoadDecoded(i, l.before);
    ArmPositions(i);
    LoadReads(cfg, max, false, ArmLoads(), l, i, ArmLoad(i), LiteralOffset(i), ARM_CODE + 4 * i, LiteralPos(i));
    NoRanges();
    hide RangesOf;
  }

  lemma NoRanges()
    ensures RangesOf([]) == {}
  {
  }

  predicate FromRange(s: set<nat>, i: nat) { forall r | r in s :: r == FIRST + 8 || r >= FIRST + RangeNumber(i) }

  lemma ArmStep(all: set<nat>, rest: set<nat>, i: nat, n: nat)
    requires i < 17 && all == {FIRST + 8, FIRST + RangeNumber(i)} + rest && FromRange(rest, i + 1)
    requires rest == {} || |rest| > n
    ensures FromRange(all, i) && |all| > if rest == {} then 1 else n + 1
  {
    assert RangeNumber(i) < RangeNumber(i + 1);
    MoreRanges(all, rest, FIRST + 8, FIRST + RangeNumber(i), n);
  }

  /** From the i-th on there is one more range than there are instructions left. */
  lemma {:induction false} ArmRanges(cfg: Config, max: int, l: Loop, i: nat)
    requires cfg.core == Arm7Core(max, false, true) && !cfg.thumb && max < 18
    requires l.addr == START + ARM_CODE + 4 * i && l.index == i < Limit(cfg.core)
    ensures |ArmFrom(cfg, l, i)| > Limit(cfg.core) - i && FromRange(ArmFrom(cfg, l, i), i)
    decreases Limit(cfg.core) - i
  {
    hide ArmFrom, FromRange, RangeNumber;
    ArmTurn(cfg, max, l, i);
    var next, lim := Loop(l.addr + 4, i + 1, ArmLoad(i), l.addr, l.segment, l.link), Limit(cfg.core);
    if i + 1 < lim {
      ArmRanges(cfg, max, next, i + 1);
      ArmStep(ArmFrom(cfg, l, i), ArmFrom(cfg, next, i + 1), i, lim - i - 1);
    } else {
      NoneLeft(i);
      ArmStep(ArmFrom(cfg, l, i), {}, i, 0);
    }
  }

  lemma NoneLeft(i: nat)
    ensures FromRange({}, i + 1)
  {
  }

  lemma ArmOverflow(cfg: Config, max: int)
    requires cfg.core == Arm7Core(max, false, true) && !cfg.thumb && max < 18
    ensures |RangesOf(FetchPlaces(cfg, START + ARM_CODE, ArmLoads(), Calm(false)))| > Limit(cfg.core)
  {
    hide PlacesFrom;
    assert CodeAddress(cfg, START + ARM_CODE) == START + ARM_CODE;
    ArmRanges(cfg, max, Begin(START + ARM_CODE), 0);
  }

  // ---- branches

  /** Group g of three ranges: a load at the end of the first, its literal in the third, and at the
      beginning of the second a branch to the load of the next group. */
  function LoadPos(g: nat, thumb: bool): nat { 1536 * g + 512 - Size(thumb) }

  function BranchPos(g: nat): nat { 1536 * g + 512 }

  function Load(thumb: bool): (b: seq<Byte>)
    ensures |b| == Size(thumb)
  {
    if thumb then [0xFF, 0x48] else [0, 2, 0x9F, 0xE5]
  }

  function Branch(thumb: bool): (b: seq<Byte>)
    ensures |b| == Size(thumb)
  {
    if thumb then [0xFD, 0xE2] else [0x7D, 1, 0, 0xEA]
  }

  function LoadOffset(thumb: bool): int { if thumb then 1020 else 512 }

  function Leaps(thumb: bool): Memory {
    (a: nat) =>
      var o := if a < MAIN then 0 else (a - MAIN) % 1536;
      if 512 - Size(thumb) <= o < 512 then Load(thumb)[o - 512 + Size(thumb)]
      else if 512 <= o < 512 + Size(thumb) then Branch(thumb)[o - 512]
      else 0
  }

  lemma LeapsAt(g: nat, thumb: bool)
    ensures BytesAt(Leaps(thumb), Place(false, MAIN + LoadPos(g, thumb), Size(thumb))) == Load(thumb)
    ensures BytesAt(Leaps(thumb), Place(false, MAIN + BranchPos(g), Size(thumb))) == Branch(thumb)
  {
    hide Load, Branch, Leaps;
    forall j: nat | j < Size(thumb)
      ensures Leaps(thumb)(MAIN + LoadPos(g, thumb) + j) == Load(thumb)[j]
      ensures Leaps(thumb)(MAIN + BranchPos(g) + j) == Branch(thumb)[j]
    {
      LeapByte(g, 512 - Size(thumb) + j, thumb);
      LeapByte(g, 512 + j, thumb);
    }
  }

  lemma LeapByte(g: nat, o: nat, thumb: bool)
    requires 512 - Size(thumb) <= o < 512 + Size(thumb)
    ensures Leaps(thumb)(MAIN + 1536 * g + o) ==
      if o < 512 then Load(thumb)[o - 512 + Size(thumb)] else Branch(thumb)[o - 512]
  {
    hide Load, Branch;
    assert (1536 * g + o) % 1536 == o;
  }

  lemma LeapDecoded(thumb: bool, before: seq<Byte>)
    ensures IsLoad(Decode(thumb, before, Load(thumb)), LoadOffset(thumb))
    ensures Decode(thumb, before, Branch(thumb)) == JUMP.(target := Fixed(1536 - Size(thumb), false))
  {
    if !thumb {
      assert FieldsOf(Load(false)) == Fields(0xE, 0x59, 15, 0, 2, 0, 0);
      assert ArmDest(FieldsOf(Load(false))) == {0};
      assert FieldsOf(Branch(false)) == Fields(0xE, 0xA0, 0, 0, 1, 7, 13);
    }
  }

  lemma LeapPositions(g: nat, thumb: bool)
    ensures LoadPos(g, thumb) / 512 == 3 * g && BranchPos(g) / 512 == 3 * g + 1
    ensures LiteralAddr(START + LoadPos(g, thumb), thumb, LoadOffset(thumb)) ==
      START + 1536 * g + if thumb then 1532 else 1028
    ensures (1536 * g + if thumb then 1532 else 1028) / 512 == 3 * g + 2
  {
    assert 1536 * g == 512 * (3 * g);
  }

  lemma LeapTurn(cfg: Config, max: int, l: Loop, g: nat)
    requires cfg.core == Arm7Core(max, true, true) && l.addr == START + BranchPos(g) && g < 32
    ensures TakeTurn(cfg, l, Branch(cfg.thumb), Outcome(false, false)) ==
      var next := START + LoadPos(g + 1, cfg.thumb);
      if l.index + 1 < Limit(cfg.core) then
        Turn(None, Loop(next, l.index + 1, Branch(cfg.thumb), l.addr, next, l.link), false)
      else
        Turn(None, Loop(l.addr + Align(cfg), l.index + 1, Branch(cfg.thumb), l.addr, l.segment, l.link), true)
  {
    hide Decode, Branch;
    LeapDecoded(cfg.thumb, l.before);
  }

  function LeapsFrom(cfg: Config, l: Loop, k: nat): set<nat>
    requires l.index < Limit(cfg.core)
  {
    RangesOf(PlacesFrom(cfg, Leaps(cfg.thumb), Calm(cfg.thumb), l, k))
  }

  lemma BranchReads(cfg: Config, max: int, l: Loop, k: nat, g: nat)
    requires cfg.core == Arm7Core(max, true, true) && l.addr == START + BranchPos(g) && g < 32
    requires l.index < Limit(cfg.core)
    ensures var next := START + LoadPos(g + 1, cfg.thumb);
      LeapsFrom(cfg, l, k) == {FIRST + 3 * g + 1} +
        if l.index + 1 < Limit(cfg.core)
        then LeapsFrom(cfg, Loop(next, l.index + 1, Branch(cfg.thumb), l.addr, next, l.link), k + 1) else {}
  {
    hide TakeTurn, PlacesFrom, MainMemory, Wrap, RangeOf, BytesAt, Branch, Leaps, RangesOf;
    InMain(BranchPos(g));
    LeapsAt(g, cfg.thumb);
    LeapPositions(g, cfg.thumb);
    LeapTurn(cfg, max, l, g);
    OneTurn(cfg, Leaps(cfg.thumb), Calm(cfg.thumb), l, k);
    NoRanges();
  }

  lemma LeapLoad(cfg: Config, max: int, l: Loop, k: nat, g: nat)
    requires cfg.core == Arm7Core(max, true, true) && l.addr == START + LoadPos(g, cfg.thumb) && g < 32
    requires l.index < Limit(cfg.core)
    ensures LeapsFrom(cfg, l, k) == {FIRST + 3 * g, FIRST + 3 * g + 2} +
      if l.index + 1 < Limit(cfg.core)
      then LeapsFrom(cfg, Loop(START + BranchPos(g), l.index + 1, Load(cfg.thumb), l.addr, l.segment, l.link), k + 1)
      else {}
  {
    hide Decode, PlacesFrom, MainMemory, BytesAt, Load, Leaps, RangesOf, LiteralAddr, LoadOffset;
    LeapsAt(g, cfg.thumb);
    LeapPositions(g, cfg.thumb);
    LeapDecoded(cfg.thumb, l.before);
    LoadReads(cfg, max, true, Leaps(cfg.thumb), l, k, Load(cfg.thumb), LoadOffset(cfg.thumb), LoadPos(g, cfg.thumb),
              1536 * g + if cfg.thumb then 1532 else 1028);
    NoRanges();
  }

  /** Ranges from group g on. */
  predicate FromGroup(s: set<nat>, g: nat) { forall r | r in s :: r >= FIRST + 3 * g }

  lemma GroupStep(all: set<nat>, middle: set<nat>, rest: set<nat>, g: nat, n: nat)
    requires all == {FIRST + 3 * g, FIRST + 3 * g + 2} + middle
    requires middle == {FIRST + 3 * g + 1} + rest && FromGroup(rest, g + 1)
    requires rest == {} || |rest| > n
    ensures FromGroup(all, g) && |all| > if rest == {} then 2 else n + 2
  {
    ThreeMore(all, rest, FIRST + 3 * g, FIRST + 3 * g + 1, FIRST + 3 * g + 2);
  }

  lemma ThreeMore(all: set<nat>, rest: set<nat>, a: nat, b: nat, c: nat)
    requires all == {a, b, c} + rest && a != b && b != c && a != c && a !in rest && b !in rest && c !in rest
    ensures |all| >= |rest| + 3
  {
    AddOne(rest, {b} + rest, b);
    AddOne({b} + rest, {b, c} + rest, c);
    AddOne({b, c} + rest, all, a);
  }

  /** Every load and every branch needs a range of its own, and the first load one more. */
  lemma {:induction false} LeapRanges(cfg: Config, max: int, l: Loop, g: nat)
    requires cfg.core == Arm7Core(max, true, true) && l.addr == START + LoadPos(g, cfg.thumb)
    requires l.index == 2 * g < Limit(cfg.core)
    ensures |LeapsFrom(cfg, l, 2 * g)| > Limit(cfg.core) - 2 * g && FromGroup(LeapsFrom(cfg, l, 2 * g), g)
    decreases Limit(cfg.core) - l.index
  {
    hide LeapsFrom, FromGroup, LoadPos;
    var lim, k := Limit(cfg.core), 2 * g;
    LeapLoad(cfg, max, l, k, g);
    NothingLeft(g);
    if k + 1 < lim {
      var l' := Loop(START + BranchPos(g), k + 1, Load(cfg.thumb), l.addr, l.segment, l.link);
      BranchReads(cfg, max, l', k + 1, g);
      if k + 2 < lim {
        var pos := START + LoadPos(g + 1, cfg.thumb);
        var l'' := Loop(pos, k + 2, Branch(cfg.thumb), l'.addr, pos, l.link);
        LeapRanges(cfg, max, l'', g + 1);
        GroupStep(LeapsFrom(cfg, l, k), LeapsFrom(cfg, l', k + 1), LeapsFrom(cfg, l'', k + 2), g, lim - k - 2);
      } else {
        GroupStep(LeapsFrom(cfg, l, k), LeapsFrom(cfg, l', k + 1), {}, g, 0);
      }
    } else {
      TwoOf(LeapsFrom(cfg, l, k), FIRST + 3 * g, FIRST + 3 * g + 2);
      LastGroup(LeapsFrom(cfg, l, k), g);
    }
  }

  lemma NothingLeft(g: nat)
    ensures FromGroup({}, g + 1)
  {
  }

  lemma LastGroup(s: set<nat>, g: nat)
    requires s == {FIRST + 3 * g, FIRST + 3 * g + 2}
    ensures FromGroup(s, g)
  {
  }

  lemma LeapOverflow(cfg: Config, max: int)
    requires cfg.core == Arm7Core(max, true, true)
    ensures |RangesOf(FetchPlaces(cfg, START + LoadPos(0, cfg.thumb), Leaps(cfg.thumb),
      Calm(cfg.thumb)))| > Limit(cfg.core)
  {
    hide PlacesFrom;
    var a := START + LoadPos(0, cfg.thumb);
    assert CodeAddress(cfg, a) == a;
    LeapRanges(cfg, max, Begin(a), 0);
  }

  // ---- the settings with which the tables are large enough

  /** No compilation in this state needs more entries than there are. */
  ghost predicate AlwaysFits(core: Core, thumb: bool) {
    forall addr, mem: Memory, cpu: Cpu | cpu.thumb == thumb ::
      |Cover(Fetched(FrontEndOf(core), addr, mem, cpu)).ranges| <= Limit(core)
  }

  lemma DoesNotFit(core: Core, thumb: bool, addr: nat, mem: Memory)
    requires |RangesOf(FetchPlaces(Config(core, thumb), addr, mem, Calm(thumb)))| > Limit(core)
    ensures !AlwaysFits(core, thumb)
  {
    hide FetchPlaces, Cover;
    EntriesOf(FetchPlaces(Config(core, thumb), addr, mem, Calm(thumb)), mem);
    assert |Cover(Fetched(FrontEndOf(core), addr, mem, Calm(thumb))).ranges| > Limit(core);
  }

  /** The tables of ranges and masks, which JIT_MaxBlockSize dimensions, are large enough for every
      block if and only if literals are not optimised, or branches are not and a block may have
      four Thumb instructions, respectively eighteen ARM instructions. */
  lemma TablesFitExactly(max: int, branches: bool, literals: bool, thumb: bool)
    ensures AlwaysFits(Arm7Core(max, branches, literals), thumb) <==>
      !literals || (!branches && max >= if thumb then 4 else 18)
  {
    hide AlwaysFits, FetchPlaces, Decode, MainMemory;
    var core := Arm7Core(max, branches, literals);
    var cfg := Config(core, thumb);
    if literals && branches {
      LeapOverflow(cfg, max);
      DoesNotFit(core, thumb, START + LoadPos(0, thumb), Leaps(thumb));
    } else if literals && thumb && max < 4 {
      ThumbOverflow(cfg, max, false);
      DoesNotFit(core, true, START + 510, ThumbLoads());
    } else if literals && !thumb && max < 18 {
      ArmOverflow(cfg, max);
      DoesNotFit(core, false, START + ARM_CODE, ArmLoads());
    } else {
      Fits(max, branches, literals, thumb);
    }
  }

  lemma Fits(max: int, branches: bool, literals: bool, thumb: bool)
    requires !literals || (!branches && max >= if thumb then 4 else 18)
    ensures AlwaysFits(Arm7Core(max, branches, literals), thumb)
  {
    hide FetchPlaces, Decode, MainMemory, Cover;
    var core := Arm7Core(max, branches, literals);
    var cfg := Config(core, thumb);
    forall addr, mem: Memory, cpu: Cpu | cpu.thumb == thumb
      ensures |Cover(Fetched(FrontEndOf(core), addr, mem, cpu)).ranges| <= Limit(core)
    {
      EntriesOf(FetchPlaces(cfg, addr, mem, cpu), mem);
      if literals {
        StraightBound(cfg, max, true, addr, mem, cpu);
      } else {
        WithoutLiterals(cfg, max, branches, addr, mem, cpu);
      }
    }
  }
}
