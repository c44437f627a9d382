/** Dead-flag elimination: which of the flags an instruction may write have to be computed.
    The front end floods every read of a flag backwards over the instructions fetched so
    far; here the result is proved to be exactly classic liveness, and computing only the
    flagged flags is proved to preserve the meaning of the block. */
module FlagLiveness {

  import opened InstrInfo

  const ALL: set<Flag> := {N, Z, C, V}

  /** The flag part of an instruction's Info. `barrier` marks the instructions before which
      all four flags are flooded: interpreter fallbacks and followed conditional branches. */
  datatype Info = Info(readFlags: set<Flag>, writeFlags: set<Flag>, maybeWriteFlags: set<Flag>, barrier: bool)

  lemma AllFlags(f: Flag)
    ensures f in ALL
  {
    match f {
      case N => case Z => case C => case V =>
    }
  }

  function Needs(i: Info): set<Flag> { if i.barrier then ALL else i.readFlags }

  // ---- the flooding done while the block is fetched

  /** FloodFillSetFlags on values: the flags still wanted travel back from `start`, marking
      every instruction that may write them and stopping at one that surely does. */
  function Flooded(infos: seq<Info>, setFlags: seq<set<Flag>>, start: int, flags: set<Flag>): (r: seq<set<Flag>>)
    requires |setFlags| <= |infos| && -1 <= start < |setFlags|
    ensures |r| == |setFlags|
    decreases start + 1
  {
    if start < 0 then setFlags
    else
      var hit := infos[start].maybeWriteFlags * flags + infos[start].writeFlags * flags;
      Flooded(infos, setFlags[start := setFlags[start] + hit], start - 1, flags - infos[start].writeFlags)
  }

  method FloodFillSetFlags(infos: seq<Info>, setFlags: array<set<Flag>>, start: int, flags: set<Flag>)
    requires setFlags.Length <= |infos| && -1 <= start < setFlags.Length
    modifies setFlags
    ensures setFlags[..] == Flooded(infos, old(setFlags[..]), start, flags)
  {
    var wanted := flags;
    var j := start;
    while j >= 0
      invariant -1 <= j <= start
      invariant Flooded(infos, setFlags[..], j, wanted) == Flooded(infos, old(setFlags[..]), start, flags)
    {
      var match_ := infos[j].writeFlags * wanted;
      var matchMaybe := infos[j].maybeWriteFlags * wanted;
      ghost var before := setFlags[..];
      setFlags[j] := setFlags[j] + matchMaybe;
      setFlags[j] := setFlags[j] + match_;
      assert before[j] + matchMaybe + match_ == before[j] + (matchMaybe + match_);
      assert setFlags[..] == before[j := before[j] + (matchMaybe + match_)];
      assert wanted - infos[j].writeFlags == wanted - match_;
      wanted := wanted - match_;
      j := j - 1;
      if wanted == {} {
        FloodNothing(infos, setFlags[..], j);
        return;
      }
    }
  }

  lemma {:induction false} FloodNothing(infos: seq<Info>, setFlags: seq<set<Flag>>, start: int)
    requires |setFlags| <= |infos| && -1 <= start < |setFlags|
    ensures Flooded(infos, setFlags, start, {}) == setFlags
    decreases start + 1
  {
    if start >= 0 {
      assert infos[start].maybeWriteFlags * {} + infos[start].writeFlags * {} == {};
      assert setFlags[start] + {} == setFlags[start];
      assert setFlags[start := setFlags[start] + {}] == setFlags;
      assert {} - infos[start].writeFlags == {};
      FloodNothing(infos, setFlags, start - 1);
    }
  }

  /** SetFlags after n instructions have been fetched. */
  function FetchedFlags(infos: seq<Info>, n: nat): (r: seq<set<Flag>>)
    requires n <= |infos|
    ensures |r| == |infos|
  {
    if n == 0 then seq(|infos|, _ => {})
    else Flooded(infos, FetchedFlags(infos, n - 1), n - 2, Needs(infos[n - 1]))
  }

  /** SetFlags as handed to the code generator. */
  function SetFlags(infos: seq<Info>): (r: seq<set<Flag>>)
    ensures |r| == |infos|
  {
    Flooded(infos, FetchedFlags(infos, |infos|), |infos| - 1, ALL)
  }

  /** The fetch loop of CompileBlock, as far as flags are concerned. */
  method ComputeSetFlags(infos: seq<Info>) returns (setFlags: array<set<Flag>>)
    ensures fresh(setFlags) && setFlags[..] == SetFlags(infos)
  {
    setFlags := new set<Flag>[|infos|](_ => {});
    assert setFlags[..] == FetchedFlags(infos, 0);
    for i := 0 to |infos|
      invariant setFlags.Length == |infos| && fresh(setFlags)
      invariant setFlags[..] == FetchedFlags(infos, i)
    {
      if infos[i].readFlags != {} || infos[i].barrier {
        FloodFillSetFlags(infos, setFlags, i - 1, if !infos[i].barrier then infos[i].readFlags else ALL);
      } else {
        FloodNothing(infos, setFlags[..], i - 1);
      }
    }
    FloodFillSetFlags(infos, setFlags, |infos| - 1, ALL);
  }

  // ---- liveness

  /** Flags whose value before instruction i matters: all four matter at the end. */
  function Live(infos: seq<Info>, i: nat): set<Flag>
    requires i <= |infos|
    decreases |infos| - i
  {
    if i == |infos| then ALL
    else (Live(infos, i + 1) - infos[i].writeFlags) + Needs(infos[i])
  }

  /** f, wanted just before instruction `from`, is still wanted after instruction i. */
  predicate Survives(infos: seq<Info>, i: nat, from: nat, f: Flag)
    requires i < from <= |infos|
  {
    forall k | i < k < from :: f !in infos[k].writeFlags
  }

  lemma {:induction false} FloodAt(infos: seq<Info>, setFlags: seq<set<Flag>>, start: int, flags: set<Flag>,
                                   i: nat, f: Flag)
    requires |setFlags| <= |infos| && -1 <= start < |setFlags| && i < |setFlags|
    ensures f in Flooded(infos, setFlags, start, flags)[i] <==>
      f in setFlags[i] ||
      (i <= start && f in flags && Survives(infos, i, start + 1, f) &&
        f in infos[i].writeFlags + infos[i].maybeWriteFlags)
    decreases start + 1
  {
    if start >= 0 {
      var hit := infos[start].maybeWriteFlags * flags + infos[start].writeFlags * flags;
      var setFlags' := setFlags[start := setFlags[start] + hit];
      FloodAt(infos, setFlags', start - 1, flags - infos[start].writeFlags, i, f);
      if i < start {
        assert Survives(infos, i, start + 1, f) <==> Survives(infos, i, start, f) && f !in infos[start].writeFlags;
      }
    }
  }

  /** Some later reader, before instruction n, wants f as instruction i leaves it. */
  predicate WantedBy(infos: seq<Info>, i: nat, n: nat, f: Flag)
    requires i < n <= |infos|
  {
    exists k | i < k < n :: f in Needs(infos[k]) && Survives(infos, i, k, f)
  }

  lemma {:induction false} FetchedAt(infos: seq<Info>, n: nat, i: nat, f: Flag)
    requires n <= |infos| && i < |infos|
    ensures f in FetchedFlags(infos, n)[i] <==>
      i < n && f in infos[i].writeFlags + infos[i].maybeWriteFlags && WantedBy(infos, i, n, f)
  {
    if n > 0 {
      FetchedAt(infos, n - 1, i, f);
      FloodAt(infos, FetchedFlags(infos, n - 1), n - 2, Needs(infos[n - 1]), i, f);
      if i < n - 1 {
        assert WantedBy(infos, i, n, f) <==>
          WantedBy(infos, i, n - 1, f) || (f in Needs(infos[n - 1]) && Survives(infos, i, n - 1, f));
      }
    }
  }

  lemma {:induction false} LiveAt(infos: seq<Info>, i: nat, f: Flag)
    requires i < |infos|
    ensures f in Live(infos, i + 1) <==> WantedBy(infos, i, |infos|, f) || Survives(infos, i, |infos|, f)
    decreases |infos| - i
  {
    if i + 1 < |infos| {
      LiveAt(infos, i + 1, f);
      var n := |infos|;
      assert Survives(infos, i, i + 1, f);
      if f !in infos[i + 1].writeFlags {
        assert forall k | i + 1 < k <= n :: Survives(infos, i, k, f) <==> Survives(infos, i + 1, k, f);
      } else {
        assert forall k | i + 1 < k <= n :: !Survives(infos, i, k, f);
      }
    } else {
      AllFlags(f);
    }
  }

  /** The forward flooding computes liveness exactly: an instruction computes a flag if and
      only if it may write it and the value matters afterwards. */
  lemma SetFlagsIsLiveness(infos: seq<Info>, i: nat)
    requires i < |infos|
    ensures SetFlags(infos)[i] == (infos[i].writeFlags + infos[i].maybeWriteFlags) * Live(infos, i + 1)
  {
    forall f ensures f in SetFlags(infos)[i] <==>
      f in (infos[i].writeFlags + infos[i].maybeWriteFlags) * Live(infos, i + 1)
    {
      AllFlags(f);
      FloodAt(infos, FetchedFlags(infos, |infos|), |infos| - 1, ALL, i, f);
      FetchedAt(infos, |infos|, i, f);
      LiveAt(infos, i, f);
    }
  }

  // ---- what the generated code does

  /** CPU state besides the flags. */
  datatype Rest = Rest(regs: seq<int>, memory: map<int, int>)

  /** The flags that are set. */
  type Flags = set<Flag>

  datatype Effect = Effect(rest: Rest, written: map<Flag, bool>)

  /** An instruction with its meaning. A followed conditional branch leaves the block when
      `leaves` holds; an instruction that is not compiled is interpreted. */
  datatype Instr = Instr(info: Info, compiled: bool, exec: (Rest, Flags) -> Effect, leaves: (Rest, Flags) -> bool)

  ghost predicate RespectsInfo(i: Instr) {
    && (forall r, f: Flags, g: Flags :: f * Needs(i.info) == g * Needs(i.info) ==> i.exec(r, f) == i.exec(r, g))
    && (forall r, f: Flags ::
      i.info.writeFlags <= i.exec(r, f).written.Keys <= i.info.writeFlags + i.info.maybeWriteFlags)
    && (!i.info.barrier ==> i.compiled && forall r, f: Flags :: !i.leaves(r, f))
  }

  function InfosOf(instrs: seq<Instr>): (infos: seq<Info>)
    ensures |infos| == |instrs| && forall i | 0 <= i < |instrs| :: infos[i] == instrs[i].info
  {
    seq(|instrs|, i requires 0 <= i < |instrs| => instrs[i].info)
  }

  /** Flag f after the instruction, computed as the instruction defines it. */
  predicate FlagAfter(e: Effect, flags: Flags, f: Flag) {
    if f in e.written then e.written[f] else f in flags
  }

  function ExactFlags(e: Effect, flags: Flags): Flags {
    set f | f in ALL && FlagAfter(e, flags, f)
  }

  /** Generated code computes the flags in `wanted`; the other flags the instruction may
      write end up with arbitrary values. */
  function OptimisedFlags(i: Instr, e: Effect, flags: Flags, wanted: set<Flag>, junk: Flags): Flags {
    set f | f in ALL &&
      if f in wanted || !i.compiled || f !in i.info.writeFlags + i.info.maybeWriteFlags
      then FlagAfter(e, flags, f) else f in junk
  }

  /** Where a block is left, and the state at that point. */
  datatype Outcome = Outcome(at: nat, rest: Rest, flags: Flags)

  function RunExact(instrs: seq<Instr>, i: nat, rest: Rest, flags: Flags): Outcome
    requires i <= |instrs|
    decreases |instrs| - i
  {
    if i == |instrs| || instrs[i].leaves(rest, flags) then Outcome(i, rest, flags)
    else
      var e := instrs[i].exec(rest, flags);
      RunExact(instrs, i + 1, e.rest, ExactFlags(e, flags))
  }

  function RunOptimised(instrs: seq<Instr>, setFlags: seq<set<Flag>>, junk: seq<Flags>, i: nat, rest: Rest,
                        flags: Flags): Outcome
    requires i <= |instrs| == |setFlags| == |junk|
    decreases |instrs| - i
  {
    if i == |instrs| || instrs[i].leaves(rest, flags) then Outcome(i, rest, flags)
    else
      var e := instrs[i].exec(rest, flags);
      RunOptimised(instrs, setFlags, junk, i + 1, e.rest, OptimisedFlags(instrs[i], e, flags, setFlags[i], junk[i]))
  }

  ghost predicate Agree(f: Flags, g: Flags, on: set<Flag>) {
    forall x | x in on :: x in f <==> x in g
  }

  lemma {:induction false} RunsAgree(instrs: seq<Instr>, setFlags: seq<set<Flag>>, junk: seq<Flags>, i: nat, rest: Rest,
                                     flags: Flags, flags': Flags)
    requires i <= |instrs| == |setFlags| == |junk|
    requires forall k | 0 <= k < |instrs| :: RespectsInfo(instrs[k])
    requires forall k | 0 <= k < |instrs| ::
      (instrs[k].info.writeFlags + instrs[k].info.maybeWriteFlags) * Live(InfosOf(instrs), k + 1) <= setFlags[k]
    requires Agree(flags, flags', Live(InfosOf(instrs), i))
    ensures RunOptimised(instrs, setFlags, junk, i, rest, flags') == RunExact(instrs, i, rest, flags)
    decreases |instrs| - i
  {
    var infos := InfosOf(instrs);
    if i == |instrs| || instrs[i].info.barrier {
      assert flags == flags' by {
        forall f ensures f in flags <==> f in flags' { AllFlags(f); }
      }
    }
    if i < |instrs| {
      var instr := instrs[i];
      assert RespectsInfo(instr);
      assert flags * Needs(instr.info) == flags' * Needs(instr.info);
      var e := instr.exec(rest, flags);
      assert instr.exec(rest, flags') == e;
      assert instr.leaves(rest, flags) == instr.leaves(rest, flags');
      if !instr.leaves(rest, flags) {
        var g, g' := ExactFlags(e, flags), OptimisedFlags(instr, e, flags', setFlags[i], junk[i]);
        forall f | f in Live(infos, i + 1) ensures f in g <==> f in g' {
          AllFlags(f);
        }
        RunsAgree(instrs, setFlags, junk, i + 1, e.rest, g, g');
      }
    }
  }

  /** Dead-flag elimination preserves meaning: whatever values the flags left uncomputed
      get, the block is left at the same instruction, in the same state, with all four flags
      right. */
  lemma EliminationPreservesMeaning(instrs: seq<Instr>, junk: seq<Flags>, rest: Rest, flags: Flags)
    requires |junk| == |instrs|
    requires forall k | 0 <= k < |instrs| :: RespectsInfo(instrs[k])
    ensures RunOptimised(instrs, SetFlags(InfosOf(instrs)), junk, 0, rest, flags) == RunExact(instrs, 0, rest, flags)
  {
    var infos := InfosOf(instrs);
    forall k | 0 <= k < |instrs|
      ensures (infos[k].writeFlags + infos[k].maybeWriteFlags) * Live(infos, k + 1) <= SetFlags(infos)[k]
    {
      SetFlagsIsLiveness(infos, k);
    }
    RunsAgree(instrs, SetFlags(infos), junk, 0, rest, flags, flags);
  }

  // ---- no flag that is computed could be left out

  function Bit(f: Flag, s: set<Flag>): int { if f in s then 1 else 0 }

  function Recorded(regs: seq<int>, s: set<Flag>): seq<int> {
    regs + [Bit(N, s), Bit(Z, s), Bit(C, s), Bit(V, s)]
  }

  lemma RecordedSize(regs: seq<int>, s: set<Flag>)
    ensures |Recorded(regs, s)| == |regs| + 4
  {
  }

  function RecorderWrites(info: Info, all: bool): set<Flag> {
    if all then info.writeFlags + info.maybeWriteFlags else info.writeFlags
  }

  lemma RecordsDiffer(regs: seq<int>, regs': seq<int>, s: set<Flag>, s': set<Flag>, x: Flag) returns (p: nat)
    requires |regs| == |regs'| && x in s && x !in s'
    ensures p < |Recorded(regs, s)| == |Recorded(regs', s')| && Recorded(regs, s)[p] != Recorded(regs', s')[p]
  {
    p := |regs| + match x case N => 0 case Z => 1 case C => 2 case V => 3;
  }

  /** An instruction that records the flags it needs and sets every flag it surely writes,
      or every flag it may write when `all` holds. */
  function Recorder(info: Info, all: bool): Instr {
    Instr(info, true,
          (r: Rest, f: Flags) => Effect(
              Rest(Recorded(r.regs, f * Needs(info)), r.memory),
              map g | g in RecorderWrites(info, all) :: true),
          (r: Rest, f: Flags) => false)
  }

  function Recorders(infos: seq<Info>, i: nat): (instrs: seq<Instr>)
    ensures |instrs| == |infos|
  {
    seq(|infos|, k requires 0 <= k < |infos| => Recorder(infos[k], k == i))
  }

  lemma {:induction false} RecordsGrow(infos: seq<Info>, setFlags: seq<set<Flag>>, junk: seq<Flags>, i: nat,
                                       j: nat, r: Rest, f: Flags)
    requires j <= |infos| == |setFlags| == |junk|
    ensures r.regs <= RunExact(Recorders(infos, i), j, r, f).rest.regs
    ensures r.regs <= RunOptimised(Recorders(infos, i), setFlags, junk, j, r, f).rest.regs
    decreases |infos| - j
  {
    if j < |infos| {
      var instr := Recorders(infos, i)[j];
      var e := instr.exec(r, f);
      RecordsGrow(infos, setFlags, junk, i, j + 1, e.rest, ExactFlags(e, f));
      RecordsGrow(infos, setFlags, junk, i, j + 1, e.rest, OptimisedFlags(instr, e, f, setFlags[j], junk[j]));
    }
  }

  lemma {:induction false} LiveDifferenceShows(infos: seq<Info>, setFlags: seq<set<Flag>>, i: nat, j: nat, r: Rest,
                                               r': Rest, f: Flags, f': Flags, x: Flag)
    requires i < j <= |infos| == |setFlags|
    requires |r.regs| == |r'.regs| && x in f && x !in f' && x in Live(infos, j)
    ensures var none := seq(|infos|, _ => {});
      RunExact(Recorders(infos, i), j, r, f) != RunOptimised(Recorders(infos, i), setFlags, none, j, r', f')
    decreases |infos| - j
  {
    hide Recorded, Flooded, FetchedFlags, SetFlags;
    if j < |infos| {
      var none: seq<Flags> := seq(|infos|, _ => {});
      var instr, info := Recorders(infos, i)[j], infos[j];
      var e, e' := instr.exec(r, f), instr.exec(r', f');
      var g, g' := ExactFlags(e, f), OptimisedFlags(instr, e', f', setFlags[j], none[j]);
      if x in Needs(info) {
        RecordsGrow(infos, setFlags, none, i, j + 1, e.rest, g);
        RecordsGrow(infos, setFlags, none, i, j + 1, e'.rest, g');
        var p := RecordsDiffer(r.regs, r'.regs, f * Needs(info), f' * Needs(info), x);
      } else {
        AllFlags(x);
        RecordedSize(r.regs, f * Needs(info));
        RecordedSize(r'.regs, f' * Needs(info));
        LiveDifferenceShows(infos, setFlags, i, j + 1, e.rest, e'.rest, g, g', x);
      }
    }
  }

  lemma {:induction false} DropShows(infos: seq<Info>, setFlags: seq<set<Flag>>, i: nat, j: nat, r: Rest, r': Rest,
                                     f: Flags, f': Flags, x: Flag)
    requires j <= i < |infos| == |setFlags| && |r.regs| == |r'.regs|
    requires x in (infos[i].writeFlags + infos[i].maybeWriteFlags) * Live(infos, i + 1) && x !in setFlags[i]
    ensures var none := seq(|infos|, _ => {});
      RunExact(Recorders(infos, i), j, r, f) != RunOptimised(Recorders(infos, i), setFlags, none, j, r', f')
    decreases |infos| - j
  {
    var none: seq<Flags> := seq(|infos|, _ => {});
    var instr := Recorders(infos, i)[j];
    var e, e' := instr.exec(r, f), instr.exec(r', f');
    var g, g' := ExactFlags(e, f), OptimisedFlags(instr, e', f', setFlags[j], none[j]);
    if j == i {
      AllFlags(x);
      LiveDifferenceShows(infos, setFlags, i, i + 1, e.rest, e'.rest, g, g', x);
    } else {
      DropShows(infos, setFlags, i, j + 1, e.rest, e'.rest, g, g', x);
    }
  }

  ghost predicate Broken(infos: seq<Info>, setFlags: seq<set<Flag>>, instrs: seq<Instr>, junk: seq<Flags>,
                         rest: Rest, flags: Flags)
    requires |setFlags| == |infos|
  {
    && |junk| == |instrs| == |infos| && InfosOf(instrs) == infos
    && (forall k | 0 <= k < |instrs| :: RespectsInfo(instrs[k]))
    && RunOptimised(instrs, setFlags, junk, 0, rest, flags) != RunExact(instrs, 0, rest, flags)
  }

  /** The converse: a choice of flags that misses one which the flooding marks breaks some
      block with these Info sets. */
  lemma EveryMarkedFlagIsNeeded(infos: seq<Info>, setFlags: seq<set<Flag>>, i: nat, x: Flag)
    requires i < |infos| == |setFlags|
    requires x in SetFlags(infos)[i] && x !in setFlags[i]
    ensures exists instrs, junk, rest, flags :: Broken(infos, setFlags, instrs, junk, rest, flags)
  {
    SetFlagsIsLiveness(infos, i);
    var instrs, none: seq<Flags> := Recorders(infos, i), seq(|infos|, _ => {});
    var start := Rest([], map[]);
    assert InfosOf(instrs) == infos;
    forall k | 0 <= k < |instrs| ensures RespectsInfo(instrs[k]) {
    }
    DropShows(infos, setFlags, i, 0, start, start, {}, {}, x);
    assert Broken(infos, setFlags, instrs, none, start, {});
  }
}
