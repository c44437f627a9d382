/** The idle-loop analysis: a short backward loop whose second iteration would do exactly
    what the first one did may be skipped until something outside the CPU changes memory. */
module IdleLoop {

  import opened InstrInfo

  /** A place in the CPU whose value one iteration can hand to the next. */
  datatype Loc = Reg(n: nat) | FlagOf(f: Flag)

  /** Values of places; memory does not change during an idle loop and is left out. */
  type State = map<Loc, int>

  /** An instruction with its Info. Given the places it reads, `effect` is what it writes;
      the last instruction of a loop branches back when `taken` holds. */
  datatype Instr = Instr(writesMemory: bool, accessesSystem: bool, conditional: bool,
                         src: set<nat>, dst: set<nat>,
                         readFlags: set<Flag>, writeFlags: set<Flag>, maybeWriteFlags: set<Flag>,
                         effect: State -> State, taken: State -> bool)

  predicate Branches(i: Instr) { PC in i.dst }

  // ---- the analysis

  /** The tests on one instruction that do not look at registers. */
  predicate Admissible(thumb: bool, i: Instr, last: bool) {
    && !i.writesMemory
    && (!thumb ==> !i.accessesSystem)
    && (!last ==> !Branches(i))
  }

  /** From instruction i on, no place is written that an instruction has read before it was
      written in this iteration. */
  predicate Accepts(thumb: bool, instrs: seq<Instr>, i: nat, written: set<nat>, disallowed: set<nat>)
    requires i <= |instrs|
    decreases |instrs| - i
  {
    i == |instrs| ||
    (Admissible(thumb, instrs[i], i == |instrs| - 1) &&
     var src, dst := instrs[i].src - {PC}, instrs[i].dst - {PC};
     var disallowed' := disallowed + (src - written);
     dst * disallowed' == {} && Accepts(thumb, instrs, i + 1, written + dst, disallowed'))
  }

  // ---- what is accepted

  /** Instruction j reads register r, which nothing before it writes, and instruction k, not before
      j, writes it. */
  predicate CarriesReg(instrs: seq<Instr>, j: nat, k: nat, r: nat) {
    j <= k < |instrs| && ReadsFirst(instrs, j, r) && r in instrs[k].dst
  }

  predicate ReadsFirst(instrs: seq<Instr>, j: nat, r: nat)
    requires j < |instrs|
  {
    r != PC && r in instrs[j].src && forall m | 0 <= m < j :: r !in instrs[m].dst
  }

  /** What the two masks hold before instruction i. */
  ghost predicate Masks(instrs: seq<Instr>, i: nat, written: set<nat>, disallowed: set<nat>)
    requires i <= |instrs|
  {
    && (forall r :: r in written <==> r != PC && exists m :: 0 <= m < i && r in instrs[m].dst)
    && (forall r :: r in disallowed <==> exists j :: 0 <= j < i && ReadsFirst(instrs, j, r))
  }

  lemma MasksNext(instrs: seq<Instr>, i: nat, written: set<nat>, disallowed: set<nat>)
    requires i < |instrs| && Masks(instrs, i, written, disallowed)
    ensures Masks(instrs, i + 1, written + (instrs[i].dst - {PC}), disallowed + (instrs[i].src - {PC} - written))
  {
    var src := instrs[i].src - {PC} - written;
    forall r ensures r in src <==> ReadsFirst(instrs, i, r) {
    }
    forall r ensures r in disallowed + src <==> exists j :: 0 <= j < i + 1 && ReadsFirst(instrs, j, r) {
      if r in src {
        assert ReadsFirst(instrs, i, r);
      }
    }
    forall r ensures r in written + (instrs[i].dst - {PC}) <==>
      r != PC && exists m :: 0 <= m < i + 1 && r in instrs[m].dst {
      if r != PC && r in instrs[i].dst {
        assert r in instrs[i].dst;
      }
    }
  }

  lemma {:induction false} AcceptsFrom(thumb: bool, instrs: seq<Instr>, i: nat, written: set<nat>, disallowed: set<nat>)
    requires i <= |instrs| && Masks(instrs, i, written, disallowed)
    ensures Accepts(thumb, instrs, i, written, disallowed) <==>
      && (forall k | i <= k < |instrs| :: Admissible(thumb, instrs[k], k == |instrs| - 1))
      && (forall j, k, r | i <= k :: !CarriesReg(instrs, j, k, r))
    decreases |instrs| - i
  {
    hide Masks, ReadsFirst, Admissible;
    if i < |instrs| {
      var disallowed' := disallowed + (instrs[i].src - {PC} - written);
      MasksNext(instrs, i, written, disallowed);
      AcceptsFrom(thumb, instrs, i + 1, written + (instrs[i].dst - {PC}), disallowed');
      CarriedAt(instrs, i, written + (instrs[i].dst - {PC}), disallowed');
    }
  }

  lemma CarriedAt(instrs: seq<Instr>, i: nat, written: set<nat>, disallowed: set<nat>)
    requires i < |instrs| && Masks(instrs, i + 1, written, disallowed)
    ensures (instrs[i].dst - {PC}) * disallowed == {} <==> forall j, r :: !CarriesReg(instrs, j, i, r)
  {
    if j, r :| CarriesReg(instrs, j, i, r) {
      assert r in (instrs[i].dst - {PC}) * disallowed;
    }
    if r :| r in (instrs[i].dst - {PC}) * disallowed {
      var j :| 0 <= j < i + 1 && ReadsFirst(instrs, j, r);
      assert CarriesReg(instrs, j, i, r);
    }
  }

  /** The loop accepts exactly the bodies without stores, system accesses and inner branches in
      which no register is written that was read before anything in the body wrote it. */
  lemma AcceptsExactly(thumb: bool, instrs: seq<Instr>)
    ensures Accepts(thumb, instrs, 0, {}, {}) <==>
      && (forall k | 0 <= k < |instrs| :: Admissible(thumb, instrs[k], k == |instrs| - 1))
      && (forall j, k, r :: !CarriesReg(instrs, j, k, r))
  {
    AcceptsFrom(thumb, instrs, 0, {}, {});
  }

  method IsIdleLoop(thumb: bool, instrs: seq<Instr>) returns (idle: bool)
    ensures idle == Accepts(thumb, instrs, 0, {}, {})
    ensures idle <==>
      && (forall k | 0 <= k < |instrs| :: Admissible(thumb, instrs[k], k == |instrs| - 1))
      && (forall j, k, r :: !CarriesReg(instrs, j, k, r))
  {
    AcceptsExactly(thumb, instrs);
    var regsWrittenTo, regsDisallowedToWrite := {}, {};
    for i := 0 to |instrs|
      invariant Accepts(thumb, instrs, i, regsWrittenTo, regsDisallowedToWrite) == Accepts(thumb, instrs, 0, {}, {})
    {
      if instrs[i].writesMemory {
        return false;
      }
      if !thumb && instrs[i].accessesSystem {
        return false;
      }
      if i < |instrs| - 1 && Branches(instrs[i]) {
        return false;
      }
      var srcRegs, dstRegs := instrs[i].src - {PC}, instrs[i].dst - {PC};
      regsDisallowedToWrite := regsDisallowedToWrite + (srcRegs - regsWrittenTo);
      if dstRegs * regsDisallowedToWrite != {} {
        return false;
      }
      regsWrittenTo := regsWrittenTo + dstRegs;
    }
    return true;
  }

  // ---- execution

  function Regs(rs: set<nat>): (ls: set<Loc>)
    ensures forall l :: l in ls <==> l.Reg? && l.n in rs && l.n != PC
  {
    set r | r in rs && r != PC :: Reg(r)
  }

  function Flags(fs: set<Flag>): (ls: set<Loc>)
    ensures forall l :: l in ls <==> l.FlagOf? && l.f in fs
  {
    set f | f in fs :: FlagOf(f)
  }

  function Reads(i: Instr): set<Loc> { Regs(i.src) + Flags(i.readFlags) }

  /** Places surely written: none when the condition may fail. */
  function SureWrites(i: Instr): set<Loc> {
    if i.conditional then {} else Regs(i.dst) + Flags(i.writeFlags)
  }

  function Writes(i: Instr): set<Loc> { Regs(i.dst) + Flags(i.writeFlags) + Flags(i.maybeWriteFlags) }

  function Restrict(s: State, ls: set<Loc>): State { map l | l in s && l in ls :: s[l] }

  ghost predicate RespectsInfo(i: Instr) {
    forall s :: SureWrites(i) <= i.effect(s).Keys <= Writes(i)
  }

  function Step(i: Instr, s: State): State { s + i.effect(Restrict(s, Reads(i))) }

  /** The state before instruction i of an iteration that starts in s. */
  function Run(instrs: seq<Instr>, i: nat, s: State): State
    requires i <= |instrs|
  {
    if i == 0 then s else Step(instrs[i - 1], Run(instrs, i - 1, s))
  }

  function Iterate(instrs: seq<Instr>, n: nat, s: State): State {
    if n == 0 then s else Run(instrs, |instrs|, Iterate(instrs, n - 1, s))
  }

  /** Whether the iteration that starts in s ends by branching back. */
  predicate BranchTaken(instrs: seq<Instr>, s: State)
    requires instrs != []
  {
    var last := |instrs| - 1;
    instrs[last].taken(Restrict(Run(instrs, last, s), Reads(instrs[last])))
  }

  // ---- when an iteration repeats

  /** The same discipline over registers and flags, trusting only sure writes. */
  predicate Careful(instrs: seq<Instr>, i: nat, written: set<Loc>, disallowed: set<Loc>)
    requires i <= |instrs|
    decreases |instrs| - i
  {
    i == |instrs| ||
    (var disallowed' := disallowed + (Reads(instrs[i]) - written);
     Writes(instrs[i]) * disallowed' == {} && Careful(instrs, i + 1, written + SureWrites(instrs[i]), disallowed'))
  }

  /** No instruction from i on may write l. */
  predicate Untouched(instrs: seq<Instr>, i: nat, l: Loc)
    requires i <= |instrs|
  {
    forall k | i <= k < |instrs| :: l !in Writes(instrs[k])
  }

  lemma {:induction false} DisallowedUntouched(instrs: seq<Instr>, i: nat, written: set<Loc>, disallowed: set<Loc>,
                                               l: Loc)
    requires i <= |instrs| && Careful(instrs, i, written, disallowed) && l in disallowed
    ensures Untouched(instrs, i, l)
    decreases |instrs| - i
  {
    if i < |instrs| {
      var disallowed' := disallowed + (Reads(instrs[i]) - written);
      assert l in disallowed' && !(l in Writes(instrs[i]) * disallowed');
      DisallowedUntouched(instrs, i + 1, written + SureWrites(instrs[i]), disallowed', l);
    }
  }

  predicate SameAt(s: State, t: State, l: Loc) {
    (l in s <==> l in t) && (l in s ==> s[l] == t[l])
  }

  /** What instruction k writes in the iteration that starts in s. */
  function Effect(instrs: seq<Instr>, k: nat, s: State): State
    requires k < |instrs|
  {
    instrs[k].effect(Restrict(Run(instrs, k, s), Reads(instrs[k])))
  }

  /** No instruction from i on does write l in the iteration that starts in s. */
  ghost predicate Quiet(instrs: seq<Instr>, i: nat, s: State, l: Loc)
    requires i <= |instrs|
  {
    forall k | i <= k < |instrs| :: l !in Effect(instrs, k, s)
  }

  lemma {:induction false} QuietSettles(instrs: seq<Instr>, i: nat, s: State, l: Loc)
    requires i <= |instrs| && Quiet(instrs, i, s, l)
    ensures SameAt(Run(instrs, i, s), Run(instrs, |instrs|, s), l)
    decreases |instrs| - i
  {
    if i < |instrs| {
      QuietSettles(instrs, i + 1, s, l);
      assert l !in Effect(instrs, i, s);
    }
  }

  ghost predicate InStepAt(instrs: seq<Instr>, i: nat, s: State, t: State, written: set<Loc>, l: Loc)
    requires i <= |instrs|
  {
    l in written || Quiet(instrs, i, s, l) ==> SameAt(Run(instrs, i, s), Run(instrs, i, t), l)
  }

  /** Before instruction i the two iterations agree on every place that is surely written by
      then and on every place that is not written from there on. */
  ghost predicate InStep(instrs: seq<Instr>, i: nat, s: State, t: State, written: set<Loc>)
    requires i <= |instrs|
  {
    forall l :: InStepAt(instrs, i, s, t, written, l)
  }

  /** What is read without having been written is not written from there on. */
  lemma ReadBeforeWriteIsQuiet(instrs: seq<Instr>, i: nat, s: State, written: set<Loc>, disallowed: set<Loc>, l: Loc)
    requires i < |instrs| && Careful(instrs, i, written, disallowed)
    requires forall k | 0 <= k < |instrs| :: RespectsInfo(instrs[k])
    requires l in Reads(instrs[i]) && l !in written
    ensures Quiet(instrs, i, s, l)
  {
    var disallowed' := disallowed + (Reads(instrs[i]) - written);
    assert l in disallowed';
    assert l !in Writes(instrs[i]) by {
      assert l !in Writes(instrs[i]) * disallowed';
    }
    DisallowedUntouched(instrs, i + 1, written + SureWrites(instrs[i]), disallowed', l);
    forall k | i <= k < |instrs| ensures l !in Effect(instrs, k, s) {
      assert RespectsInfo(instrs[k]);
    }
  }

  lemma SameReads(instrs: seq<Instr>, i: nat, s: State, t: State, written: set<Loc>, disallowed: set<Loc>)
    requires i < |instrs| && Careful(instrs, i, written, disallowed)
    requires forall k | 0 <= k < |instrs| :: RespectsInfo(instrs[k])
    requires InStep(instrs, i, s, t, written)
    ensures Restrict(Run(instrs, i, s), Reads(instrs[i])) == Restrict(Run(instrs, i, t), Reads(instrs[i]))
  {
    var used, x, y := Reads(instrs[i]), Run(instrs, i, s), Run(instrs, i, t);
    forall l | l in used ensures SameAt(x, y, l) {
      if l !in written {
        ReadBeforeWriteIsQuiet(instrs, i, s, written, disallowed, l);
      }
      assert InStepAt(instrs, i, s, t, written, l);
    }
    RestrictSame(x, y, used);
  }

  lemma RestrictSame(x: State, y: State, ls: set<Loc>)
    requires forall l | l in ls :: SameAt(x, y, l)
    ensures Restrict(x, ls) == Restrict(y, ls)
  {
  }

  function Operands(instrs: seq<Instr>, k: nat, s: State): State
    requires k < |instrs|
  {
    Restrict(Run(instrs, k, s), Reads(instrs[k]))
  }

  /** Every instruction from i on reads the same in the two iterations. */
  predicate ReadsRepeat(instrs: seq<Instr>, i: nat, s: State, t: State) {
    forall k | i <= k < |instrs| :: Operands(instrs, k, s) == Operands(instrs, k, t)
  }

  lemma {:induction false} SameOperands(instrs: seq<Instr>, i: nat, s: State, t: State, written: set<Loc>,
                                        disallowed: set<Loc>)
    requires i <= |instrs| && Careful(instrs, i, written, disallowed)
    requires forall k | 0 <= k < |instrs| :: RespectsInfo(instrs[k])
    requires InStep(instrs, i, s, t, written)
    ensures ReadsRepeat(instrs, i, s, t)
    decreases |instrs| - i
  {
    hide Reads, Writes, SureWrites, Run, Restrict, RespectsInfo, InStep;
    if i < |instrs| {
      SameReads(instrs, i, s, t, written, disallowed);
      StayInStep(instrs, i, s, t, written);
      SameOperands(instrs, i + 1, s, t, written + SureWrites(instrs[i]), disallowed + (Reads(instrs[i]) - written));
    }
  }

  lemma {:induction false} Replays(instrs: seq<Instr>, i: nat, s: State, t: State, written: set<Loc>,
                                   disallowed: set<Loc>)
    requires i <= |instrs| && Careful(instrs, i, written, disallowed)
    requires forall k | 0 <= k < |instrs| :: RespectsInfo(instrs[k])
    requires InStep(instrs, i, s, t, written)
    ensures Run(instrs, |instrs|, s) == Run(instrs, |instrs|, t)
    ensures i < |instrs| ==> BranchTaken(instrs, s) == BranchTaken(instrs, t)
    decreases |instrs| - i
  {
    if i < |instrs| {
      SameReads(instrs, i, s, t, written, disallowed);
      StayInStep(instrs, i, s, t, written);
      assert i == |instrs| - 1 ==> BranchTaken(instrs, s) == BranchTaken(instrs, t);
      Replays(instrs, i + 1, s, t, written + SureWrites(instrs[i]), disallowed + (Reads(instrs[i]) - written));
    } else {
      InStepAtEnd(instrs, s, t, written);
    }
  }

  lemma InStepAtEnd(instrs: seq<Instr>, s: State, t: State, written: set<Loc>)
    requires InStep(instrs, |instrs|, s, t, written)
    ensures Run(instrs, |instrs|, s) == Run(instrs, |instrs|, t)
  {
    var x, y := Run(instrs, |instrs|, s), Run(instrs, |instrs|, t);
    forall l ensures SameAt(x, y, l) {
      assert InStepAt(instrs, |instrs|, s, t, written, l);
    }
    SameEverywhere(x, y);
  }

  lemma SameEverywhere(x: State, y: State)
    requires forall l :: SameAt(x, y, l)
    ensures x == y
  {
    assert forall l | l in x :: SameAt(x, y, l);
    assert forall l | l in y :: SameAt(x, y, l);
  }

  lemma StayInStep(instrs: seq<Instr>, i: nat, s: State, t: State, written: set<Loc>)
    requires i < |instrs| && RespectsInfo(instrs[i]) && InStep(instrs, i, s, t, written)
    requires Restrict(Run(instrs, i, s), Reads(instrs[i])) == Restrict(Run(instrs, i, t), Reads(instrs[i]))
    ensures InStep(instrs, i + 1, s, t, written + SureWrites(instrs[i]))
  {
    var j, written' := i + 1, written + SureWrites(instrs[i]);
    forall l ensures InStepAt(instrs, j, s, t, written', l) {
      if l in written' || Quiet(instrs, j, s, l) {
        StayInStepAt(instrs, i, s, t, written, l);
      }
    }
  }

  lemma StayInStepAt(instrs: seq<Instr>, i: nat, s: State, t: State, written: set<Loc>, l: Loc)
    requires i < |instrs| && RespectsInfo(instrs[i]) && InStep(instrs, i, s, t, written)
    requires Restrict(Run(instrs, i, s), Reads(instrs[i])) == Restrict(Run(instrs, i, t), Reads(instrs[i]))
    requires l in written + SureWrites(instrs[i]) || Quiet(instrs, i + 1, s, l)
    ensures SameAt(Run(instrs, i + 1, s), Run(instrs, i + 1, t), l)
  {
    var w := Effect(instrs, i, s);
    assert l in SureWrites(instrs[i]) ==> l in w;
    if l !in w && l !in written {
      assert Quiet(instrs, i, s, l);
    }
    assert InStepAt(instrs, i, s, t, written, l);
    UpdateSame(Run(instrs, i, s), Run(instrs, i, t), w, l);
  }

  lemma UpdateSame(x: State, y: State, w: State, l: Loc)
    requires l in w || SameAt(x, y, l)
    ensures SameAt(x + w, y + w, l)
  {
  }

  /** A body that obeys the discipline does in its second iteration what it did in its first. */
  lemma SecondIterationRepeats(instrs: seq<Instr>, s: State)
    requires Careful(instrs, 0, {}, {})
    requires forall k | 0 <= k < |instrs| :: RespectsInfo(instrs[k])
    ensures var s1 := Run(instrs, |instrs|, s);
      && Run(instrs, |instrs|, s1) == s1 && (instrs != [] ==> BranchTaken(instrs, s1) == BranchTaken(instrs, s))
      && ReadsRepeat(instrs, 0, s, s1)
  {
    var s1 := Run(instrs, |instrs|, s);
    forall l ensures InStepAt(instrs, 0, s, s1, {}, l) {
      if Quiet(instrs, 0, s, l) {
        QuietSettles(instrs, 0, s, l);
      }
    }
    Replays(instrs, 0, s, s1, {}, {});
    SameOperands(instrs, 0, s, s1, {}, {});
  }

  /** Once taken, the back branch stays taken and no iteration changes anything. */
  lemma {:induction false} IdleForever(instrs: seq<Instr>, n: nat, s: State)
    requires instrs != [] && n > 0 && Careful(instrs, 0, {}, {})
    requires forall k | 0 <= k < |instrs| :: RespectsInfo(instrs[k])
    ensures Iterate(instrs, n, s) == Run(instrs, |instrs|, s)
    ensures BranchTaken(instrs, Iterate(instrs, n, s)) == BranchTaken(instrs, s)
  {
    SecondIterationRepeats(instrs, s);
    if n > 1 {
      IdleForever(instrs, n - 1, s);
    } else {
      assert Iterate(instrs, 0, s) == s;
    }
  }

  // ---- exactly when nothing is handed from one iteration to the next

  /** The same instructions as far as their Info goes, with meanings that respect it. */
  ghost predicate SameInfos(instrs: seq<Instr>, bodies: seq<Instr>) {
    && |bodies| == |instrs|
    && forall k | 0 <= k < |instrs| ::
         bodies[k] == instrs[k].(effect := bodies[k].effect, taken := bodies[k].taken) && RespectsInfo(bodies[k])
  }

  lemma {:induction false} CarefulIsAboutInfos(instrs: seq<Instr>, bodies: seq<Instr>, i: nat, written: set<Loc>,
                                               disallowed: set<Loc>)
    requires SameInfos(instrs, bodies) && i <= |instrs|
    ensures Careful(instrs, i, written, disallowed) == Careful(bodies, i, written, disallowed)
    decreases |instrs| - i
  {
    if i < |instrs| {
      assert bodies[i] == instrs[i].(effect := bodies[i].effect, taken := bodies[i].taken);
      CarefulIsAboutInfos(instrs, bodies, i + 1, written + SureWrites(instrs[i]),
        disallowed + (Reads(instrs[i]) - written));
    }
  }

  /** Instruction j reads l, which nothing before it surely writes, and instruction k, not before
      j, may write l. */
  predicate HandsOn(instrs: seq<Instr>, j: nat, k: nat, l: Loc) {
    && j <= k < |instrs| && l in Reads(instrs[j]) && l in Writes(instrs[k])
    && forall m | 0 <= m < j :: l !in SureWrites(instrs[m])
  }

  /** What the discipline has gathered before instruction i. */
  ghost predicate Gathered(instrs: seq<Instr>, i: nat, written: set<Loc>, disallowed: set<Loc>)
    requires i <= |instrs|
  {
    && (forall m, l | 0 <= m < i && l in SureWrites(instrs[m]) :: l in written)
    && (forall l | l in disallowed :: exists j :: 0 <= j < i && ReadFirst(instrs, j, l))
  }

  predicate ReadFirst(instrs: seq<Instr>, j: nat, l: Loc)
    requires j < |instrs|
  {
    l in Reads(instrs[j]) && forall m | 0 <= m < j :: l !in SureWrites(instrs[m])
  }

  lemma {:induction false} NotCareful(instrs: seq<Instr>, i: nat, written: set<Loc>, disallowed: set<Loc>)
    returns (j: nat, k: nat, l: Loc)
    requires i <= |instrs| && Gathered(instrs, i, written, disallowed) && !Careful(instrs, i, written, disallowed)
    ensures HandsOn(instrs, j, k, l)
    decreases |instrs| - i
  {
    hide Reads, Writes, SureWrites;
    var disallowed' := disallowed + (Reads(instrs[i]) - written);
    forall x | x in disallowed' ensures exists j :: 0 <= j < i + 1 && ReadFirst(instrs, j, x) {
      assert x !in disallowed ==> ReadFirst(instrs, i, x);
    }
    if Writes(instrs[i]) * disallowed' != {} {
      l :| l in Writes(instrs[i]) * disallowed';
      j :| 0 <= j < i + 1 && ReadFirst(instrs, j, l);
      k := i;
    } else {
      j, k, l := NotCareful(instrs, i + 1, written + SureWrites(instrs[i]), disallowed');
    }
  }

  /** Writes 1 wherever the instruction surely writes, and to l if it is told to. */
  function WritesOne(instr: Instr, l: Loc, too: bool): Instr {
    var ls := SureWrites(instr) + if too then {l} else {};
    instr.(effect := (t: State) => map x | x in ls :: 1)
  }

  function WritingOne(instrs: seq<Instr>, k: nat, l: Loc): (bodies: seq<Instr>)
    ensures |bodies| == |instrs|
  {
    seq(|instrs|, m requires 0 <= m < |instrs| => WritesOne(instrs[m], l, m == k))
  }

  lemma WritingOneFits(instrs: seq<Instr>, k: nat, l: Loc)
    requires k < |instrs| && l in Writes(instrs[k])
    ensures SameInfos(instrs, WritingOne(instrs, k, l))
  {
    var bodies := WritingOne(instrs, k, l);
    forall m | 0 <= m < |instrs|
      ensures bodies[m] == instrs[m].(effect := bodies[m].effect, taken := bodies[m].taken) && RespectsInfo(bodies[m])
    {
      assert SureWrites(bodies[m]) == SureWrites(instrs[m]) <= Writes(bodies[m]) == Writes(instrs[m]);
      forall s ensures SureWrites(bodies[m]) <= bodies[m].effect(s).Keys <= Writes(bodies[m]) {
        assert bodies[m].effect(s).Keys == SureWrites(instrs[m]) + (if m == k then {l} else {});
      }
    }
  }

  /** With those meanings l keeps its value until something writes it, and is 1 from then on. */
  lemma {:induction false} BecomesOne(instrs: seq<Instr>, k: nat, l: Loc, i: nat, s: State)
    requires i <= |instrs| && l in s
    ensures var s' := Run(WritingOne(instrs, k, l), i, s);
      && l in s'
      && s'[l] == if k < i || exists m :: 0 <= m < i && l in SureWrites(instrs[m]) then 1 else s[l]
  {
    hide SureWrites, Reads, Restrict;
    var bodies := WritingOne(instrs, k, l);
    if i > 0 {
      BecomesOne(instrs, k, l, i - 1, s);
      var before := Run(bodies, i - 1, s);
      var e := bodies[i - 1].effect(Restrict(before, Reads(bodies[i - 1])));
      assert l in e <==> l in SureWrites(instrs[i - 1]) || i - 1 == k;
      assert Run(bodies, i, s) == before + e;
    }
  }

  /** Such a place makes the second iteration read something else than the first. */
  lemma HandedOnShows(instrs: seq<Instr>, j: nat, k: nat, l: Loc)
    requires HandsOn(instrs, j, k, l)
    ensures var bodies := WritingOne(instrs, k, l);
      var s: State := map[l := 0];
      SameInfos(instrs, bodies) && !ReadsRepeat(bodies, 0, s, Run(bodies, |bodies|, s))
  {
    hide Reads, Writes, SureWrites, Run, Restrict, RespectsInfo;
    var bodies := WritingOne(instrs, k, l);
    var s: State := map[l := 0];
    WritingOneFits(instrs, k, l);
    BecomesOne(instrs, k, l, |instrs|, s);
    BecomesOne(instrs, k, l, j, s);
    var s1 := Run(bodies, |bodies|, s);
    BecomesOne(instrs, k, l, j, s1);
    SameReadSet(instrs[j], bodies[j]);
    Restricted(Run(bodies, j, s), Reads(bodies[j]), l);
    Restricted(Run(bodies, j, s1), Reads(bodies[j]), l);
    assert Operands(bodies, j, s) != Operands(bodies, j, s1);
  }

  lemma SameReadSet(a: Instr, b: Instr)
    requires b == a.(effect := b.effect, taken := b.taken)
    ensures Reads(b) == Reads(a)
  {
  }

  lemma Restricted(s: State, ls: set<Loc>, l: Loc)
    requires l in s && l in ls
    ensures l in Restrict(s, ls) && Restrict(s, ls)[l] == s[l]
  {
  }

  /** The discipline over registers and flags is exact: whatever the instructions mean, as far
      as their Info allows, each reads in the second iteration what it read in the first, if
      and only if the Info sets obey it. */
  lemma RepeatsExactly(instrs: seq<Instr>)
    ensures Careful(instrs, 0, {}, {}) <==>
      forall bodies, s | SameInfos(instrs, bodies) :: ReadsRepeat(bodies, 0, s, Run(bodies, |bodies|, s))
  {
    if Careful(instrs, 0, {}, {}) {
      forall bodies, s | SameInfos(instrs, bodies) ensures ReadsRepeat(bodies, 0, s, Run(bodies, |bodies|, s)) {
        CarefulIsAboutInfos(instrs, bodies, 0, {}, {});
        SecondIterationRepeats(bodies, s);
      }
    } else {
      var j, k, l := NotCareful(instrs, 0, {}, {});
      HandedOnShows(instrs, j, k, l);
    }
  }

  // ---- what IsIdleLoop guarantees

  /** The discipline on flags, which the analysis does not check. */
  predicate FlagsCareful(instrs: seq<Instr>, i: nat, written: set<Flag>, disallowed: set<Flag>)
    requires i <= |instrs|
    decreases |instrs| - i
  {
    i == |instrs| ||
    (var disallowed' := disallowed + (instrs[i].readFlags - written);
     (instrs[i].writeFlags + instrs[i].maybeWriteFlags) * disallowed' == {} &&
     FlagsCareful(instrs, i + 1, written + instrs[i].writeFlags, disallowed'))
  }

  /** What a conditional instruction writes besides the program counter are at most flags
      that it is known to write only maybe. */
  predicate Unconditional(instrs: seq<Instr>) {
    forall k | 0 <= k < |instrs| && instrs[k].conditional :: instrs[k].dst <= {PC} && instrs[k].writeFlags == {}
  }

  lemma {:induction false} AcceptedIsCareful(thumb: bool, instrs: seq<Instr>, i: nat,
                                             wr: set<nat>, dr: set<nat>, wf: set<Flag>, df: set<Flag>)
    requires i <= |instrs| && Unconditional(instrs) && PC !in wr && PC !in dr
    requires Accepts(thumb, instrs, i, wr, dr) && FlagsCareful(instrs, i, wf, df)
    ensures Careful(instrs, i, Regs(wr) + Flags(wf), Regs(dr) + Flags(df))
    decreases |instrs| - i
  {
    if i < |instrs| {
      var instr := instrs[i];
      var src, dst := instr.src - {PC}, instr.dst - {PC};
      var dr', df' := dr + (src - wr), df + (instr.readFlags - wf);
      AcceptedIsCareful(thumb, instrs, i + 1, wr + dst, dr', wf + instr.writeFlags, df');
      CarefulStep(instr, wr, dr, wf, df);
    }
  }

  /** One step of the combined discipline, from the two steps on registers and flags. */
  lemma CarefulStep(instr: Instr, wr: set<nat>, dr: set<nat>, wf: set<Flag>, df: set<Flag>)
    requires PC !in dr && (instr.conditional ==> instr.dst <= {PC} && instr.writeFlags == {})
    requires (instr.dst - {PC}) * (dr + (instr.src - {PC} - wr)) == {}
    requires (instr.writeFlags + instr.maybeWriteFlags) * (df + (instr.readFlags - wf)) == {}
    ensures var dr', df' := dr + (instr.src - {PC} - wr), df + (instr.readFlags - wf);
      && Regs(dr) + Flags(df) + (Reads(instr) - (Regs(wr) + Flags(wf))) == Regs(dr') + Flags(df')
      && Regs(wr) + Flags(wf) + SureWrites(instr) == Regs(wr + (instr.dst - {PC})) + Flags(wf + instr.writeFlags)
      && Writes(instr) * (Regs(dr') + Flags(df')) == {}
  {
    var dr', df' := dr + (instr.src - {PC} - wr), df + (instr.readFlags - wf);
    forall l ensures l !in Writes(instr) * (Regs(dr') + Flags(df')) {
      assert l.Reg? ==> l.n !in (instr.dst - {PC}) * dr';
      assert l.FlagOf? ==> l.f !in (instr.writeFlags + instr.maybeWriteFlags) * df';
    }
  }

  /** An accepted body of unconditional instructions whose flags obey the discipline the
      analysis checks for registers idles: every further iteration repeats the first. */
  lemma AcceptedLoopIdles(thumb: bool, instrs: seq<Instr>, n: nat, s: State)
    requires instrs != [] && n > 0 && Accepts(thumb, instrs, 0, {}, {})
    requires Unconditional(instrs) && FlagsCareful(instrs, 0, {}, {})
    requires forall k | 0 <= k < |instrs| :: RespectsInfo(instrs[k])
    ensures Iterate(instrs, n, s) == Run(instrs, |instrs|, s)
    ensures BranchTaken(instrs, Iterate(instrs, n, s)) == BranchTaken(instrs, s)
  {
    AcceptedIsCareful(thumb, instrs, 0, {}, {}, {}, {});
    assert Regs({}) + Flags({}) == {};
    IdleForever(instrs, n, s);
  }

  // ---- neither assumption can be dropped

  function Value(s: State, l: Loc): int { if l in s then s[l] else 0 }

  function BranchBack(): Instr {
    Instr(false, false, true, {}, {PC}, {Z}, {}, {}, s => map[], s => Value(s, FlagOf(Z)) == 0)
  }

  const MOVE := Instr(false, false, true, {}, {0}, {Z}, {}, {},
                      (t: State) => if Value(t, FlagOf(Z)) == 1 then map[Reg(0) := 5] else map[], (t: State) => false)

  const ADD := Instr(false, false, false, {0}, {0}, {}, {}, {},
                     (t: State) => map[Reg(0) := Value(t, Reg(0)) + 1], (t: State) => false)

  const ADC := Instr(false, false, false, {1}, {0}, {C}, {}, {},
                     (t: State) => map[Reg(0) := Value(t, Reg(1)) + Value(t, FlagOf(C))], (t: State) => false)

  /** The flags of comparing a register with zero: the carry is always set. */
  function Compared(v: int): State {
    map[FlagOf(N) := if v < 0 then 1 else 0, FlagOf(Z) := if v == 0 then 1 else 0, FlagOf(C) := 1, FlagOf(V) := 0]
  }

  const CMP := Instr(false, false, false, {1}, {}, {}, {N, Z, C, V}, {}, (t: State) => Compared(Value(t, Reg(1))),
                     (t: State) => false)

  lemma ThreeSteps(i0: Instr, i1: Instr, i2: Instr, s: State)
    ensures Run([i0, i1, i2], 2, s) == Step(i1, Step(i0, s))
    ensures Run([i0, i1, i2], 3, s) == Step(i2, Step(i1, Step(i0, s)))
  {
    var b := [i0, i1, i2];
    assert Run(b, 1, s) == Step(i0, Run(b, 0, s));
    assert Run(b, 2, s) == Step(i1, Run(b, 1, s));
  }

  /** Two iterations of a body of three instructions. */
  lemma TwoIterations(i0: Instr, i1: Instr, i2: Instr, s: State, s1: State, s2: State)
    requires s1 == Step(i2, Step(i1, Step(i0, s))) && s2 == Step(i2, Step(i1, Step(i0, s1)))
    ensures Iterate([i0, i1, i2], 1, s) == s1 && Iterate([i0, i1, i2], 2, s) == s2
  {
    var b := [i0, i1, i2];
    ThreeSteps(i0, i1, i2, s);
    ThreeSteps(i0, i1, i2, s1);
    assert Iterate(b, 0, s) == s;
    assert Iterate(b, 1, s) == Run(b, |b|, Iterate(b, 0, s));
  }

  lemma BranchBackStep(s: State)
    ensures Step(BranchBack(), s) == s
  {
    assert s + map[] == s;
  }

  const CONDITIONAL_LOOP := [MOVE, ADD, BranchBack()]

  lemma ConditionalLoopAccepted()
    ensures Accepts(false, CONDITIONAL_LOOP, 0, {}, {}) && FlagsCareful(CONDITIONAL_LOOP, 0, {}, {})
    ensures forall k | 0 <= k < |CONDITIONAL_LOOP| :: RespectsInfo(CONDITIONAL_LOOP[k])
  {
    var none: set<nat>, w: set<nat>, f: set<Flag> := {}, {0}, {Z};
    assert none + (MOVE.dst - {PC}) == w && none + (MOVE.src - {PC} - none) == none;
    assert w + (ADD.dst - {PC}) == w && none + (ADD.src - {PC} - w) == none;
    assert Accepts(false, CONDITIONAL_LOOP, 2, w, none);
    assert Accepts(false, CONDITIONAL_LOOP, 1, w, none);
    var clear: set<Flag> := {};
    assert clear + (MOVE.readFlags - clear) == f && clear + MOVE.writeFlags == clear;
    assert f + (ADD.readFlags - clear) == f && clear + ADD.writeFlags == clear;
    assert FlagsCareful(CONDITIONAL_LOOP, 2, clear, f);
    assert FlagsCareful(CONDITIONAL_LOOP, 1, clear, f);
  }

  /** A conditional move followed by an increment of the same register: the move is taken as
      a write, so the increment does not count as a read of the previous iteration. */
  lemma ConditionalLoopDoesNotIdle()
    ensures Accepts(false, CONDITIONAL_LOOP, 0, {}, {}) && FlagsCareful(CONDITIONAL_LOOP, 0, {}, {})
    ensures forall k | 0 <= k < |CONDITIONAL_LOOP| :: RespectsInfo(CONDITIONAL_LOOP[k])
    ensures BranchTaken(CONDITIONAL_LOOP, map[])
    ensures Iterate(CONDITIONAL_LOOP, 1, map[]) == map[Reg(0) := 1]
    ensures Iterate(CONDITIONAL_LOOP, 2, map[]) == map[Reg(0) := 2]
  {
    ConditionalLoopAccepted();
    var s0: State, s1: State, s2: State := map[], map[Reg(0) := 1], map[Reg(0) := 2];
    assert Step(MOVE, s0) == s0 && Step(ADD, s0) == s1;
    assert Step(MOVE, s1) == s1 && Step(ADD, s1) == s2;
    BranchBackStep(s1);
    BranchBackStep(s2);
    TwoIterations(MOVE, ADD, BranchBack(), s0, s1, s2);
    ThreeSteps(MOVE, ADD, BranchBack(), s0);
  }

  const FLAG_LOOP := [ADC, CMP, BranchBack()]

  lemma FlagLoopAccepted()
    ensures Accepts(false, FLAG_LOOP, 0, {}, {}) && Unconditional(FLAG_LOOP)
    ensures forall k | 0 <= k < |FLAG_LOOP| :: RespectsInfo(FLAG_LOOP[k])
  {
    var none: set<nat>, w: set<nat>, d: set<nat> := {}, {0}, {1};
    assert none + (ADC.dst - {PC}) == w && none + (ADC.src - {PC} - none) == d;
    assert w + (CMP.dst - {PC}) == w && d + (CMP.src - {PC} - w) == d;
    assert Accepts(false, FLAG_LOOP, 2, w, d);
    assert Accepts(false, FLAG_LOOP, 1, w, d);
  }

  /** After an iteration: R0, R1, which is 1, and the flags of comparing R1 with zero. */
  function Summed(v: int): State { map[Reg(0) := v, Reg(1) := 1] + Compared(1) }

  lemma AdcStep(s: State, v: int)
    requires s == map[Reg(1) := 1] || s == Summed(v)
    ensures Step(ADC, s) == s + map[Reg(0) := if s == Summed(v) then 2 else 1]
  {
  }

  lemma CmpStep(s: State)
    requires Reg(1) in s && s[Reg(1)] == 1
    ensures Step(CMP, s) == s + Compared(1)
  {
  }

  /** One iteration, from the start and from the end of the first. */
  lemma FlagIteration(s: State, v: int)
    requires s == map[Reg(1) := 1] || s == Summed(v)
    ensures Step(BranchBack(), Step(CMP, Step(ADC, s))) == Summed(if s == Summed(v) then 2 else 1)
  {
    hide Step, Compared;
    AdcStep(s, v);
    var half := s + map[Reg(0) := if s == Summed(v) then 2 else 1];
    KeepsOne(v);
    CmpStep(half);
    SummedAgain(s, v);
    BranchBackStep(half + Compared(1));
  }

  lemma KeepsOne(v: int)
    ensures Reg(1) in Summed(v) && Summed(v)[Reg(1)] == 1
  {
  }

  lemma SummedAgain(s: State, v: int)
    requires s == map[Reg(1) := 1] || s == Summed(v)
    ensures var w := if s == Summed(v) then 2 else 1; s + map[Reg(0) := w] + Compared(1) == Summed(w)
  {
  }

  /** R0 is R1 plus the carry, then R1 is compared with zero, which sets the carry: the flag is
      handed from one iteration to the next. */
  lemma FlagLoopDoesNotIdle()
    ensures Accepts(false, FLAG_LOOP, 0, {}, {}) && Unconditional(FLAG_LOOP)
    ensures forall k | 0 <= k < |FLAG_LOOP| :: RespectsInfo(FLAG_LOOP[k])
    ensures BranchTaken(FLAG_LOOP, map[Reg(1) := 1])
    ensures Iterate(FLAG_LOOP, 1, map[Reg(1) := 1]) == Summed(1)
    ensures Iterate(FLAG_LOOP, 2, map[Reg(1) := 1]) == Summed(2)
  {
    hide Step, Accepts, Iterate, Unconditional, RespectsInfo, Summed, Compared;
    FlagLoopAccepted();
    var s0: State := map[Reg(1) := 1];
    NotYetSummed(0);
    FlagIteration(s0, 0);
    FlagIteration(Summed(1), 1);
    TwoIterations(ADC, CMP, BranchBack(), s0, Summed(1), Summed(2));
    FlagLoopTaken();
  }

  lemma NotYetSummed(v: int)
    ensures map[Reg(1) := 1] != Summed(v)
  {
    assert Reg(0) in Summed(v);
  }

  lemma FlagLoopTaken()
    ensures BranchTaken(FLAG_LOOP, map[Reg(1) := 1])
  {
    var s0: State := map[Reg(1) := 1];
    var half: State := s0 + map[Reg(0) := 1];
    NotYetSummed(0);
    AdcStep(s0, 0);
    CmpStep(half);
    ThreeSteps(ADC, CMP, BranchBack(), s0);
    assert (half + Compared(1))[FlagOf(Z)] == 0;
  }
}
