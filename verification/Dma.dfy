/** A DMA channel: transfers that are started, run in slices of time, stall, pause after 112 words
    and are triggered again. */
module Dma {

  type Word = n: int | 0 <= n < 0x1_0000_0000

  function Wrap(n: int): Word { n % 0x1_0000_0000 }

  const GXFIFO_CHUNK: nat := 112
  const GXFIFO_MODE: nat := 7
  const GXFIFO_PORT: Word := 0x0400_0400

  /** The i-th access of an uninterrupted transfer: source and destination. */
  function Access(src: Word, dst: Word, srcStep: int, dstStep: int, i: nat): (Word, Word) {
    (Wrap(src + i * srcStep), Wrap(dst + i * dstStep))
  }

  /** An uninterrupted transfer of n units. */
  function Atomic(src: Word, dst: Word, srcStep: int, dstStep: int, n: nat): (log: seq<(Word, Word)>)
    ensures |log| == n
  {
    seq(n, i requires 0 <= i < n => Access(src, dst, srcStep, dstStep, i))
  }

  lemma WrapSum(a: int, b: int)
    ensures Wrap(Wrap(a) + b) == Wrap(a + b)
  {
  }

  lemma NextAccess(src: Word, dst: Word, srcStep: int, dstStep: int, n: nat)
    ensures Atomic(src, dst, srcStep, dstStep, n + 1)
      == Atomic(src, dst, srcStep, dstStep, n) + [Access(src, dst, srcStep, dstStep, n)]
    ensures var (s, d) := Access(src, dst, srcStep, dstStep, n);
      Access(src, dst, srcStep, dstStep, n + 1) == (Wrap(s + srcStep), Wrap(d + dstStep))
  {
    WrapSum(src + n * srcStep, srcStep);
    WrapSum(dst + n * dstStep, dstStep);
  }

  /** Bytes from one unit to the next. */
  function StepOf(inc: int, words: bool): int { if words then 4 * inc else 2 * inc }

  /** The number of units a count field asks for; zero stands for the most. */
  function Units(countField: nat, countMask: nat): (n: nat)
    ensures 1 <= n <= countMask + 1 && n % (countMask + 1) == countField % (countMask + 1)
  {
    var n := countField % (countMask + 1);
    if n == 0 then countMask + 1 else n
  }

  lemma AccessZero(src: Word, dst: Word, srcStep: int, dstStep: int)
    ensures Access(src, dst, srcStep, dstStep, 0) == (src, dst) && Atomic(src, dst, srcStep, dstStep, 0) == []
  {
  }

  /** The control register. */
  datatype Control = Control(enabled: bool, words: bool, repeating: bool, dstMode: nat, srcMode: nat, start: nat,
                             count: nat)
  {
    /** Destination mode 3. */
    predicate Reloads() { dstMode == 3 }
  }

  class Channel {
    const arm9: bool
    const countMask: nat
    const timing: (Word, Word, bool) -> nat
    // registers
    var srcAddr: Word
    var dstAddr: Word
    var cnt: Control
    var startMode: nat
    var srcInc: int
    var dstInc: int
    // the transfer
    var curSrc: Word
    var curDst: Word
    var remCount: nat
    var iterCount: nat
    var running: bool
    var inProgress: bool
    var batch: bool           // IsGXFIFODMA

    // since the transfer began: its length, its first addresses and its accesses
    ghost var total: nat
    ghost var firstSrc: Word
    ghost var firstDst: Word
    ghost var log: seq<(Word, Word)>

    function SrcStep(): int
      reads this`srcInc, this`cnt
    {
      StepOf(srcInc, cnt.words)
    }

    function DstStep(): int
      reads this`dstInc, this`cnt
    {
      StepOf(dstInc, cnt.words)
    }

    ghost predicate Valid()
      reads this`running, this`inProgress, this`iterCount, this`remCount, this`batch, this`srcInc, this`total, this`log
    {
      && (running ==> inProgress && 1 <= iterCount <= remCount)
      && (inProgress ==> 1 <= remCount <= total && |log| == total - remCount)
      && (batch ==> arm9) && -1 <= srcInc <= 1
    }

    /** The transfer so far is the beginning of the uninterrupted one, and goes on like it; the
        batch path is taken only for the geometry FIFO. */
    ghost predicate InStep()
      reads this
    {
      && |log| <= total && log == Atomic(firstSrc, firstDst, SrcStep(), DstStep(), |log|)
      && (curSrc, curDst) == Access(firstSrc, firstDst, SrcStep(), DstStep(), |log|)
      && (batch ==> dstInc == 0 && curDst == GXFIFO_PORT)
    }

    lemma RunningIsProgress()
      requires Valid()
      ensures running ==> inProgress
    {
    }

    lemma BatchDestination()
      requires InStep() && batch
      ensures curDst == firstDst == GXFIFO_PORT
    {
      FixedDestination(firstSrc, firstDst, SrcStep(), |log|);
    }

    constructor (arm9: bool, countMask: nat, timing: (Word, Word, bool) -> nat)
      ensures Valid() && !running && !inProgress && !cnt.enabled
      ensures this.arm9 == arm9 && this.countMask == countMask && this.timing == timing
    {
      this.arm9, this.countMask, this.timing := arm9, countMask, timing;
      srcAddr, dstAddr, startMode, cnt := 0, 0, 0, Control(false, false, false, 0, 0, 0, 0);
      srcInc, dstInc, curSrc, curDst, remCount, iterCount := 0, 0, 0, 0, 0, 0;
      running, inProgress, batch := false, false, false;
      total, firstSrc, firstDst, log := 0, 0, 0, [];
    }

    /** The geometry FIFO fed from main memory. */
    predicate OnBatchPath()
      reads this`curSrc, this`curDst, this`dstInc
    {
      arm9 && curSrc / 0x100_0000 == 2 && curDst == GXFIFO_PORT && dstInc == 0
    }

    /** A trigger: begins a transfer, or takes up one that paused. Going on is as if it had not
        paused exactly if the destination is not reloaded, or was back where it started. */
    method Start()
      requires Valid()
      modifies this`remCount, this`iterCount, this`curDst, this`batch, this`running, this`inProgress,
               this`total, this`firstSrc, this`firstDst, this`log
      ensures Valid() && running && inProgress
      ensures !old(inProgress) && !old(running) ==>
        && InStep() && log == [] && total == Units(cnt.count, countMask)
        && firstSrc == curSrc && firstDst == if cnt.Reloads() then dstAddr else old(curDst)
      ensures old(inProgress) ==>
        total == old(total) && firstSrc == old(firstSrc) && firstDst == old(firstDst) && log == old(log)
      ensures old(inProgress) ==> remCount == old(remCount)
      ensures curDst == (if old(running) || !cnt.Reloads() then old(curDst) else dstAddr)
      ensures old(running) ==> iterCount == old(iterCount) && batch == old(batch)
      ensures old(running) && old(InStep()) ==> InStep()
      ensures old(inProgress) && !old(running) && old(InStep()) ==>
        (InStep() <==> !cnt.Reloads() || curDst == Access(firstSrc, firstDst, SrcStep(), DstStep(), |log|).1)
      ensures !old(running) ==> iterCount == if startMode == 7 && remCount > 112 then 112 else remCount
      ensures !old(running) ==> (batch <==> arm9 && curSrc / 0x100_0000 == 2 && curDst == 0x0400_0400 && dstInc == 0)
    {
      hide Access, Atomic, StepOf, Units;
      if running {
        return;
      }
      ghost var begins := !inProgress;
      if !inProgress {
        remCount := Units(cnt.count, countMask);
        total, log := remCount, [];
      }
      if cnt.Reloads() {
        curDst := dstAddr;
      }
      if begins {
        firstSrc, firstDst := curSrc, curDst;
        AccessZero(firstSrc, firstDst, SrcStep(), DstStep());
      }
      Arm();
    }

    /** The part of Start that fixes how far the next slices may go. */
    method Arm()
      requires 1 <= remCount
      modifies this`iterCount, this`batch, this`running, this`inProgress
      ensures running && inProgress && (batch <==> OnBatchPath())
      ensures iterCount == (if startMode == GXFIFO_MODE && remCount > GXFIFO_CHUNK then GXFIFO_CHUNK else remCount)
      ensures 1 <= iterCount <= remCount
    {
      if startMode == GXFIFO_MODE && remCount > GXFIFO_CHUNK {
        iterCount := GXFIFO_CHUNK;
      } else {
        iterCount := remCount;
      }
      batch := OnBatchPath();
      running, inProgress := true, true;
    }

    /** One unit. */
    method Transfer()
      requires 1 <= remCount <= total && |log| == total - remCount && iterCount >= 1
      modifies this`curSrc, this`curDst, this`iterCount, this`remCount, this`log
      ensures remCount == old(remCount) - 1 && iterCount == old(iterCount) - 1 && |log| == total - remCount
      ensures (old(InStep()) ==> InStep()) && (dstInc == 0 ==> curDst == old(curDst))
    {
      NextAccess(firstSrc, firstDst, SrcStep(), DstStep(), |log|);
      hide Access, Atomic;
      log := log + [(curSrc, curDst)];
      curSrc, curDst := Wrap(curSrc + SrcStep()), Wrap(curDst + DstStep());
      iterCount, remCount := iterCount - 1, remCount - 1;
    }

    /** The unit loop of a slice: it ends when the time is up, when the pass is done, or when a
        write stalls the channel. `stalls` tells, unit by unit, whether that happens. */
    method RunUnits(now: nat, target: nat, unit: nat, stalls: nat -> bool) returns (time: nat)
      requires Valid() && running && now < target && unit > 0
      modifies this`curSrc, this`curDst, this`iterCount, this`remCount, this`log
      ensures time < target + unit && now < time
      ensures iterCount <= remCount && remCount - iterCount == old(remCount - iterCount) && iterCount < old(iterCount)
      ensures |log| == total - remCount && (old(InStep()) ==> InStep()) && (dstInc == 0 ==> curDst == old(curDst))
      ensures var done := old(iterCount) - iterCount;
        && time == now + unit * done && (time >= target || iterCount == 0 || stalls(done - 1))
        && (forall k: nat | k < done - 1 :: !stalls(k))
    {
      hide Access, Atomic, StepOf;
      time := now;
      var stall, done := false, 0;
      while iterCount > 0 && !stall
        invariant time < target || done > 0
        invariant time < target + unit && now <= time && (done > 0 ==> now < time && iterCount < old(iterCount))
        invariant iterCount <= remCount && remCount - iterCount == old(remCount - iterCount)
        invariant 0 < iterCount ==> 1 <= remCount <= total
        invariant remCount <= total && |log| == total - remCount && (old(InStep()) ==> InStep())
        invariant dstInc == 0 ==> curDst == old(curDst)
        invariant done == old(iterCount) - iterCount && time == now + unit * done
        invariant (forall k: nat | k < done - 1 :: !stalls(k)) && (done > 0 ==> stall == stalls(done - 1))
        invariant done == 0 ==> iterCount == old(iterCount) && !stall
        invariant iterCount > 0 && !stall ==> time < target
        decreases iterCount
      {
        time := time + unit;
        Transfer();
        stall := stalls(done);
        done := done + 1;
        if time >= target {
          break;
        }
      }
    }

    /** How many words fit the time, at least one and at most what is left of the pass. */
    method BatchCount(now: nat, target: nat, unit: nat) returns (count: nat)
      requires now < target && unit > 0 && iterCount >= 1
      ensures 1 <= count <= iterCount && now < now + unit * count < target + unit
      ensures count == iterCount || now + unit * (count + 1) > target
    {
      count := (target - now) / unit;
      if count < 1 {
        count := 1;
      }
      if count > iterCount {
        count := iterCount;
      }
      BatchTime(now, target, unit, count);
      NoTimeLeft(target - now, unit, count);
    }

    /** The batch path to the geometry FIFO: as many words as fit the time, at least one. They are
        consecutive words wherever the source goes from there, which continues an uninterrupted
        transfer exactly if the source counts up or one word is copied. */
    method RunBatch(now: nat, target: nat, unit: nat) returns (time: nat)
      requires Valid() && running && now < target && unit > 0 && batch && cnt.words
      modifies this`curSrc, this`iterCount, this`remCount, this`log
      ensures time < target + unit && now < time
      ensures iterCount <= remCount && remCount - iterCount == old(remCount - iterCount) && iterCount < old(iterCount)
      ensures |log| == total - remCount
      ensures time == now + unit * (old(iterCount) - iterCount) && (iterCount == 0 || time + unit > target)
      ensures log == old(log) + Atomic(old(curSrc), GXFIFO_PORT, 4, 0, old(iterCount) - iterCount)
      ensures old(InStep()) ==> (InStep() <==> srcInc == 1 || iterCount == old(iterCount) - 1)
    {
      hide Access, Atomic;
      var count := BatchCount(now, target, unit);
      time := now + unit * count;
      if InStep() {
        BatchInStep(firstSrc, firstDst, srcInc, log, curSrc, curDst, count);
      }
      log := log + Atomic(curSrc, GXFIFO_PORT, 4, 0, count);
      iterCount, remCount := iterCount - count, remCount - count;
      curSrc := Wrap(curSrc + 4 * (count * srcInc));
    }

    /** Run9 and Run7: one slice, from `now` to `target`. */
    method Run(now: nat, target: nat, stalls: nat -> bool) returns (time: nat)
      requires Valid() && running && timing(curSrc, curDst, cnt.words) > 0
      modifies this`curSrc, this`curDst, this`iterCount, this`remCount, this`log
      modifies this`running, this`inProgress, this`cnt
      ensures Valid() && (old(InStep()) && (batch && cnt.words ==> srcInc == 1) ==> InStep())
      ensures if now >= target then time == now && remCount == old(remCount)
              else now < time < target + old(timing(curSrc, curDst, cnt.words)) && remCount < old(remCount)
      ensures inProgress <==> remCount > 0
      ensures !inProgress ==> |log| == total && cnt == if cnt.repeating then old(cnt) else old(cnt).(enabled := false)
      ensures inProgress ==> cnt == old(cnt) && (running <==> iterCount > 0)
    {
      if now >= target {
        return now;
      }
      var unit := timing(curSrc, curDst, cnt.words);
      hide InStep, Access, Atomic, StepOf, Wrap;
      if cnt.words && batch {
        time := RunBatch(now, target, unit);
      } else {
        time := RunUnits(now, target, unit, stalls);
      }
      EndSlice();
    }

    /** After a slice: the pass or the transfer may be over. */
    method EndSlice()
      requires running && inProgress
      modifies this`running, this`inProgress, this`cnt
      ensures (inProgress <==> remCount > 0) && (running <==> remCount > 0 && iterCount > 0)
      ensures cnt == if inProgress || cnt.repeating then old(cnt) else old(cnt).(enabled := false)
    {
      if remCount > 0 {
        if iterCount == 0 {
          running := false;
        }
        return;
      }
      if !cnt.repeating {
        cnt := cnt.(enabled := false);
      }
      running, inProgress := false, false;
    }

    /** The cursors and modes that are set when a channel is switched on. */
    method SetUp()
      requires Valid()
      modifies this`startMode, this`curSrc, this`curDst, this`dstInc, this`srcInc
      ensures Valid() && startMode == cnt.start && curSrc == srcAddr && curDst == dstAddr
      ensures srcInc == (if cnt.srcMode == 1 then -1 else if cnt.srcMode == 2 then 0 else 1)
      ensures dstInc == (if cnt.dstMode == 1 then -1 else if cnt.dstMode == 2 then 0 else 1)
    {
      curSrc, curDst, startMode := srcAddr, dstAddr, cnt.start;
      dstInc := if cnt.dstMode == 1 then -1 else if cnt.dstMode == 2 then 0 else 1;
      srcInc := if cnt.srcMode == 1 then -1 else if cnt.srcMode == 2 then 0 else 1;
    }

    /** The part of WriteCnt for a channel that was off. */
    method SwitchOn()
      requires Valid()
      modifies this`startMode, this`curSrc, this`curDst, this`dstInc, this`srcInc
      modifies this`remCount, this`iterCount, this`batch, this`running, this`inProgress
      modifies this`total, this`firstSrc, this`firstDst, this`log
      ensures Valid() && startMode == cnt.start && curSrc == srcAddr && curDst == dstAddr
      ensures srcInc == (if cnt.srcMode == 1 then -1 else if cnt.srcMode == 2 then 0 else 1)
      ensures dstInc == (if cnt.dstMode == 1 then -1 else if cnt.dstMode == 2 then 0 else 1)
      ensures running <==> old(running) || cnt.start % 8 == 0
      ensures inProgress <==> old(inProgress) || cnt.start % 8 == 0
      ensures old(inProgress) ==> remCount == old(remCount) && total == old(total) && log == old(log)
      ensures running && !old(inProgress) ==>
        InStep() && log == [] && total == Units(cnt.count, countMask) && firstSrc == srcAddr && firstDst == dstAddr
      ensures running && !old(running) ==> iterCount == remCount && (batch <==> OnBatchPath())
    {
      hide InStep, Units, Access, Valid;
      SetUp();
      if cnt.start % 8 == 0 {
        Start();
      }
    }

    /** WriteCnt, at any time. Switching an idle channel on in the immediate mode begins a transfer
        with the addresses and the count of the registers; switching one on that has a transfer
        in progress moves its cursors and keeps what remains; any other write only sets Cnt. */
    method WriteCnt(val: Control)
      requires Valid()
      modifies this
      ensures Valid() && cnt == val && srcAddr == old(srcAddr) && dstAddr == old(dstAddr)
      ensures var begins := val.enabled && !old(cnt).enabled && val.start % 8 == 0;
        (running <==> old(running) || begins) && (inProgress <==> old(inProgress) || begins)
      ensures if val.enabled && !old(cnt).enabled then startMode == val.start && curSrc == srcAddr && curDst == dstAddr
              else curSrc == old(curSrc) && curDst == old(curDst) && startMode == old(startMode)
      ensures if val.enabled && !old(cnt).enabled
              then srcInc == (if val.srcMode == 1 then -1 else if val.srcMode == 2 then 0 else 1)
                   && dstInc == (if val.dstMode == 1 then -1 else if val.dstMode == 2 then 0 else 1)
              else srcInc == old(srcInc) && dstInc == old(dstInc)
      ensures old(inProgress) ==> remCount == old(remCount) && total == old(total) && log == old(log)
      ensures running && !old(inProgress) ==>
        InStep() && log == [] && total == Units(val.count, countMask) && firstSrc == srcAddr && firstDst == dstAddr
      ensures running && !old(running) ==> iterCount == remCount && (batch <==> OnBatchPath())
    {
      hide InStep, Units, Access, Valid;
      RunningIsProgress();
      var oldcnt := cnt;
      cnt := val;
      if !oldcnt.enabled && val.enabled {
        SwitchOn();
      }
    }
  }

  // ---- any number of slices and triggers

  datatype Event = Trigger | Slice(now: nat, target: nat, stalls: nat -> bool)

  /** However a transfer is sliced, stalled, paused and triggered again, it makes the accesses of
      one that is not interrupted: without reloading, and with a source that counts up where
      words go to the geometry FIFO. */
  method Drive(c: Channel, events: seq<Event>)
    requires c.Valid() && c.inProgress && c.InStep() && !c.cnt.Reloads()
    requires (forall s, d, w :: c.timing(s, d, w) > 0)
    requires c.arm9 && c.cnt.words && c.dstInc == 0 && c.firstDst == GXFIFO_PORT ==> c.srcInc == 1
    modifies c
    ensures c.Valid() && c.InStep() && c.total == old(c.total)
    ensures var unit := if old(c.cnt.words) then 4 else 2;
      forall i | 0 <= i < |c.log| ::
        && c.log[i].0 as int == (old(c.firstSrc) + unit * i * old(c.srcInc)) % 0x1_0000_0000
        && c.log[i].1 as int == (old(c.firstDst) + unit * i * old(c.dstInc)) % 0x1_0000_0000
    ensures |c.log| <= c.total && (!c.inProgress ==> |c.log| == c.total)
  {
    hide Access, Atomic, StepOf;
    for i := 0 to |events|
      invariant c.Valid() && c.InStep() && !c.cnt.Reloads()
      invariant c.total == old(c.total) && c.firstSrc == old(c.firstSrc) && c.firstDst == old(c.firstDst)
      invariant c.srcInc == old(c.srcInc) && c.dstInc == old(c.dstInc) && c.cnt.words == old(c.cnt.words)
      invariant !c.inProgress ==> |c.log| == c.total
    {
      if c.inProgress {
        match events[i] {
          case Trigger => c.Start();
          case Slice(now, target, stalls) =>
            if c.running {
              if c.batch {
                c.BatchDestination();
              }
              var time := c.Run(now, target, stalls);
            }
        }
      }
    }
    forall i | 0 <= i < |c.log| ensures var (s, d) := c.log[i]; var unit := if old(c.cnt.words) then 4 else 2;
      s as int == (old(c.firstSrc) + unit * i * old(c.srcInc)) % 0x1_0000_0000
      && d as int == (old(c.firstDst) + unit * i * old(c.dstInc)) % 0x1_0000_0000
    {
      AccessInNumbers(c.firstSrc, c.firstDst, c.srcInc, c.dstInc, c.cnt.words, |c.log|, i);
    }
  }

  /** The i-th access in numbers: units are of four or two bytes, and each increment is one unit. */
  lemma AccessInNumbers(src: Word, dst: Word, srcInc: int, dstInc: int, words: bool, n: nat, i: nat)
    requires i < n
    ensures var (s, d) := Atomic(src, dst, StepOf(srcInc, words), StepOf(dstInc, words), n)[i];
      var unit := if words then 4 else 2;
      s as int == (src + unit * i * srcInc) % 0x1_0000_0000 && d as int == (dst + unit * i * dstInc) % 0x1_0000_0000
  {
    assert i * (4 * srcInc) == 4 * i * srcInc && i * (2 * srcInc) == 2 * i * srcInc;
    assert i * (4 * dstInc) == 4 * i * dstInc && i * (2 * dstInc) == 2 * i * dstInc;
  }

  lemma BatchTime(now: nat, target: nat, unit: nat, count: nat)
    requires now < target && unit > 0 && 1 <= count && (count == 1 || count <= (target - now) / unit)
    ensures now < now + unit * count < target + unit
  {
    if count > 1 {
      var q := (target - now) / unit;
      assert unit * count <= unit * q <= target - now;
    }
    assert unit * count >= unit;
  }

  lemma NoTimeLeft(left: nat, unit: nat, count: nat)
    requires unit > 0
    ensures count >= left / unit ==> unit * (count + 1) > left
  {
    if count >= left / unit {
      assert unit * (left / unit + 1) > left;
      assert unit * (count + 1) >= unit * (left / unit + 1);
    }
  }

  /** Without steps the destination stays what it was first. */
  lemma FixedDestination(src: Word, dst: Word, srcStep: int, n: nat)
    ensures Access(src, dst, srcStep, 0, n).1 == dst
  {
  }

  lemma BatchInStep(src: Word, dst: Word, srcInc: int, log: seq<(Word, Word)>, s: Word, d: Word, n: nat)
    requires -1 <= srcInc <= 1 && n > 0
    requires log == Atomic(src, dst, 4 * srcInc, 0, |log|) && (s, d) == Access(src, dst, 4 * srcInc, 0, |log|)
    ensures var log' := log + Atomic(s, d, 4, 0, n);
      && (Wrap(s + 4 * (n * srcInc)), d) == Access(src, dst, 4 * srcInc, 0, |log'|)
      && (log' == Atomic(src, dst, 4 * srcInc, 0, |log'|) <==> srcInc == 1 || n == 1)
  {
    JoinAccesses(src, dst, 4 * srcInc, 0, |log|, n);
    BatchAccesses(s, d, srcInc, n);
    if n > 1 {
      assert Atomic(s, d, 4, 0, n)[1] == Access(s, d, 4, 0, 1);
      assert Atomic(s, d, 4 * srcInc, 0, n)[1] == Access(s, d, 4 * srcInc, 0, 1);
    } else {
      assert Atomic(s, d, 4, 0, n) == Atomic(s, d, 4 * srcInc, 0, n);
    }
    var log', all := log + Atomic(s, d, 4, 0, n), Atomic(src, dst, 4 * srcInc, 0, |log| + n);
    assert all == log + Atomic(s, d, 4 * srcInc, 0, n);
    assert log'[|log|..] == Atomic(s, d, 4, 0, n) && all[|log|..] == Atomic(s, d, 4 * srcInc, 0, n);
  }

  lemma BatchAccesses(s: Word, d: Word, srcInc: int, n: nat)
    ensures Access(s, d, 4 * srcInc, 0, n) == (Wrap(s + 4 * (n * srcInc)), d)
  {
    assert n * (4 * srcInc) == 4 * (n * srcInc);
  }

  /** n units from the k-th on are themselves an uninterrupted transfer. */
  lemma {:induction false} JoinAccesses(src: Word, dst: Word, srcStep: int, dstStep: int, k: nat, n: nat)
    ensures var (s, d) := Access(src, dst, srcStep, dstStep, k);
      && Atomic(src, dst, srcStep, dstStep, k + n) ==
        Atomic(src, dst, srcStep, dstStep, k) + Atomic(s, d, srcStep, dstStep, n)
      && Access(src, dst, srcStep, dstStep, k + n) == Access(s, d, srcStep, dstStep, n)
  {
    var (s, d) := Access(src, dst, srcStep, dstStep, k);
    if n == 0 {
      AccessZero(s, d, srcStep, dstStep);
    } else {
      JoinAccesses(src, dst, srcStep, dstStep, k, n - 1);
      NextAccess(src, dst, srcStep, dstStep, k + n - 1);
      NextAccess(s, d, srcStep, dstStep, n - 1);
    }
  }

  // ---- transfers that do not go on as one

  function UnitTime(): (Word, Word, bool) -> nat { (s: Word, d: Word, w: bool) => 1 }

  /** Two words from a fixed source to the geometry FIFO: consecutive ones are sent. */
  method FixedSourceBatch() returns (c: Channel)
    ensures c.srcInc == 0 && c.log == [(0x200_0000, GXFIFO_PORT), (0x200_0004, GXFIFO_PORT)] && !c.InStep()
  {
    c := new Channel(true, 0x1F_FFFF, UnitTime());
    c.srcAddr, c.dstAddr := 0x200_0000, GXFIFO_PORT;
    c.WriteCnt(Control(true, true, false, 2, 2, 0, 2));
    assert c.running && c.batch && c.total == c.remCount == 2;
    var time := c.RunBatch(0, 2, 1);
  }

  /** 113 words in the geometry mode to an address that is reloaded. */
  method LongTransfer() returns (c: Channel)
    ensures fresh(c) && c.Valid() && c.running && !c.batch && c.InStep() && c.cnt.Reloads() && c.cnt.words
    ensures c.remCount == c.total == 113 && c.iterCount == 112 && c.dstInc == 1 && c.log == []
    ensures c.dstAddr == c.firstDst == 0x200_1000
  {
    hide Access, Atomic, Channel.InStep;
    c := new Channel(true, 0x1F_FFFF, UnitTime());
    c.srcAddr, c.dstAddr := 0x200_0000, 0x200_1000;
    c.WriteCnt(Control(true, true, false, 3, 0, GXFIFO_MODE, 113));
    c.Start();
  }

  /** Up to the pause for the last word. */
  method PausedTransfer() returns (c: Channel)
    ensures fresh(c) && c.Valid() && c.inProgress && !c.running && c.InStep() && c.cnt.Reloads() && c.remCount == 1
    ensures c.dstAddr == c.firstDst == 0x200_1000 && |c.log| == 112 && c.DstStep() == 4
  {
    hide Access, Atomic;
    c := LongTransfer();
    var time := c.RunUnits(0, 112, 1, (k: nat) => false);
    assert c.iterCount == 0 && c.remCount == 1;
    c.EndSlice();
  }

  /** Its last word goes where the first went. */
  method ReloadedTransfer() returns (c: Channel)
    ensures c.Valid() && c.inProgress && c.remCount == 1 && c.curDst == c.firstDst && !c.InStep()
  {
    hide Atomic, Channel.InStep;
    c := PausedTransfer();
    c.Start();
  }
}
