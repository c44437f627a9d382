/** The DSi AES engine: a streaming state machine between two 16-word FIFOs. */
module AesEngine {
  import opened Ccm
  import opened Fifos

  const FIFO_WORDS: nat := 16

  /** After k blocks: the input queue is what was accepted and not processed, the counter and
      the running MAC are those of the processed blocks, and what was handed out followed by
      the output queue is what those blocks produce. */
  ghost predicate Flow(s: Session, written: seq<Word>, taken: seq<Word>, k: nat, inQueue: seq<Word>,
                       outQueue: seq<Word>, ctxIv: Block, curMac: Block)
  {
    && 4 * k <= |written| && inQueue == written[4 * k..]
    && var p := Process(s, Blocks(written, k));
       && ctxIv == p.iv && (IsCcm(s.mode) ==> curMac == p.mac)
       && taken + outQueue == WordsOf(p.outs)
  }

  lemma FlowBegins(s: Session, ctxIv: Block, curMac: Block)
    requires ctxIv == s.iv0 && (IsCcm(s.mode) ==> curMac == s.mac0)
    ensures Flow(s, [], [], 0, [], [], ctxIv, curMac)
  {
    assert Blocks([], 0) == [];
  }

  /** One more block: `data` is the head of the input queue. */
  lemma FlowStep(s: Session, written: seq<Word>, taken: seq<Word>, k: nat, inQueue: seq<Word>, outQueue: seq<Word>,
                 ctxIv: Block, curMac: Block, data: Block, x: Block, curMac': Block)
    requires Flow(s, written, taken, k, inQueue, outQueue, ctxIv, curMac) && |inQueue| >= 4
    requires data == BlockOf(inQueue[0], inQueue[1], inQueue[2], inQueue[3])
    requires x == Xor(Swap16(data), s.cipher.Encrypt(ctxIv))
    requires s.mode == CcmDecrypt ==> curMac' == s.cipher.Encrypt(Xor(curMac, x))
    requires s.mode == CcmEncrypt ==> curMac' == s.cipher.Encrypt(Xor(curMac, Swap16(data)))
    ensures Flow(s, written, taken, k + 1, inQueue[4..], outQueue + WordsOfBlock(Swap16(x)), Increment(ctxIv), curMac')
  {
    var p, q, w := Process(s, Blocks(written, k)), Process(s, Blocks(written, k + 1)), WordsOfBlock(Swap16(x));
    assert q == ProcessBlock(s, p, data) && WordsOf(q.outs) == WordsOf(p.outs) + WordsOfBlock(q.outs[k]) by {
      assert forall i | 0 <= i < 4 :: inQueue[i] == written[4 * k + i];
      NextBlock(s, written, k, data);
    }
    Regroup(taken, outQueue, w);
  }

  lemma BlocksExtended(words: seq<Word>, more: seq<Word>, k: nat)
    requires 4 * k <= |words|
    ensures Blocks(words + more, k) == Blocks(words, k)
  {
  }

  /** A stream of words passing through a 16-word queue: a full queue lets none in, an empty
      queue none out. */
  function Accepted(stream: seq<Word>, queue: seq<Word>, w: Word): seq<Word> {
    if |queue| >= FIFO_WORDS then stream else stream + [w]
  }

  function HandedOut(stream: seq<Word>, queue: seq<Word>): seq<Word> {
    if queue == [] then stream else stream + [queue[0]]
  }

  function Rest(queue: seq<Word>): seq<Word> {
    if queue == [] then queue else queue[1..]
  }

  lemma HandingOut(taken: seq<Word>, queue: seq<Word>)
    ensures HandedOut(taken, queue) + Rest(queue) == taken + queue
  {
  }

  /** Accepting a word and handing one out leave the flow intact. */
  lemma FlowAccepts(s: Session, written: seq<Word>, taken: seq<Word>, k: nat, inQueue: seq<Word>, outQueue: seq<Word>,
                    ctxIv: Block, curMac: Block, w: Word)
    requires Flow(s, written, taken, k, inQueue, outQueue, ctxIv, curMac)
    ensures Flow(s, Accepted(written, inQueue, w), taken, k, Accepted(inQueue, inQueue, w), outQueue, ctxIv, curMac)
  {
    BlocksExtended(written, [w], k);
  }

  lemma FlowHandsOut(s: Session, written: seq<Word>, taken: seq<Word>, k: nat, inQueue: seq<Word>, outQueue: seq<Word>,
                     ctxIv: Block, curMac: Block)
    requires Flow(s, written, taken, k, inQueue, outQueue, ctxIv, curMac)
    ensures Flow(s, written, HandedOut(taken, outQueue), k, inQueue, Rest(outQueue), ctxIv, curMac)
  {
    HandingOut(taken, outQueue);
  }

  /** All blocks are done: everything the transfer produces has been handed out, is queued,
      or is the MAC that waits for room. */
  ghost predicate End(s: Session, written: seq<Word>, taken: seq<Word>, inQueue: seq<Word>, outQueue: seq<Word>,
                      pending: seq<Word>)
  {
    && 4 * s.total <= |written| && inQueue == written[4 * s.total..]
    && taken + outQueue + pending == Output(s, Blocks(written, s.total))
  }

  lemma EndAccepts(s: Session, written: seq<Word>, taken: seq<Word>, inQueue: seq<Word>, outQueue: seq<Word>,
                   pending: seq<Word>, w: Word)
    requires End(s, written, taken, inQueue, outQueue, pending)
    ensures End(s, Accepted(written, inQueue, w), taken, Accepted(inQueue, inQueue, w), outQueue, pending)
    ensures Blocks(Accepted(written, inQueue, w), s.total) == Blocks(written, s.total)
  {
    BlocksExtended(written, [w], s.total);
  }

  lemma EndHandsOut(s: Session, written: seq<Word>, taken: seq<Word>, inQueue: seq<Word>, outQueue: seq<Word>,
                    pending: seq<Word>)
    requires End(s, written, taken, inQueue, outQueue, pending)
    ensures End(s, written, HandedOut(taken, outQueue), inQueue, Rest(outQueue), pending)
  {
    HandingOut(taken, outQueue);
  }

  lemma EndDeliversMac(s: Session, written: seq<Word>, taken: seq<Word>, inQueue: seq<Word>, outQueue: seq<Word>,
                       pending: seq<Word>)
    requires End(s, written, taken, inQueue, outQueue, pending)
    ensures End(s, written, taken, inQueue, outQueue + pending, [])
  {
    Regroup(taken, outQueue, pending);
    assert taken + (outQueue + pending) + [] == taken + (outQueue + pending);
  }

  lemma FlowEnds(s: Session, written: seq<Word>, taken: seq<Word>, inQueue: seq<Word>, outQueue: seq<Word>,
                 ctxIv: Block, curMac: Block, tag: Block)
    requires Flow(s, written, taken, s.total, inQueue, outQueue, ctxIv, curMac)
    requires IsCcm(s.mode) ==> tag == Xor(curMac, s.cipher.Encrypt(ctxIv[..13] + [0, 0, 0]))
    ensures End(s, written, taken, inQueue, outQueue,
                if s.mode == CcmEncrypt then WordsOfBlock(Swap16(tag)) else [])
    ensures IsCcm(s.mode) ==> tag == Tag(s, Process(s, Blocks(written, s.total)))
  {
  }

  lemma Regroup<T>(a: seq<T>, b: seq<T>, c: seq<T>)
    ensures a + (b + c) == (a + b) + c
  {
  }

  /** `aes` encrypts one block under a key. 16-byte registers are values. */
  class Engine {
    const aes: (Block, Block) -> Block
    const input: Fifo<Word>
    const output: Fifo<Word>
    var busy: bool            // bit 31 of Cnt
    var macOk: bool           // bit 21 of Cnt
    var mode: Mode            // AESMode
    var key: Block            // CurKey
    var iv: Block             // IV
    var mac: Block            // MAC
    var blkCnt: nat
    var remBlocks: nat
    var ctxKey: Block         // Ctx
    var ctxIv: Block
    var curMac: Block
    var outputMac: Block
    var outputMacDue: bool

    // since the last transfer was started: how it was started, what was accepted, what was
    // handed out, and the MAC register as it was when a decryption ended
    ghost var active: bool
    ghost var session: Session
    ghost var written: seq<Word>
    ghost var taken: seq<Word>
    ghost var comparedMac: Block

    ghost predicate Wired()
      reads this, input, output, input.entries, output.entries
    {
      && input.Valid() && output.Valid() && input != output
      && input.entries as object != output.entries as object
      && input.entries.Length == FIFO_WORDS && output.entries.Length == FIFO_WORDS
    }

    ghost function Pending(): seq<Word>
      reads this
    {
      if outputMacDue then WordsOfBlock(outputMac) else []
    }

    ghost predicate Flowing()
      requires Wired()
      reads this, input, output, input.entries, output.entries
    {
      && remBlocks <= session.total && mode == session.mode && !outputMacDue
      && session.cipher == Cipher(aes, ctxKey)
      && Flow(session, written, taken, session.total - remBlocks, input.Contents(), output.Contents(), ctxIv, curMac)
    }

    ghost predicate Finished()
      requires Wired()
      reads this, input, output, input.entries, output.entries
    {
      && remBlocks == 0
      && End(session, written, taken, input.Contents(), output.Contents(), Pending())
      && (outputMacDue ==> output.Contents() != [])
      && (session.mode == CcmDecrypt ==>
            (macOk <==> comparedMac == Swap16(Tag(session, Process(session, Blocks(written, session.total))))))
    }

    /** Nothing can be processed before more words arrive or leave. */
    ghost predicate Quiescent()
      reads this, input, output
    {
      input.numOccupied < 4 || output.numOccupied > 12
    }

    ghost predicate Valid()
      reads this, input, output, input.entries, output.entries
    {
      && Wired() && (busy ==> active && remBlocks > 0)
      && (active ==> if busy then Flowing() && Quiescent() else Finished())
    }

    constructor (aes: (Block, Block) -> Block)
      ensures Valid() && !busy && fresh(input) && fresh(output) && fresh(input.entries) && fresh(output.entries)
      ensures this.aes == aes && input.Contents() == [] && output.Contents() == []
      ensures input.entries.Length == 16 && output.entries.Length == 16
    {
      var i := new Fifo<Word>(FIFO_WORDS, [0, 0, 0, 0]);
      var o := new Fifo<Word>(FIFO_WORDS, [0, 0, 0, 0]);
      var zero: Block := seq(16, _ => 0);
      this.aes, input, output := aes, i, o;
      busy, macOk, mode, outputMacDue, active := false, false, Ctr, false, false;
      key, iv, mac, ctxKey, ctxIv, curMac, outputMac := zero, zero, zero, zero, zero, zero, zero;
      blkCnt, remBlocks := 0, 0;
    }

    // ---- the cipher context

    /** The byte loop that increments the counter block in AES_CTR_xcrypt_buffer. */
    method IncrementIv()
      modifies this`ctxIv
      ensures ctxIv == Increment(old(ctxIv))
    {
      ghost var before: seq<Byte> := ctxIv;
      var v: seq<Byte> := ctxIv;
      var bi := 15;
      assert before[..16] == before;
      while bi >= 0 && v[bi] == 255
        invariant -1 <= bi <= 15 && |v| == 16
        invariant v[..bi + 1] == before[..bi + 1]
        invariant Increment(before) == Increment(before[..bi + 1]) + v[bi + 1..]
      {
        IncrementLast(before[..bi], 255);
        assert before[..bi + 1] == before[..bi] + [255];
        v := v[bi := 0];
        bi := bi - 1;
      }
      if bi >= 0 {
        IncrementLast(before[..bi], v[bi]);
        assert before[..bi + 1] == before[..bi] + [v[bi]];
        v := v[bi := v[bi] + 1];
      }
      assert v == Increment(before);
      ctxIv := v;
    }

    /** AES_CTR_xcrypt_buffer on one block. */
    method Xcrypt(buf: Block) returns (r: Block)
      modifies this`ctxIv
      ensures r == Xor(buf, aes(ctxKey, old(ctxIv))) && ctxIv == Increment(old(ctxIv))
    {
      var buffer := aes(ctxKey, ctxIv);
      r := XorBuffer(buf, buffer);
      IncrementIv();
    }

    method XorBuffer(buf: Block, buffer: Block) returns (r: Block)
      ensures r == Xor(buf, buffer)
    {
      r := buf;
      for i := 0 to 16
        invariant forall k | 0 <= k < i :: r[k] == XorByte(buf[k], buffer[k])
        invariant forall k | i <= k < 16 :: r[k] == buf[k]
      {
        r := r[i := XorByte(r[i], buffer[i])];
      }
    }

    // ---- starting

    /** The key and the first counter block of a CCM transfer: the two, the nonce, and a
        three-byte counter at 1. */
    method FirstCounter() returns (v: Block)
      ensures v == CounterBlock(Swap16(iv)[4..], 1)
    {
      var swapped := Swap16(iv);
      v := swapped[0 := 2];
      for i := 0 to 12
        invariant v[0] == 2 && forall k | 1 <= k < 1 + i :: v[k] == swapped[3 + k]
        invariant forall k | 1 + i <= k < 16 :: v[k] == swapped[k]
      {
        v := v[1 + i := v[4 + i]];
      }
      v := v[13 := 0][14 := 0][15 := 1];
      assert v == [2] + swapped[4..] + BigEndian24(1);
    }

    /** The cipher context and the first value of the running MAC. */
    method StartContext(macLen: nat)
      requires remBlocks < 0x1_0000 && macLen < 8
      modifies this`ctxKey, this`ctxIv, this`curMac
      ensures var s := StartSession(mode, Cipher(aes, Swap16(key)), iv, macLen, remBlocks);
        ctxKey == s.cipher.key && ctxIv == s.iv0 && (IsCcm(mode) ==> curMac == s.mac0)
    {
      ctxKey := Swap16(key);
      if IsCcm(mode) {
        var macLen' := if macLen < 1 then 1 else macLen;
        ctxIv := FirstCounter();
        var b0 := ctxIv[0 := 2 + 8 * macLen'];
        b0 := b0[13 := remBlocks / 0x1000][14 := (remBlocks / 0x10) % 0x100][15 := (16 * remBlocks) % 0x100];
        FirstBlockBytes(Swap16(iv)[4..], macLen', remBlocks, b0);
        curMac := aes(ctxKey, b0);
      } else {
        ctxIv := Swap16(iv);
      }
    }

    /** The MAC register, written whole. */
    method LoadMac(b: Block)
      requires Valid()
      modifies this`mac
      ensures Valid() && mac == b
    {
      hide Flow, End, Tag, Process, Blocks, Swap16;
      mac := b;
    }

    /** A transfer of at least one block begins. */
    method Begin(macLen: nat)
      requires Wired() && input.Contents() == [] && output.Contents() == []
      requires 0 < remBlocks < 0x1_0000 && macLen < 8 && !outputMacDue
      modifies this`session, this`written, this`taken, this`ctxKey, this`ctxIv, this`curMac
      ensures Wired() && Flowing() && written == [] && taken == []
      ensures session == StartSession(mode, Cipher(aes, Swap16(key)), iv, macLen, remBlocks)
    {
      hide Flow, End, StartSession, Swap16;
      written, taken := [], [];
      session := StartSession(mode, Cipher(aes, Swap16(key)), iv, macLen, remBlocks);
      StartContext(macLen);
      FlowBegins(session, ctxIv, curMac);
    }

    /** The step of WriteCnt that sets the start bit, in a mode and with a MAC length field. */
    method StartTransfer(m: Mode, macLen: nat)
      requires Valid() && !busy && input.Contents() == [] && output.Contents() == []
      requires blkCnt < 0x1_0000_0000 && macLen < 8 && (IsCcm(m) ==> blkCnt % 0x1_0000 == 0)
      modifies this`macOk, this`mode, this`outputMacDue, this`remBlocks, this`written, this`taken, this`busy,
        this`active
      modifies this`session, this`ctxKey, this`ctxIv, this`curMac
      ensures Valid() && mode == m && !macOk && busy == active == (blkCnt / 0x1_0000 > 0)
      ensures busy ==> written == [] && taken == []
      ensures busy ==> session == StartSession(m, Cipher(aes, Swap16(key)), iv, macLen, blkCnt / 0x1_0000)
    {
      hide Flow, End, StartSession, Swap16, Flowing, Finished;
      macOk, mode, outputMacDue := false, m, false;
      remBlocks := blkCnt / 0x1_0000;
      busy, active := remBlocks > 0, remBlocks > 0;
      if remBlocks > 0 {
        Begin(macLen);
      }
    }

    // ---- one block

    method ReadBlock() returns (data: Block)
      requires Wired() && input.numOccupied >= 4
      modifies input
      ensures Wired() && input.entries == old(input.entries)
      ensures var c := old(input.Contents()); data == BlockOf(c[0], c[1], c[2], c[3])
      ensures input.Contents() == old(input.Contents())[4..]
    {
      ghost var c := input.Contents();
      var w0 := input.Read();
      assert input.Contents() == c[1..];
      var w1 := input.Read();
      assert input.Contents() == c[2..];
      var w2 := input.Read();
      assert input.Contents() == c[3..];
      var w3 := input.Read();
      assert input.Contents() == c[4..];
      data := BlockOf(w0, w1, w2, w3);
    }

    method WriteWords(data: Block)
      requires Wired() && output.numOccupied <= FIFO_WORDS - 4
      modifies output, output.entries
      ensures Wired() && output.entries == old(output.entries)
      ensures output.Contents() == old(output.Contents()) + WordsOfBlock(data)
    {
      ghost var c := output.Contents();
      var w0: Word, w1: Word, w2: Word, w3: Word := data[0..4], data[4..8], data[8..12], data[12..16];
      WriteTwo(w0, w1);
      WriteTwo(w2, w3);
      Regroup(c, [w0, w1], [w2, w3]);
      assert [w0, w1] + [w2, w3] == WordsOfBlock(data);
    }

    method WriteTwo(v: Word, w: Word)
      requires Wired() && output.numOccupied <= FIFO_WORDS - 2
      modifies output, output.entries
      ensures Wired() && output.entries == old(output.entries)
      ensures output.Contents() == old(output.Contents()) + [v, w]
    {
      ghost var c := output.Contents();
      output.Write(v);
      output.Write(w);
      Regroup(c, [v], [w]);
    }

    /** ProcessBlock_CCM_Decrypt, ProcessBlock_CCM_Encrypt and ProcessBlock_CTR: they differ in
        when the plaintext is at hand. */
    method TransformBlock(data: Block) returns (out: Block)
      modifies this`ctxIv, this`curMac
      ensures var x := Xor(Swap16(data), aes(ctxKey, old(ctxIv)));
        && out == Swap16(x) && ctxIv == Increment(old(ctxIv))
        && (mode == CcmDecrypt ==> curMac == aes(ctxKey, Xor(old(curMac), x)))
        && (mode == CcmEncrypt ==> curMac == aes(ctxKey, Xor(old(curMac), Swap16(data))))
        && (mode == Ctr ==> curMac == old(curMac))
    {
      var dataRev := Swap16(data);
      match mode {
        case CcmDecrypt =>
          dataRev := Xcrypt(dataRev);
          curMac := XorBuffer(curMac, dataRev);
          curMac := aes(ctxKey, curMac);
        case CcmEncrypt =>
          curMac := XorBuffer(curMac, dataRev);
          dataRev := Xcrypt(dataRev);
          curMac := aes(ctxKey, curMac);
        case Ctr =>
          dataRev := Xcrypt(dataRev);
      }
      out := Swap16(dataRev);
    }

    method MoveBlock() returns (data: Block)
      requires Wired() && input.numOccupied >= 4 && output.numOccupied <= 12
      modifies this`ctxIv, this`curMac, input, output, output.entries
      ensures Wired() && input.entries == old(input.entries) && output.entries == old(output.entries)
      ensures var c := old(input.Contents()); data == BlockOf(c[0], c[1], c[2], c[3])
      ensures input.Contents() == old(input.Contents())[4..]
      ensures var x := Xor(Swap16(data), aes(ctxKey, old(ctxIv)));
        && output.Contents() == old(output.Contents()) + WordsOfBlock(Swap16(x))
        && ctxIv == Increment(old(ctxIv))
        && (mode == CcmDecrypt ==> curMac == aes(ctxKey, Xor(old(curMac), x)))
        && (mode == CcmEncrypt ==> curMac == aes(ctxKey, Xor(old(curMac), Swap16(data))))
    {
      data := ReadBlock();
      var out := TransformBlock(data);
      WriteWords(out);
    }

    method ProcessOne()
      requires Wired() && Flowing() && remBlocks > 0
      requires input.numOccupied >= 4 && output.numOccupied <= 12
      modifies this`ctxIv, this`curMac, this`remBlocks, input, output, output.entries
      ensures Wired() && input.entries == old(input.entries) && output.entries == old(output.entries)
      ensures Flowing() && remBlocks == old(remBlocks) - 1 && output.numOccupied >= 4
    {
      hide Flow, Swap16, Xor, WordsOfBlock, Increment, BlockOf;
      ghost var k, inQueue, outQueue := session.total - remBlocks, input.Contents(), output.Contents();
      ghost var iv0, mac0 := ctxIv, curMac;
      var data := MoveBlock();
      remBlocks := remBlocks - 1;
      FlowStep(session, written, taken, k, inQueue, outQueue, iv0, mac0, data, Xor(Swap16(data), aes(ctxKey, iv0)),
        curMac);
    }

    // ---- running

    /** The part of Update that runs when the last block is done: the final MAC is compared
        with the MAC register or readied for output. */
    method FinishTransfer()
      modifies this`ctxIv, this`curMac, this`outputMac, this`outputMacDue, this`macOk, this`busy, this`comparedMac
      ensures !busy && comparedMac == mac && (outputMacDue <==> mode == CcmEncrypt || old(outputMacDue))
      ensures IsCcm(mode) ==> curMac == Xor(old(curMac), aes(ctxKey, old(ctxIv)[..13] + [0, 0, 0]))
      ensures mode == CcmDecrypt ==> (macOk <==> mac == Swap16(curMac))
      ensures mode == CcmEncrypt ==> outputMac == Swap16(curMac)
      ensures mode != CcmDecrypt ==> !macOk
    {
      comparedMac := mac;
      if mode == CcmDecrypt {
        FinalMac();
        CompareMac();
      } else if mode == CcmEncrypt {
        FinalMac();
        outputMac := Swap16(curMac);
        outputMacDue := true;
        macOk := false;
      } else {
        macOk := false;
      }
      busy := false;
    }

    method FinalMac()
      modifies this`ctxIv, this`curMac
      ensures curMac == Xor(old(curMac), aes(ctxKey, old(ctxIv)[..13] + [0, 0, 0]))
    {
      ghost var iv0 := ctxIv;
      ctxIv := ctxIv[13 := 0][14 := 0][15 := 0];
      assert ctxIv == iv0[..13] + [0, 0, 0];
      curMac := Xcrypt(curMac);
    }

    method CompareMac()
      modifies this`macOk
      ensures macOk <==> mac == Swap16(curMac)
    {
      var ok, m, c := true, mac, curMac;
      for i := 0 to 16
        invariant ok <==> forall k | 0 <= k < i :: c[15 - k] == m[k]
      {
        if c[15 - i] != m[i] {
          ok := false;
        }
      }
      assert ok <==> forall k | 0 <= k < 16 :: Swap16(c)[k] == m[k];
      macOk := ok;
    }

    method CompleteTransfer()
      requires Wired() && Flowing() && remBlocks == 0 && output.numOccupied > 0
      modifies this`ctxIv, this`curMac, this`outputMac, this`outputMacDue, this`macOk, this`busy, this`comparedMac
      ensures Wired() && Finished() && !busy && comparedMac == mac
    {
      ghost var iv0, mac0, inQueue, outQueue := ctxIv, curMac, input.Contents(), output.Contents();
      FinishTransfer();
      FlowEnds(session, written, taken, inQueue, outQueue, iv0, mac0, curMac);
    }

    method Update()
      requires Wired() && Flowing() && busy && remBlocks > 0
      modifies this`ctxIv, this`curMac, this`remBlocks, input, output, output.entries
      modifies this`outputMac, this`outputMacDue, this`macOk, this`busy, this`comparedMac
      ensures Wired() && input.entries == old(input.entries) && output.entries == old(output.entries)
      ensures if busy then Flowing() && Quiescent() && remBlocks > 0 else Finished() && comparedMac == mac
    {
      while input.numOccupied >= 4 && output.numOccupied <= 12 && remBlocks > 0
        invariant Wired() && Flowing() && input.entries == old(input.entries) && output.entries == old(output.entries)
        invariant remBlocks == 0 ==> output.numOccupied > 0
        invariant busy
        decreases remBlocks
      {
        ProcessOne();
      }
      if remBlocks == 0 {
        CompleteTransfer();
      }
    }

    // ---- the guest's side

    method AcceptWord(val: Word)
      requires Wired()
      modifies this`written, input, input.entries
      ensures Wired() && input.entries == old(input.entries)
      ensures written == Accepted(old(written), old(input.Contents()), val)
      ensures input.Contents() == Accepted(old(input.Contents()), old(input.Contents()), val)
    {
      var full := input.IsFull();
      input.Write(val);
      written := if full then written else written + [val];
    }

    method HandOut() returns (ret: Word)
      requires Wired()
      modifies this`taken, output
      ensures Wired() && output.entries == old(output.entries)
      ensures taken == HandedOut(old(taken), old(output.Contents())) &&
        output.Contents() == Rest(old(output.Contents()))
      ensures !old(output.IsEmpty()) ==> ret == old(output.Contents())[0]
    {
      var empty := output.IsEmpty();
      ret := output.Read();
      taken := if empty then taken else taken + [ret];
    }

    method DeliverMac()
      requires Wired() && outputMacDue && output.numOccupied <= 12
      modifies this`outputMacDue, output, output.entries
      ensures Wired() && output.entries == old(output.entries) && !outputMacDue
      ensures output.Contents() == old(output.Contents()) + WordsOfBlock(outputMac)
    {
      WriteWords(outputMac);
      outputMacDue := false;
    }

    method AcceptWhileBusy(val: Word)
      requires Wired() && Flowing() && busy && remBlocks > 0
      modifies this`ctxIv, this`curMac, this`remBlocks, input, input.entries, output, output.entries, this`written
      modifies this`outputMac, this`outputMacDue, this`macOk, this`busy, this`comparedMac
      ensures Wired() && input.entries == old(input.entries) && output.entries == old(output.entries)
      ensures if busy then Flowing() && Quiescent() && remBlocks > 0 else Finished() && comparedMac == mac
      ensures written == Accepted(old(written), old(input.Contents()), val)
    {
      hide Flow, End;
      FlowAccepts(session, written, taken, session.total - remBlocks, input.Contents(), output.Contents(), ctxIv,
        curMac, val);
      AcceptWord(val);
      Update();
    }

    method AcceptWhileIdle(val: Word)
      requires Wired() && (active ==> Finished())
      modifies this`written, input, input.entries
      ensures Wired() && input.entries == old(input.entries)
      ensures active ==> Finished()
      ensures written == Accepted(old(written), old(input.Contents()), val)
    {
      hide End;
      if active {
        EndAccepts(session, written, taken, input.Contents(), output.Contents(), Pending(), val);
      }
      AcceptWord(val);
    }

    /** A word written to the input FIFO; a full FIFO drops it. */
    method WriteInputFIFO(val: Word)
      requires Valid()
      modifies this`ctxIv, this`curMac, this`remBlocks, input, input.entries, output, output.entries, this`written
      modifies this`outputMac, this`outputMacDue, this`macOk, this`busy, this`comparedMac
      ensures active && busy ==> input.numOccupied < 4 || output.numOccupied > 12
      ensures Valid() && input.entries == old(input.entries) && output.entries == old(output.entries)
      ensures written == Accepted(old(written), old(input.Contents()), val)
      ensures if old(busy) then !busy ==> comparedMac == mac else !busy && comparedMac == old(comparedMac)
    {
      if busy {
        AcceptWhileBusy(val);
      } else {
        AcceptWhileIdle(val);
      }
    }

    method HandOutWhileBusy() returns (ret: Word)
      requires Wired() && Flowing() && busy && remBlocks > 0
      modifies this`ctxIv, this`curMac, this`remBlocks, input, output, output.entries, this`taken
      modifies this`outputMac, this`outputMacDue, this`macOk, this`busy, this`comparedMac
      ensures Wired() && input.entries == old(input.entries) && output.entries == old(output.entries)
      ensures if busy then Flowing() && Quiescent() && remBlocks > 0 else Finished() && comparedMac == mac
      ensures taken == HandedOut(old(taken), old(output.Contents())) &&
        (!old(output.IsEmpty()) ==> ret == old(output.Contents())[0])
    {
      hide Flow, End;
      FlowHandsOut(session, written, taken, session.total - remBlocks, input.Contents(), output.Contents(), ctxIv,
        curMac);
      ret := HandOut();
      Update();
    }

    method HandOutWhileIdle() returns (ret: Word)
      requires Wired() && (active ==> Finished())
      modifies this`taken, this`outputMacDue, output, output.entries
      ensures Wired() && output.entries == old(output.entries)
      ensures active ==> Finished()
      ensures taken == HandedOut(old(taken), old(output.Contents())) &&
        (!old(output.IsEmpty()) ==> ret == old(output.Contents())[0])
    {
      hide End;
      if active {
        EndHandsOut(session, written, taken, input.Contents(), output.Contents(), Pending());
        EndDeliversMac(session, written, HandedOut(taken, output.Contents()), input.Contents(),
          Rest(output.Contents()), Pending());
      }
      ret := HandOut();
      if outputMacDue && output.numOccupied <= 12 {
        DeliverMac();
      }
    }

    /** A word read from the output FIFO. While blocks remain this makes room for the next;
        afterwards it lets a waiting MAC follow. */
    method ReadOutputFIFO() returns (ret: Word)
      requires Valid()
      modifies this`ctxIv, this`curMac, this`remBlocks, input, output, output.entries, this`taken
      modifies this`outputMac, this`outputMacDue, this`macOk, this`busy, this`comparedMac
      ensures active && busy ==> input.numOccupied < 4 || output.numOccupied > 12
      ensures Valid() && input.entries == old(input.entries) && output.entries == old(output.entries)
      ensures taken == HandedOut(old(taken), old(output.Contents())) &&
        (!old(output.IsEmpty()) ==> ret == old(output.Contents())[0])
      ensures if old(busy) then !busy ==> comparedMac == mac else !busy && comparedMac == old(comparedMac)
    {
      if busy {
        ret := HandOutWhileBusy();
      } else {
        ret := HandOutWhileIdle();
      }
    }
  }

  /** The session that a start with these registers opens. In counter mode there is no MAC. */
  function StartSession(m: Mode, cipher: Cipher, iv: Block, macLen: nat, n: nat): (s: Session)
    requires macLen < 8 && n < 0x1_0000
    ensures s.mode == m && s.cipher == cipher && s.total == n
  {
    if IsCcm(m) then CcmSession(m, cipher, Swap16(iv)[4..], if macLen < 1 then 1 else macLen, n)
    else Session(m, cipher, Swap16(iv), Swap16(iv), n)
  }

  lemma FirstBlockBytes(nonce: Nonce, macLen: nat, n: nat, b0: Block)
    requires macLen < 8 && n < 0x1_0000
    requires b0 ==
      CounterBlock(nonce, 1)[0 := 2 + 8 * macLen][13 := n / 0x1000][14 := (n / 0x10) % 0x100][15 := (16 * n) % 0x100]
    ensures b0 == FirstBlock(nonce, macLen, 16 * n)
  {
    assert BigEndian24(16 * n) == [n / 0x1000, (n / 0x10) % 0x100, (16 * n) % 0x100];
  }

  /** While a transfer is under way, the words of which `pos` were accepted, a word can be
      written or one can be read; afterwards everything was handed out. */
  lemma NeverStuck(e: Engine, words: seq<Word>, pos: nat)
    requires e.Valid() && e.active && |words| == 4 * e.session.total && pos <= |words| && e.written == words[..pos]
    requires e.input.IsFull() || pos == |words|
    requires e.output.IsEmpty()
    ensures pos == |words| && !e.busy && e.input.Contents() == []
    ensures e.taken == Output(e.session, Blocks(words, e.session.total))
    ensures e.session.mode == CcmDecrypt ==>
      (e.macOk <==> e.comparedMac == Swap16(Tag(e.session, Process(e.session, Blocks(words, e.session.total)))))
  {
    assert words[..pos] == words;
    assert e.taken + e.output.Contents() + [] == e.taken;
  }

  lemma TakenIsBounded(e: Engine, words: seq<Word>, pos: nat)
    requires e.Valid() && e.active && |words| == 4 * e.session.total && pos <= |words| && e.written == words[..pos]
    ensures |e.taken| + e.output.numOccupied <= |Output(e.session, Blocks(words, e.session.total))|
  {
    if !e.busy {
      assert words[..pos] == words;
    }
  }

  /** Feeds a whole transfer through the FIFOs. `prefersWrite` decides, step by step, whether a
      word is written or read whenever both are possible. There always is a possible step,
      and what comes out does not depend on the choices. */
  method Transfer(e: Engine, words: seq<Word>, prefersWrite: nat -> bool) returns (out: seq<Word>)
    requires e.Valid() && e.busy && e.written == e.taken == [] && |words| == 4 * e.session.total
    modifies e, e.input, e.output, e.input.entries, e.output.entries
    ensures e.Valid() && !e.busy && e.input.Contents() == [] && e.output.Contents() == []
    ensures e.input.entries == old(e.input.entries) && e.output.entries == old(e.output.entries)
    ensures e.iv == old(e.iv) && e.key == old(e.key) && e.mac == old(e.mac) && e.blkCnt == old(e.blkCnt)
    ensures out == Output(old(e.session), Blocks(words, old(e.session).total))
    ensures old(e.session).mode == CcmDecrypt ==>
      (e.macOk <==> e.mac == Swap16(Tag(old(e.session), Process(old(e.session), Blocks(words, old(e.session).total)))))
  {
    hide Flow, End, Output, Blocks, Process, Tag, Swap16, Engine.Flowing, Engine.Finished;
    ghost var s := e.session;
    ghost var expected := Output(s, Blocks(words, s.total));
    var pos, step := 0, 0;
    out := [];
    TakenIsBounded(e, words, 0);
    while pos < |words| || !e.output.IsEmpty()
      invariant e.Valid() && e.active && e.session == s
      invariant pos <= |words| && e.written == words[..pos] && e.taken == out
      invariant |out| + e.output.numOccupied <= |expected|
      invariant e.input.entries == old(e.input.entries) && e.output.entries == old(e.output.entries)
      invariant e.iv == old(e.iv) && e.key == old(e.key) && e.mac == old(e.mac) && e.blkCnt == old(e.blkCnt)
      invariant !e.busy ==> e.comparedMac == e.mac
      decreases |words| - pos + |expected| - |out|
    {
      var canWrite := pos < |words| && !e.input.IsFull();
      if canWrite && (e.output.IsEmpty() || prefersWrite(step)) {
        e.WriteInputFIFO(words[pos]);
        pos := pos + 1;
      } else {
        if e.output.IsEmpty() {
          NeverStuck(e, words, pos);
        }
        var w := e.ReadOutputFIFO();
        out := out + [w];
      }
      TakenIsBounded(e, words, pos);
      step := step + 1;
    }
    NeverStuck(e, words, pos);
    assert words[..pos] == words;
  }

  function Opposite(m: Mode): (r: Mode)
    requires m != CcmDecrypt
    ensures (IsCcm(r) <==> IsCcm(m)) && (r == CcmDecrypt <==> m == CcmEncrypt)
  {
    if m == CcmEncrypt then CcmDecrypt else Ctr
  }

  /** What a transfer puts out begins with as many words as went in. */
  lemma OutputStarts(s: Session, words: seq<Word>)
    requires |words| == 4 * s.total
    ensures var p := Process(s, Blocks(words, s.total)); var out := Output(s, Blocks(words, s.total)); var n := |words|;
      && |out| == n + (if s.mode == CcmEncrypt then 4 else 0)
      && Blocks(out[..n], s.total) == p.outs
      && (s.mode == CcmEncrypt ==> BlockOf(out[n], out[n + 1], out[n + 2], out[n + 3]) == Swap16(Tag(s, p)))
  {
    hide Process, Blocks, Tag, Swap16, BlockOf, WordsOfBlock, WordsOf;
    var p := Process(s, Blocks(words, s.total));
    BlocksOfItsWords(p.outs);
    OutputSplits(WordsOf(p.outs), if s.mode == CcmEncrypt then WordsOfBlock(Swap16(Tag(s, p))) else []);
    BlockWords(Swap16(Tag(s, p)));
  }

  /** Put in again, they give the words back, and the MAC of the second transfer is the one
      that the first put out. */
  lemma OutputOpens(s: Session, d: Session, words: seq<Word>)
    requires s.mode != CcmDecrypt && d == s.(mode := Opposite(s.mode)) && |words| == 4 * s.total
    ensures var p := Process(s, Blocks(words, s.total));
      Output(d, p.outs) == words && Tag(d, Process(d, p.outs)) == Tag(s, p)
  {
    hide Process, Blocks, Swap16, BlockOf, WordsOfBlock, WordsOf;
    var p := Process(s, Blocks(words, s.total));
    SecondPassUndoesFirst(s, d, Blocks(words, s.total));
    WordsOfBlocks(words, s.total);
    assert words[..4 * s.total] == words;
    assert words + [] == words;
  }

  lemma BlocksOfItsWords(bs: seq<Block>)
    ensures Blocks(WordsOf(bs), |bs|) == bs
  {
    BlocksOfWords(bs, []);
    assert WordsOf(bs) + [] == WordsOf(bs);
  }

  lemma OutputSplits(body: seq<Word>, tail: seq<Word>)
    ensures (body + tail)[..|body|] == body
    ensures forall i | 0 <= i < |tail| :: (body + tail)[|body| + i] == tail[i]
  {
  }

  /** A CCM encryption, whatever the order of FIFO accesses, puts out the encrypted message and
      the authentication value of RFC 3610: key and nonce are the reversed registers, the
      blocks are reversed on the way in and out. */
  method Seal(e: Engine, macLen: nat, words: seq<Word>, prefersWrite: nat -> bool) returns (out: seq<Word>)
    requires e.Valid() && !e.busy && e.input.Contents() == [] && e.output.Contents() == [] && macLen < 8
    requires 0x1_0000 <= e.blkCnt < 0x1_0000_0000 && e.blkCnt % 0x1_0000 == 0 && |words| == 4 * (e.blkCnt / 0x1_0000)
    modifies e, e.input, e.output, e.input.entries, e.output.entries
    ensures e.Valid() && !e.busy && e.input.Contents() == [] && e.output.Contents() == []
    ensures var cipher := Cipher(e.aes, Swap16(old(e.key)));
      out == Sealed(cipher, Swap16(old(e.iv))[4..], if macLen < 1 then 1 else macLen, Blocks(words, |words| / 4))
  {
    hide Output, Blocks, Process, Tag, Swap16, StartSession, Sealed, Engine.Flowing, Engine.Finished;
    e.StartTransfer(CcmEncrypt, macLen);
    ghost var s := e.session;
    out := Transfer(e, words, prefersWrite);
    CcmSessionSeals(s.cipher, e.iv, macLen, Blocks(words, s.total));
  }

  /** The ciphertext words and the authentication value of RFC 3610. */
  function Sealed(cipher: Cipher, nonce: Nonce, m: nat, ins: seq<Block>): seq<Word>
    requires m < 8 && |ins| < 0x1_0000
  {
    WordsOf(SwapAll(EncryptMessage(cipher, nonce, SwapAll(ins)))) +
      WordsOfBlock(Swap16(AuthValue(cipher, nonce, m, SwapAll(ins))))
  }

  lemma CcmSessionSeals(cipher: Cipher, iv: Block, macLen: nat, ins: seq<Block>)
    requires macLen < 8 && |ins| < 0x1_0000
    ensures Output(StartSession(CcmEncrypt, cipher, iv, macLen, |ins|), ins)
      == Sealed(cipher, Swap16(iv)[4..], if macLen < 1 then 1 else macLen, ins)
  {
    hide Output, Swap16;
    EncryptionIsCcm(cipher, Swap16(iv)[4..], if macLen < 1 then 1 else macLen, ins);
  }

  /** The second transfer: the output of the first is fed back in the opposite mode, the MAC
      register loaded with the words that followed it. */
  method FeedBack(e: Engine, m: Mode, macLen: nat, ghost words: seq<Word>, out: seq<Word>, choice: nat -> bool)
    returns (back: seq<Word>)
    requires e.Valid() && !e.busy && e.input.Contents() == [] && e.output.Contents() == [] && m != CcmDecrypt
    requires 0x1_0000 <= e.blkCnt < 0x1_0000_0000 && macLen < 8 && e.blkCnt % 0x1_0000 == 0
    requires |words| == 4 * (e.blkCnt / 0x1_0000)
    requires var s := StartSession(m, Cipher(e.aes, Swap16(e.key)), e.iv, macLen, e.blkCnt / 0x1_0000);
      out == Output(s, Blocks(words, s.total))
    modifies e, e.input, e.output, e.input.entries, e.output.entries
    ensures back == words && (m == CcmEncrypt ==> e.macOk)
  {
    hide Output, Blocks, Process, Tag, Swap16, StartSession, Opposite, BlockOf, Engine.Flowing, Engine.Finished;
    ghost var s := StartSession(m, Cipher(e.aes, Swap16(e.key)), e.iv, macLen, e.blkCnt / 0x1_0000);
    ghost var d := s.(mode := Opposite(m));
    SessionReversed(m, s.cipher, e.iv, macLen, s.total);
    OutputStarts(s, words);
    OutputOpens(s, d, words);
    var n := 4 * (e.blkCnt / 0x1_0000);
    if m == CcmEncrypt {
      e.LoadMac(BlockOf(out[n], out[n + 1], out[n + 2], out[n + 3]));
    }
    e.StartTransfer(Opposite(m), macLen);
    back := Transfer(e, out[..n], choice);
  }

  /** Encrypting and decrypting again with the same registers, whatever the order of FIFO accesses
      in either transfer. In CCM mode the engine reports the MAC as correct. */
  method ThereAndBack(e: Engine, m: Mode, macLen: nat, words: seq<Word>, first: nat -> bool, second: nat -> bool)
    returns (out: seq<Word>, back: seq<Word>)
    requires e.Valid() && !e.busy && e.input.Contents() == [] && e.output.Contents() == [] && m != CcmDecrypt
    requires 0x1_0000 <= e.blkCnt < 0x1_0000_0000 && macLen < 8 && e.blkCnt % 0x1_0000 == 0
    requires |words| == 4 * (e.blkCnt / 0x1_0000)
    modifies e, e.input, e.output, e.input.entries, e.output.entries
    ensures var s := StartSession(m, Cipher(e.aes, Swap16(old(e.key))), old(e.iv), macLen, old(e.blkCnt) / 0x1_0000);
      out == Output(s, Blocks(words, s.total))
    ensures back == words && (m == CcmEncrypt ==> e.macOk)
  {
    hide Output, Blocks, Process, Tag, Swap16, StartSession, Opposite, BlockOf, Engine.Flowing, Engine.Finished;
    e.StartTransfer(m, macLen);
    out := Transfer(e, words, first);
    back := FeedBack(e, m, macLen, words, out, second);
  }

  lemma SessionReversed(m: Mode, cipher: Cipher, iv: Block, macLen: nat, n: nat)
    requires m != CcmDecrypt && macLen < 8 && n < 0x1_0000
    ensures StartSession(Opposite(m), cipher, iv, macLen, n) ==
      StartSession(m, cipher, iv, macLen, n).(mode := Opposite(m))
  {
  }

  /** Processing one more block of the word stream. */
  lemma NextBlock(s: Session, words: seq<Word>, k: nat, data: Block)
    requires 4 * (k + 1) <= |words|
    requires data == BlockOf(words[4 * k], words[4 * k + 1], words[4 * k + 2], words[4 * k + 3])
    ensures var p, q := Process(s, Blocks(words, k)), Process(s, Blocks(words, k + 1));
      q == ProcessBlock(s, p, data) && WordsOf(q.outs) == WordsOf(p.outs) + WordsOfBlock(q.outs[k])
  {
    assert Blocks(words, k + 1) == Blocks(words, k) + [data];
    ProcessSnoc(s, Blocks(words, k), data);
    var p, q := Process(s, Blocks(words, k)), Process(s, Blocks(words, k + 1));
    assert q.outs[..k] == p.outs;
  }
}
