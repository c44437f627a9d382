/** Counter mode through the registers and FIFOs of the AES engine, in numbers. */
module CounterMode {
  import opened Ccm
  import opened Fifos
  import opened AesEngine

  /** The number that bytes stand for, the most significant first. */
  function Number(s: seq<Byte>): nat {
    if s == [] then 0 else 0x100 * Number(s[..|s| - 1]) + s[|s| - 1]
  }

  function Power(n: nat): nat { if n == 0 then 1 else 0x100 * Power(n - 1) }

  /** The n low bytes of a number. */
  function BytesOf(v: nat, n: nat): (s: seq<Byte>)
    ensures |s| == n
  {
    if n == 0 then [] else BytesOf(v / 0x100, n - 1) + [v % 0x100]
  }

  lemma {:induction false} NumberOfBytes(v: nat, n: nat)
    requires v < Power(n)
    ensures Number(BytesOf(v, n)) == v
  {
    if n > 0 {
      NumberOfBytes(v / 0x100, n - 1);
      var s := BytesOf(v, n);
      assert s[..n - 1] == BytesOf(v / 0x100, n - 1);
    }
  }

  lemma {:induction false} BytesOfNumber(s: seq<Byte>)
    ensures BytesOf(Number(s), |s|) == s && Number(s) < Power(|s|)
  {
    if s != [] {
      var n := |s| - 1;
      BytesOfNumber(s[..n]);
      var v, b: nat := Number(s[..n]), s[n];
      assert Number(s) / 0x100 == v && Number(s) % 0x100 == b;
      assert s == s[..n] + [s[n]];
    }
  }

  /** The byte-wise increment adds one and wraps around. */
  lemma {:induction false} IncrementAddsOne(s: seq<Byte>)
    ensures Number(Increment(s)) == if Number(s) + 1 == Power(|s|) then 0 else Number(s) + 1
  {
    if s != [] {
      var n := |s| - 1;
      IncrementAddsOne(s[..n]);
      var r := Increment(s);
      assert r[..n] == if s[n] == 255 then Increment(s[..n]) else s[..n];
      BytesOfNumber(s[..n]);
    }
  }

  /** 2 to the power of 128. */
  const BLOCK_NUMBERS: nat := 0x1_0000_0000_0000_0000_0000_0000_0000_0000

  lemma PowerOf16()
    ensures Power(16) == BLOCK_NUMBERS
  {
    assert Power(4) == 0x1_0000_0000;
    assert Power(8) == 0x1_0000_0000_0000_0000;
    assert Power(12) == 0x1_0000_0000_0000_0000_0000_0000;
  }

  /** The counter block of the i-th block: the register as a number, its first byte the least
      significant, plus i. */
  function CounterAt(iv: Block, i: nat): (c: Block)
  {
    BytesOf((Number(seq(16, k requires 0 <= k < 16 => iv[15 - k])) + i) % BLOCK_NUMBERS, 16)
  }

  lemma NextCounter(v: nat)
    requires v < BLOCK_NUMBERS
    ensures Increment(BytesOf(v, 16)) == BytesOf(if v + 1 == BLOCK_NUMBERS then 0 else v + 1, 16)
  {
    hide Increment, BytesOf;
    PowerOf16();
    NumberOfBytes(v, 16);
    IncrementAddsOne(BytesOf(v, 16));
    BytesOfNumber(Increment(BytesOf(v, 16)));
  }

  lemma {:induction false} CountsUp(s: Session, iv: Block, ins: seq<Block>)
    requires s.iv0 == seq(16, k requires 0 <= k < 16 => iv[15 - k])
    ensures Process(s, ins).iv == CounterAt(iv, |ins|)
  {
    hide Increment, BytesOf, Number, Swap16, Xor;
    var first := Number(s.iv0);
    if ins == [] {
      PowerOf16();
      BytesOfNumber(s.iv0);
    } else {
      var n := |ins| - 1;
      CountsUp(s, iv, ins[..n]);
      NextCounter((first + n) % BLOCK_NUMBERS);
    }
  }

  /** Byte k of a block that counter mode puts out. */
  lemma {:induction false} StreamByte(s: Session, iv: Block, ins: seq<Block>, i: nat, k: nat)
    requires s.mode == Ctr && s.iv0 == seq(16, k requires 0 <= k < 16 => iv[15 - k]) && i < |ins| && k < 16
    ensures Process(s, ins).outs[i][k] == XorByte(ins[i][k], s.cipher.aes(s.cipher.key, CounterAt(iv, i))[15 - k])
  {
    hide XorByte, CounterAt;
    var n := |ins| - 1;
    if i < n {
      StreamByte(s, iv, ins[..n], i, k);
    } else {
      CountsUp(s, iv, ins[..n]);
    }
  }

  /** Byte p of the words that blocks are put out as. */
  lemma {:induction false} ByteOfWords(bs: seq<Block>, p: nat)
    requires p < 16 * |bs|
    ensures WordsOf(bs)[p / 4][p % 4] == bs[p / 16][p % 16]
  {
    var n := |bs| - 1;
    if p < 16 * n {
      ByteOfWords(bs[..n], p);
    } else {
      var k := p - 16 * n;
      assert p / 16 == n && p % 16 == k && p / 4 == 4 * n + k / 4 && p % 4 == k % 4;
      ByteOfBlock(bs[n], k);
    }
  }

  lemma ByteOfBlock(b: Block, k: nat)
    requires k < 16
    ensures WordsOfBlock(b)[k / 4][k % 4] == b[k]
  {
  }

  lemma ByteOfBlocks(words: seq<Word>, n: nat, p: nat)
    requires 4 * n <= |words| && p < 16 * n
    ensures Blocks(words, n)[p / 16][p % 16] == words[p / 4][p % 4]
  {
    var i, k := p / 16, p % 16;
    assert p / 4 == 4 * i + k / 4 && p % 4 == k % 4;
    InBlock(words[4 * i], words[4 * i + 1], words[4 * i + 2], words[4 * i + 3], k);
  }

  lemma InBlock(w0: Word, w1: Word, w2: Word, w3: Word, k: nat)
    requires k < 16
    ensures BlockOf(w0, w1, w2, w3)[k] == [w0, w1, w2, w3][k / 4][k % 4]
  {
  }

  /** A transfer in counter mode, whatever the order of FIFO accesses: byte p of what comes out is
      byte p of what went in, combined with a byte of the encrypted counter block. Key and counter
      are the registers from their last byte to their first, and so is the key stream. */
  method Encipher(e: Engine, macLen: nat, words: seq<Word>, prefersWrite: nat -> bool) returns (out: seq<Word>)
    requires e.Valid() && !e.busy && e.input.Contents() == [] && e.output.Contents() == [] && macLen < 8
    requires 0x1_0000 <= e.blkCnt < 0x1_0000_0000 && |words| == 4 * (e.blkCnt / 0x1_0000)
    modifies e, e.input, e.output, e.input.entries, e.output.entries
    ensures e.Valid() && !e.busy && |out| == |words|
    ensures var key := seq(16, k requires 0 <= k < 16 => old(e.key)[15 - k]);
      forall p | 0 <= p < 4 * |words| ::
        out[p / 4][p % 4] == XorByte(words[p / 4][p % 4], e.aes(key, CounterAt(old(e.iv), p / 16))[15 - p % 16])
  {
    hide Process, Blocks, Tag, XorByte, CounterAt, WordsOf, Engine.Flowing, Engine.Finished;
    e.StartTransfer(Ctr, macLen);
    ghost var s, iv, key, n := e.session, e.iv, e.key, |words| / 4;
    out := Transfer(e, words, prefersWrite);
    ghost var ins := Blocks(words, n);
    ghost var outs := Process(s, ins).outs;
    assert out == WordsOf(outs);
    forall p | 0 <= p < 4 * |words|
      ensures out[p / 4][p % 4] ==
        XorByte(words[p / 4][p % 4], s.cipher.aes(s.cipher.key, CounterAt(iv, p / 16))[15 - p % 16])
    {
      ByteOfWords(outs, p);
      ByteOfBlocks(words, n, p);
      StreamByte(s, iv, ins, p / 16, p % 16);
    }
  }

  // ---- the blocks of RFC 3610

  /** A_i and B_0 in numbers: flags for a length field of three bytes and for the MAC length, the
      nonce, and the block number or the length of the message. */
  lemma BlocksInNumbers(nonce: Nonce, m: nat, v: nat)
    requires m < 8 && v < 0x100_0000
    ensures var a, b := CounterBlock(nonce, v), FirstBlock(nonce, m, v);
      && a[0] == 3 - 1 && b[0] == 8 * m + (3 - 1) && a[1..13] == b[1..13] == nonce
      && Number(a[13..]) == Number(b[13..]) == v
  {
    var s := BigEndian24(v);
    ThreeBytes(s[0], s[1], s[2]);
    assert s == [s[0], s[1], s[2]];
    assert v == 0x1_0000 * (v / 0x1_0000) + 0x100 * (v / 0x100 % 0x100) + v % 0x100;
    assert CounterBlock(nonce, v)[13..] == FirstBlock(nonce, m, v)[13..] == s;
  }

  lemma ThreeBytes(hi: nat, mid: nat, lo: nat)
    requires hi < 0x100 && mid < 0x100 && lo < 0x100
    ensures Number([hi, mid, lo]) == 0x1_0000 * hi + 0x100 * mid + lo
  {
    assert [hi, mid, lo][..2] == [hi, mid] && [hi, mid][..1] == [hi] && [hi][..0] == [];
    assert Number([hi]) == hi && Number([hi, mid]) == 0x100 * hi + mid;
  }
}
