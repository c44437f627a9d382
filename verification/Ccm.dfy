/** Counter mode and CCM over 16-byte blocks as the AES engine computes them, and as RFC 3610
    defines them. The block cipher is an arbitrary function. A register or FIFO word is the
    four bytes it occupies in memory. */
module Ccm {

  type Byte = b: int | 0 <= b < 256
  type Block = s: seq<Byte> | |s| == 16 witness seq(16, _ => 0)
  type Word = s: seq<Byte> | |s| == 4 witness [0, 0, 0, 0]

  /** The block cipher under one key. */
  datatype Cipher = Cipher(aes: (Block, Block) -> Block, key: Block) {
    function Encrypt(b: Block): Block { aes(key, b) }
  }

  // ---- bytes

  function Exp2(n: nat): nat { if n == 0 then 1 else 2 * Exp2(n - 1) }

  /** Exclusive or of the n low bits. */
  function XorBits(a: nat, b: nat, n: nat): nat {
    if n == 0 then 0 else 2 * XorBits(a / 2, b / 2, n - 1) + (a + b) % 2
  }

  lemma Halves(q: nat, a: nat, b: nat)
    ensures (2 * q + (a + b) % 2) / 2 == q
    ensures ((2 * q + (a + b) % 2) + b) % 2 == a % 2
  {
  }

  lemma {:induction false} XorBitsTwice(a: nat, b: nat, n: nat)
    requires a < Exp2(n)
    ensures XorBits(a, b, n) < Exp2(n)
    ensures XorBits(XorBits(a, b, n), b, n) == a
  {
    if n > 0 {
      var q := XorBits(a / 2, b / 2, n - 1);
      XorBitsTwice(a / 2, b / 2, n - 1);
      Halves(q, a, b);
      assert XorBits(a, b, n) == 2 * q + (a + b) % 2;
      assert a == 2 * (a / 2) + a % 2;
    }
  }

  lemma Exp2Of8()
    ensures Exp2(8) == 256
  {
    assert Exp2(4) == 16;
    assert Exp2(6) == 64;
  }

  function XorByte(a: Byte, b: Byte): Byte {
    Exp2Of8();
    XorBitsTwice(a, b, 8);
    XorBits(a, b, 8)
  }

  /** The places of a byte, from the lowest. */
  const WEIGHTS: seq<nat> := [1, 2, 4, 8, 16, 32, 64, 128]

  predicate BitAt(v: nat, k: nat)
    requires k < 8
  {
    v / WEIGHTS[k] % 2 == 1
  }

  lemma LowBit(v: nat)
    ensures BitAt(v, 0) <==> v % 2 == 1
  {
  }

  lemma HalfFirst(a: nat, k: nat)
    requires 0 < k < 8
    ensures BitAt(a, k) <==> BitAt(a / 2, k - 1)
  {
    assert a / WEIGHTS[k] == a / 2 / WEIGHTS[k - 1];
  }

  lemma SumParity(a: nat, b: nat)
    ensures (a + b) % 2 == 1 <==> a % 2 != b % 2
  {
  }

  lemma {:induction false} XorBitsAt(a: nat, b: nat, n: nat, k: nat)
    requires k < n && k < 8
    ensures BitAt(XorBits(a, b, n), k) <==> BitAt(a, k) != BitAt(b, k)
  {
    hide BitAt;
    var x, q := XorBits(a, b, n), XorBits(a / 2, b / 2, n - 1);
    Halves(q, a, b);
    assert x == 2 * q + (a + b) % 2;
    hide XorBits;
    SumParity(a, b);
    if k == 0 {
      LowBit(x);
      LowBit(a);
      LowBit(b);
    } else {
      XorBitsAt(a / 2, b / 2, n - 1, k - 1);
      HalfFirst(x, k);
      HalfFirst(a, k);
      HalfFirst(b, k);
    }
  }

  /** Each bit is set where exactly one of the two is. */
  lemma XorByteBits(a: Byte, b: Byte, k: nat)
    requires k < 8
    ensures XorByte(a, b) / WEIGHTS[k] % 2 == 1 <==> a / WEIGHTS[k] % 2 != b / WEIGHTS[k] % 2
  {
    XorBitsAt(a, b, 8, k);
    assert BitAt(XorByte(a, b), k) <==> BitAt(a, k) != BitAt(b, k);
  }

  function Xor(a: Block, b: Block): Block {
    seq(16, i requires 0 <= i < 16 => XorByte(a[i], b[i]))
  }

  lemma XorTwice(a: Block, b: Block)
    ensures Xor(Xor(a, b), b) == a
  {
    forall i | 0 <= i < 16 ensures Xor(Xor(a, b), b)[i] == a[i] {
      Exp2Of8();
      XorBitsTwice(a[i], b[i], 8);
    }
  }

  function Swap16(b: Block): Block {
    seq(16, i requires 0 <= i < 16 => b[15 - i])
  }

  lemma SwapTwice(b: Block)
    ensures Swap16(Swap16(b)) == b
  {
  }

  // ---- words and blocks

  function BlockOf(w0: Word, w1: Word, w2: Word, w3: Word): Block { w0 + w1 + w2 + w3 }

  function WordsOfBlock(b: Block): (ws: seq<Word>)
    ensures |ws| == 4
  {
    [b[0..4], b[4..8], b[8..12], b[12..16]]
  }

  /** The first k blocks of a word stream. */
  function Blocks(words: seq<Word>, k: nat): (bs: seq<Block>)
    requires 4 * k <= |words|
    ensures |bs| == k
  {
    seq(k, j requires 0 <= j < k => BlockOf(words[4 * j], words[4 * j + 1], words[4 * j + 2], words[4 * j + 3]))
  }

  function WordsOf(bs: seq<Block>): (ws: seq<Word>)
    ensures |ws| == 4 * |bs|
  {
    if bs == [] then [] else WordsOf(bs[..|bs| - 1]) + WordsOfBlock(bs[|bs| - 1])
  }

  lemma BlockWords(b: Block)
    ensures var ws := WordsOfBlock(b); BlockOf(ws[0], ws[1], ws[2], ws[3]) == b
  {
  }

  lemma {:induction false} BlocksOfWords(bs: seq<Block>, rest: seq<Word>)
    ensures Blocks(WordsOf(bs) + rest, |bs|) == bs
  {
    if bs != [] {
      var n := |bs| - 1;
      var last := WordsOfBlock(bs[n]);
      BlocksOfWords(bs[..n], last + rest);
      assert WordsOf(bs) + rest == WordsOf(bs[..n]) + (last + rest);
      BlockWords(bs[n]);
      assert Blocks(WordsOf(bs) + rest, |bs|)[..n] == bs[..n];
    }
  }

  lemma WordsBlock(w0: Word, w1: Word, w2: Word, w3: Word)
    ensures WordsOfBlock(BlockOf(w0, w1, w2, w3)) == [w0, w1, w2, w3]
  {
    var b := BlockOf(w0, w1, w2, w3);
    assert b[0..4] == w0 && b[4..8] == w1 && b[8..12] == w2 && b[12..16] == w3;
  }

  lemma {:induction false} WordsOfBlocks(words: seq<Word>, k: nat)
    requires 4 * k <= |words|
    ensures WordsOf(Blocks(words, k)) == words[..4 * k]
  {
    if k > 0 {
      WordsOfBlocks(words, k - 1);
      assert Blocks(words, k)[..k - 1] == Blocks(words, k - 1);
      var n := 4 * (k - 1);
      WordsBlock(words[n], words[n + 1], words[n + 2], words[n + 3]);
      assert words[..4 * k] == words[..n] + [words[n], words[n + 1], words[n + 2], words[n + 3]];
    }
  }

  // ---- the counter

  /** Big-endian increment of a byte string, wrapping around. */
  function Increment(s: seq<Byte>): (r: seq<Byte>)
    ensures |r| == |s|
  {
    if s == [] then s
    else
      var n := |s| - 1;
      if s[n] == 255 then Increment(s[..n]) + [0] else s[..n] + [s[n] + 1]
  }

  function IncrementBy(iv: Block, k: nat): Block {
    if k == 0 then iv else Increment(IncrementBy(iv, k - 1))
  }

  /** A 24-bit number, most significant byte first. */
  function BigEndian24(c: nat): (s: seq<Byte>)
    requires c < 0x100_0000
    ensures |s| == 3
  {
    [c / 0x1_0000, (c / 0x100) % 0x100, c % 0x100]
  }

  lemma IncrementLast(s: seq<Byte>, b: Byte)
    ensures Increment(s + [b]) == if b == 255 then Increment(s) + [0] else s + [b + 1]
  {
    assert (s + [b])[..|s|] == s;
  }

  lemma IncrementCounter(prefix: seq<Byte>, c: nat)
    requires c + 1 < 0x100_0000
    ensures Increment(prefix + BigEndian24(c)) == prefix + BigEndian24(c + 1)
  {
    var hi: Byte, mid: Byte, lo: Byte := c / 0x1_0000, (c / 0x100) % 0x100, c % 0x100;
    IncrementLast(prefix + [hi, mid], lo);
    IncrementLast(prefix + [hi], mid);
    IncrementLast(prefix, hi);
    assert prefix + BigEndian24(c) == prefix + [hi, mid] + [lo];
    assert prefix + [hi, mid] == prefix + [hi] + [mid];
    CarryBytes(c);
    var next := BigEndian24(c + 1);
    if lo < 255 {
      assert prefix + [hi, mid] + [lo + 1] == prefix + next;
    } else if mid < 255 {
      assert prefix + [hi] + [mid + 1] + [0] == prefix + next;
    } else {
      assert prefix + [hi + 1] + [0] + [0] == prefix + next;
    }
  }

  lemma BytesOf(hi: Byte, mid: Byte, lo: Byte)
    ensures BigEndian24(0x1_0000 * hi + 0x100 * mid + lo) == [hi, mid, lo]
  {
    var c := 0x1_0000 * hi + 0x100 * mid + lo;
    assert c / 0x100 == 0x100 * hi + mid;
  }

  lemma CarryBytes(c: nat)
    requires c + 1 < 0x100_0000
    ensures var hi, mid, lo := c / 0x1_0000, (c / 0x100) % 0x100, c % 0x100;
      && c == 0x1_0000 * hi + 0x100 * mid + lo
      && (lo == 255 && mid == 255 ==> hi < 255)
      && BigEndian24(c + 1) ==
           if lo < 255 then [hi, mid, lo + 1] else if mid < 255 then [hi, mid + 1, 0] else [hi + 1, 0, 0]
  {
    hide BigEndian24;
    var hi, mid, lo := c / 0x1_0000, (c / 0x100) % 0x100, c % 0x100;
    assert c == 0x1_0000 * hi + 0x100 * mid + lo;
    if lo < 255 {
      BytesOf(hi, mid, lo + 1);
    } else if mid < 255 {
      BytesOf(hi, mid + 1, 0);
    } else {
      BytesOf(hi + 1, 0, 0);
    }
  }

  // ---- one transfer

  datatype Mode = CcmDecrypt | CcmEncrypt | Ctr

  predicate IsCcm(m: Mode) { m != Ctr }

  /** What is fixed when a transfer starts: the keyed cipher, the first counter block and the
      first value of the running MAC. */
  datatype Session = Session(mode: Mode, cipher: Cipher, iv0: Block, mac0: Block, total: nat)

  datatype Progress = Progress(iv: Block, mac: Block, outs: seq<Block>)

  /** One block through the engine: both byte orders are reversed on the way in and out, and
      the plaintext enters the running MAC. */
  function ProcessBlock(s: Session, p: Progress, data: Block): Progress {
    var d := Swap16(data);
    var x := Xor(d, s.cipher.Encrypt(p.iv));
    var plain := if s.mode == CcmDecrypt then x else d;
    var mac := if IsCcm(s.mode) then s.cipher.Encrypt(Xor(p.mac, plain)) else p.mac;
    Progress(Increment(p.iv), mac, p.outs + [Swap16(x)])
  }

  function Process(s: Session, ins: seq<Block>): (p: Progress)
    ensures |p.outs| == |ins|
  {
    if ins == [] then Progress(s.iv0, s.mac0, [])
    else ProcessBlock(s, Process(s, ins[..|ins| - 1]), ins[|ins| - 1])
  }

  lemma ProcessSnoc(s: Session, ins: seq<Block>, data: Block)
    ensures Process(s, ins + [data]) == ProcessBlock(s, Process(s, ins), data)
  {
    assert (ins + [data])[..|ins|] == ins;
  }

  /** The MAC as the engine finishes it: the counter field of the current counter block is
      cleared and the running MAC encrypted with the result. */
  function Tag(s: Session, p: Progress): Block {
    Xor(p.mac, s.cipher.Encrypt(p.iv[..13] + [0, 0, 0]))
  }

  /** All words a transfer puts out. */
  function Output(s: Session, ins: seq<Block>): seq<Word> {
    WordsOf(Process(s, ins).outs) +
    if s.mode == CcmEncrypt then WordsOfBlock(Swap16(Tag(s, Process(s, ins)))) else []
  }

  // ---- decryption undoes encryption

  /** One block encrypted and decrypted again from the same counter and running MAC. */
  lemma BlockComesBack(e: Session, d: Session, p: Progress, q: Progress, data: Block)
    requires d == if e.mode == CcmEncrypt then e.(mode := CcmDecrypt) else e
    requires e.mode != CcmDecrypt && p.iv == q.iv && p.mac == q.mac
    ensures var p', q' := ProcessBlock(e, p, data),
      ProcessBlock(d, q, Swap16(Xor(Swap16(data), e.cipher.Encrypt(p.iv))));
      q'.outs == q.outs + [data] && q'.iv == p'.iv && q'.mac == p'.mac
  {
    var x, ks := Swap16(data), e.cipher.Encrypt(p.iv);
    SwapTwice(Xor(x, ks));
    XorTwice(x, ks);
    SwapTwice(data);
  }

  /** Decrypting what was encrypted, or applying counter mode twice, gives the input back and
      leaves the same counter and MAC. */
  lemma {:induction false} SecondPassUndoesFirst(e: Session, d: Session, ins: seq<Block>)
    requires d == if e.mode == CcmEncrypt then e.(mode := CcmDecrypt) else e
    requires e.mode != CcmDecrypt
    ensures var p := Process(e, ins); var q := Process(d, p.outs);
      q.outs == ins && q.mac == p.mac && q.iv == p.iv
  {
    if ins != [] {
      var n := |ins| - 1;
      SecondPassUndoesFirst(e, d, ins[..n]);
      var p, p' := Process(e, ins), Process(e, ins[..n]);
      assert p.outs[..n] == p'.outs;
      BlockComesBack(e, d, p', Process(d, p'.outs), ins[n]);
      assert ins == ins[..n] + [ins[n]];
    }
  }

  // ---- RFC 3610

  type Nonce = s: seq<Byte> | |s| == 12 witness seq(12, _ => 0)

  /** Section 2.3: counter block A_i, with a length field of three bytes. */
  function CounterBlock(nonce: Nonce, i: nat): Block
    requires i < 0x100_0000
  {
    [2] + nonce + BigEndian24(i)
  }

  /** Section 2.2: block B_0, without associated data; m is the encoded MAC length. */
  function FirstBlock(nonce: Nonce, m: nat, length: nat): Block
    requires m < 8 && length < 0x100_0000
  {
    [8 * m + 2] + nonce + BigEndian24(length)
  }

  /** Section 2.2: the CBC-MAC over B_0 and the message. */
  function CbcMac(cipher: Cipher, first: Block, message: seq<Block>): Block {
    if message == [] then cipher.Encrypt(first)
    else cipher.Encrypt(Xor(CbcMac(cipher, first, message[..|message| - 1]), message[|message| - 1]))
  }

  /** Section 2.3: the message encrypted with S_1, S_2, ... */
  function EncryptMessage(cipher: Cipher, nonce: Nonce, message: seq<Block>): seq<Block>
    requires |message| < 0xFF_FFFF
  {
    seq(|message|, i requires 0 <= i < |message| => Xor(message[i], cipher.Encrypt(CounterBlock(nonce, i + 1))))
  }

  /** Section 2.3: the authentication value, the MAC encrypted with S_0, before both are cut to their
      first M bytes; the engine always puts out all sixteen. */
  function AuthValue(cipher: Cipher, nonce: Nonce, m: nat, message: seq<Block>): Block
    requires m < 8 && 16 * |message| < 0x100_0000
  {
    Xor(CbcMac(cipher, FirstBlock(nonce, m, 16 * |message|), message), cipher.Encrypt(CounterBlock(nonce, 0)))
  }

  function SwapAll(bs: seq<Block>): (r: seq<Block>)
    ensures |r| == |bs| && forall i | 0 <= i < |bs| :: r[i] == Swap16(bs[i])
  {
    seq(|bs|, i requires 0 <= i < |bs| => Swap16(bs[i]))
  }

  /** The session a CCM transfer of n blocks starts with. */
  function CcmSession(mode: Mode, cipher: Cipher, nonce: Nonce, m: nat, n: nat): Session
    requires m < 8 && n < 0x1_0000
  {
    Session(mode, cipher, CounterBlock(nonce, 1), cipher.Encrypt(FirstBlock(nonce, m, 16 * n)), n)
  }

  /** The counter never carries out of its three bytes, so every block is encrypted with the
      key stream block the RFC prescribes. */
  lemma {:induction false} EngineFollowsRfc(cipher: Cipher, nonce: Nonce, m: nat, n: nat, ins: seq<Block>)
    requires m < 8 && |ins| <= n < 0x1_0000
    ensures var s := CcmSession(CcmEncrypt, cipher, nonce, m, n); var p := Process(s, ins);
      && p.iv == CounterBlock(nonce, |ins| + 1)
      && p.outs == SwapAll(EncryptMessage(cipher, nonce, SwapAll(ins)))
      && p.mac == CbcMac(cipher, FirstBlock(nonce, m, 16 * n), SwapAll(ins))
  {
    var s := CcmSession(CcmEncrypt, cipher, nonce, m, n);
    if ins == [] {
      assert SwapAll(EncryptMessage(cipher, nonce, SwapAll(ins))) == [];
    } else {
      var k := |ins| - 1;
      EngineFollowsRfc(cipher, nonce, m, n, ins[..k]);
      RfcStep(cipher, nonce, FirstBlock(nonce, m, 16 * n), ins, Process(s, ins[..k]), Process(s, ins));
    }
  }

  lemma RfcStep(cipher: Cipher, nonce: Nonce, first: Block, ins: seq<Block>, p: Progress, q: Progress)
    requires 0 < |ins| < 0x1_0000
    requires p.iv == CounterBlock(nonce, |ins|)
    requires var msg := SwapAll(ins[..|ins| - 1]);
      p.outs == SwapAll(EncryptMessage(cipher, nonce, msg)) && p.mac == CbcMac(cipher, first, msg)
    requires exists s: Session :: s.mode == CcmEncrypt && s.cipher == cipher && q == ProcessBlock(s, p, ins[|ins| - 1])
    ensures q.iv == CounterBlock(nonce, |ins| + 1)
    ensures q.outs == SwapAll(EncryptMessage(cipher, nonce, SwapAll(ins)))
    ensures q.mac == CbcMac(cipher, first, SwapAll(ins))
  {
    var k := |ins| - 1;
    IncrementCounter([2] + nonce, k + 1);
    var msg := SwapAll(ins);
    assert msg[..k] == SwapAll(ins[..k]);
    var expected := SwapAll(EncryptMessage(cipher, nonce, msg));
    assert expected[..k] == SwapAll(EncryptMessage(cipher, nonce, msg[..k]));
    assert expected == expected[..k] + [expected[k]];
  }

  /** A complete CCM encryption puts out the encrypted message and the authentication value
      of RFC 3610, in the byte order of the engine. */
  lemma EncryptionIsCcm(cipher: Cipher, nonce: Nonce, m: nat, ins: seq<Block>)
    requires m < 8 && |ins| < 0x1_0000
    ensures var s := CcmSession(CcmEncrypt, cipher, nonce, m, |ins|);
      Output(s, ins) == WordsOf(SwapAll(EncryptMessage(cipher, nonce, SwapAll(ins))))
                        + WordsOfBlock(Swap16(AuthValue(cipher, nonce, m, SwapAll(ins))))
  {
    var s := CcmSession(CcmEncrypt, cipher, nonce, m, |ins|);
    EngineFollowsRfc(cipher, nonce, m, |ins|, ins);
    var p := Process(s, ins);
    assert p.iv[..13] + [0, 0, 0] == CounterBlock(nonce, 0);
  }
}
