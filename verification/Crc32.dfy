/** CRC-32 by table, against the bit-serial definition of RFC 1952 section 8. A word is its bits,
    the lowest first. */
module Crc32 {

  type Bits = seq<bool>
  type Byte = s: Bits | |s| == 8 witness seq(8, _ => false)
  type Word = s: Bits | |s| == 32 witness seq(32, _ => false)

  function Zeroes(n: nat): (s: Bits)
    ensures |s| == n && forall i | 0 <= i < n :: !s[i]
  {
    seq(n, _ => false)
  }

  function Ones(n: nat): (s: Bits)
    ensures |s| == n && forall i | 0 <= i < n :: s[i]
  {
    seq(n, _ => true)
  }

  function Xor(a: Bits, b: Bits): (c: Bits)
    requires |a| == |b|
    ensures |c| == |a| && forall i | 0 <= i < |a| :: c[i] == (a[i] != b[i])
  {
    seq(|a|, i requires 0 <= i < |a| => a[i] != b[i])
  }

  function Reverse(a: Bits): (b: Bits)
    ensures |b| == |a| && forall i | 0 <= i < |a| :: b[i] == a[|a| - 1 - i]
  {
    seq(|a|, i requires 0 <= i < |a| => a[|a| - 1 - i])
  }

  function ShiftUp(a: Word, n: nat): Word
    requires n <= 32
  {
    Zeroes(n) + a[..32 - n]
  }

  function ShiftDown(a: Word, n: nat): Word
    requires n <= 32
  {
    a[n..] + Zeroes(n)
  }

  /** The exponents of the CRC-32 polynomial, the bits set in 0x04C11DB7. */
  const EXPONENTS: set<nat> := {0, 1, 2, 4, 5, 7, 8, 10, 11, 12, 16, 22, 23, 26}

  function Polynomial(): (p: Word)
    ensures forall i | 0 <= i < 32 :: p[i] == (i in EXPONENTS)
  {
    seq(32, i => i in EXPONENTS)
  }

  /** The same bits in reverse order, 0xEDB88320. */
  function Reversed(): Word { Reverse(Polynomial()) }

  /** The number a bit string stands for, and the n low bits of a number. */
  function Value(s: Bits): (v: nat) {
    if s == [] then 0 else (if s[0] then 1 else 0) + 2 * Value(s[1..])
  }

  function BitsOf(v: nat, n: nat): (s: Bits)
    ensures |s| == n
  {
    if n == 0 then [] else [v % 2 == 1] + BitsOf(v / 2, n - 1)
  }

  lemma {:induction false} BitsOfValue(s: Bits)
    ensures BitsOf(Value(s), |s|) == s
  {
    if s != [] {
      BitsOfValue(s[1..]);
    }
  }

  lemma ByteValue(s: Byte)
    ensures Value(s) < 256
  {
    ValueBelow(s);
    assert Power2(8) == 256 by {
      assert Power2(4) == 16;
    }
  }

  function Power2(n: nat): nat { if n == 0 then 1 else 2 * Power2(n - 1) }

  lemma {:induction false} ValueBelow(s: Bits)
    ensures Value(s) < Power2(|s|)
  {
    if s != [] {
      ValueBelow(s[1..]);
    }
  }

  // ---- the bit-serial definition

  /** One bit shifted out. */
  function Step(c: Word): Word {
    if c[0] then Xor(Reversed(), ShiftDown(c, 1)) else ShiftDown(c, 1)
  }

  function Steps(c: Word, n: nat): Word {
    if n == 0 then c else Step(Steps(c, n - 1))
  }

  function Widened(b: Bits): Word
    requires |b| <= 32
  {
    b + Zeroes(32 - |b|)
  }

  /** The register after a message, from a value of the register. */
  function Register(c: Word, message: seq<Byte>): Word {
    if message == [] then c
    else Steps(Xor(Register(c, message[..|message| - 1]), Widened(message[|message| - 1])), 8)
  }

  function Crc(message: seq<Byte>): Word {
    Xor(Register(Ones(32), message), Ones(32))
  }

  // ---- the remainder of a division of polynomials

  /** A polynomial with coefficients 0 and 1: the exponents of its terms. */
  type Poly = set<nat>

  function Plus(a: Poly, b: Poly): (c: Poly)
    ensures forall k :: k in c <==> (k in a) != (k in b)
  {
    (a - b) + (b - a)
  }

  /** Multiplication by a power of x. */
  function Times(a: Poly, n: nat): (c: Poly)
    ensures forall k :: k in c <==> k >= n && k - n in a
  {
    set k | k in a :: k + n
  }

  /** x^32 + x^26 + x^23 + x^22 + x^16 + x^12 + x^11 + x^10 + x^8 + x^7 + x^5 + x^4 + x^2 + x + 1 */
  const GENERATOR: Poly := {0, 1, 2, 4, 5, 7, 8, 10, 11, 12, 16, 22, 23, 26, 32}

  /** The generator times a sum of powers of x. */
  function Multiple(ks: seq<nat>): Poly {
    if ks == [] then {} else Plus(Multiple(ks[..|ks| - 1]), Times(GENERATOR, ks[|ks| - 1]))
  }

  /** Two polynomials that leave the same remainder. */
  ghost predicate Congruent(a: Poly, b: Poly) { exists ks :: Plus(a, b) == Multiple(ks) }

  /** A bit string, its first bit the highest of n coefficients. */
  function PolyOf(s: Bits, n: nat): (p: Poly)
    requires |s| <= n
    ensures forall k :: k in p <==> n - |s| <= k < n && s[n - 1 - k]
  {
    set i | 0 <= i < |s| && s[i] :: n - 1 - i
  }

  /** All bytes one after the other, the lowest bit first. */
  function AllBits(message: seq<Byte>): (s: Bits)
    ensures |s| == 8 * |message| && forall i | 0 <= i < |s| :: s[i] == message[i / 8][i % 8]
  {
    seq(8 * |message|, i requires 0 <= i < 8 * |message| => message[i / 8][i % 8])
  }

  /** A CRC-32 (RFC 1952, section 8): its complement is the remainder, below x^32, of the message
      with 32 zeroes behind it and its first 32 bits inverted. */
  ghost predicate IsCrc(message: seq<Byte>, crc: Word) {
    var n := 8 * |message| + 32;
    Congruent(Plus(PolyOf(AllBits(message), n), PolyOf(Ones(32), n)), PolyOf(Xor(crc, Ones(32)), 32))
  }

  lemma {:induction false} SumOfMultiples(ks: seq<nat>, ls: seq<nat>)
    ensures Multiple(ks + ls) == Plus(Multiple(ks), Multiple(ls))
  {
    if ls == [] {
      assert ks + ls == ks;
    } else {
      var last := ls[|ls| - 1];
      SumOfMultiples(ks, ls[..|ls| - 1]);
      assert (ks + ls)[..|ks + ls| - 1] == ks + ls[..|ls| - 1];
      hide Multiple;
      assert Plus(Plus(Multiple(ks), Multiple(ls[..|ls| - 1])), Times(GENERATOR, last))
        == Plus(Multiple(ks), Plus(Multiple(ls[..|ls| - 1]), Times(GENERATOR, last)));
    }
  }

  lemma {:induction false} ShiftedMultiple(ks: seq<nat>, n: nat) returns (ls: seq<nat>)
    ensures Times(Multiple(ks), n) == Multiple(ls)
  {
    hide Multiple, Times, Plus;
    if ks == [] {
      ls := [];
      NoMultiple(n);
    } else {
      var last := ks[|ks| - 1];
      var init := ShiftedMultiple(ks[..|ks| - 1], n);
      ls := init + [last + n];
      assert ks == ks[..|ks| - 1] + [last];
      OneMultipleMore(ks[..|ks| - 1], last);
      OneMultipleMore(init, last + n);
      ShiftedTwice(GENERATOR, last, n);
      ShiftedSum(Multiple(ks[..|ks| - 1]), Times(GENERATOR, last), n);
    }
  }

  lemma NoMultiple(n: nat)
    ensures Times(Multiple([]), n) == Multiple([])
  {
  }

  lemma OneMultipleMore(ks: seq<nat>, k: nat)
    ensures Multiple(ks + [k]) == Plus(Multiple(ks), Times(GENERATOR, k))
  {
    assert (ks + [k])[..|ks|] == ks;
  }

  lemma ShiftedTwice(a: Poly, k: nat, n: nat)
    ensures Times(Times(a, k), n) == Times(a, k + n)
  {
  }

  lemma ShiftedSum(a: Poly, b: Poly, n: nat)
    ensures Times(Plus(a, b), n) == Plus(Times(a, n), Times(b, n))
  {
  }

  lemma CongruentSum(a: Poly, b: Poly, c: Poly, d: Poly)
    requires Congruent(a, b) && Congruent(c, d)
    ensures Congruent(Plus(a, c), Plus(b, d))
  {
    hide Plus, Multiple;
    var ks :| Plus(a, b) == Multiple(ks);
    var ls :| Plus(c, d) == Multiple(ls);
    SumOfMultiples(ks, ls);
    PairedSums(a, b, c, d);
  }

  lemma PairedSums(a: Poly, b: Poly, c: Poly, d: Poly)
    ensures Plus(Plus(a, c), Plus(b, d)) == Plus(Plus(a, b), Plus(c, d))
  {
    var p, q := Plus(Plus(a, c), Plus(b, d)), Plus(Plus(a, b), Plus(c, d));
    hide Plus;
    assert forall k :: k in p <==> k in q;
  }

  lemma CongruentShift(a: Poly, b: Poly, n: nat)
    requires Congruent(a, b)
    ensures Congruent(Times(a, n), Times(b, n))
  {
    var ks :| Plus(a, b) == Multiple(ks);
    var ls := ShiftedMultiple(ks, n);
    assert Plus(Times(a, n), Times(b, n)) == Times(Plus(a, b), n);
  }

  lemma CongruentThrough(a: Poly, b: Poly, c: Poly)
    requires Congruent(a, b) && Congruent(b, c)
    ensures Congruent(a, c)
  {
    CongruentSum(a, b, b, c);
    var ks :| Plus(Plus(a, b), Plus(b, c)) == Multiple(ks);
    assert Plus(a, c) == Plus(Plus(a, b), Plus(b, c));
  }

  lemma CongruentSame(a: Poly)
    ensures Congruent(a, a)
  {
    assert Plus(a, a) == Multiple([]);
  }

  /** Shifting a bit out is multiplying by x. */
  lemma StepMultiplies(c: Word)
    ensures Congruent(Times(PolyOf(c, 32), 1), PolyOf(Step(c), 32))
  {
    var a, b := Times(PolyOf(c, 32), 1), PolyOf(Step(c), 32);
    var ks := if c[0] then [0] else [];
    forall k ensures k in Plus(a, b) <==> k in Multiple(ks) {
      assert Multiple([]) == {};
      assert c[0] ==> Multiple(ks) == Plus(Multiple(ks[..0]), Times(GENERATOR, 0));
    }
    assert Plus(a, b) == Multiple(ks);
  }

  lemma {:induction false} StepsMultiply(c: Word, n: nat)
    ensures Congruent(Times(PolyOf(c, 32), n), PolyOf(Steps(c, n), 32))
  {
    hide Step, PolyOf, Congruent;
    var p := PolyOf(c, 32);
    if n == 0 {
      assert Times(p, 0) == p;
      CongruentSame(p);
    } else {
      StepsMultiply(c, n - 1);
      CongruentShift(Times(p, n - 1), PolyOf(Steps(c, n - 1), 32), 1);
      StepMultiplies(Steps(c, n - 1));
      assert Times(Times(p, n - 1), 1) == Times(p, n);
      CongruentThrough(Times(p, n), Times(PolyOf(Steps(c, n - 1), 32), 1), PolyOf(Steps(c, n), 32));
    }
  }

  /** The bits of a message followed by a byte. */
  lemma OneByteMore(message: seq<Byte>, b: Byte)
    ensures var n := 8 * |message| + 32;
      PolyOf(AllBits(message + [b]), n + 8) ==
        Plus(Times(PolyOf(AllBits(message), n), 8), Times(PolyOf(Widened(b), 32), 8))
  {
    var n := 8 * |message| + 32;
    assert AllBits(message + [b]) == AllBits(message) + b;
    forall k ensures k in PolyOf(AllBits(message + [b]), n + 8) <==>
      (k in Times(PolyOf(AllBits(message), n), 8)) != (k in Times(PolyOf(Widened(b), 32), 8)) {
    }
  }

  /** The register is the remainder of what was read. */
  lemma {:induction false} RegisterIsRemainder(message: seq<Byte>)
    ensures var n := 8 * |message| + 32;
      Congruent(Plus(PolyOf(AllBits(message), n), PolyOf(Ones(32), n)), PolyOf(Register(Ones(32), message), 32))
  {
    hide Steps, Congruent;
    var n := 8 * |message| + 32;
    if message == [] {
      assert Plus(PolyOf(AllBits(message), n), PolyOf(Ones(32), n)) == PolyOf(Ones(32), 32);
      CongruentSame(PolyOf(Ones(32), 32));
    } else {
      var init, b := message[..|message| - 1], message[|message| - 1];
      var r, w := Register(Ones(32), init), Widened(b);
      var m, f := PolyOf(AllBits(init), n - 8), PolyOf(Ones(32), n - 8);
      RegisterIsRemainder(init);
      CongruentShift(Plus(m, f), PolyOf(r, 32), 8);
      CongruentSame(Times(PolyOf(w, 32), 8));
      CongruentSum(Times(Plus(m, f), 8), Times(PolyOf(r, 32), 8), Times(PolyOf(w, 32), 8), Times(PolyOf(w, 32), 8));
      StepsMultiply(Xor(r, w), 8);
      assert PolyOf(Xor(r, w), 32) == Plus(PolyOf(r, 32), PolyOf(w, 32));
      assert Times(Plus(PolyOf(r, 32), PolyOf(w, 32)), 8) == Plus(Times(PolyOf(r, 32), 8), Times(PolyOf(w, 32), 8));
      assert message == init + [b];
      OneByteMore(init, b);
      assert PolyOf(Ones(32), n) == Times(f, 8);
      var now := Plus(PolyOf(AllBits(message), n), PolyOf(Ones(32), n));
      assert now == Plus(Times(Plus(m, f), 8), Times(PolyOf(w, 32), 8));
      CongruentThrough(now, Times(PolyOf(Xor(r, w), 32), 8), PolyOf(Register(Ones(32), message), 32));
    }
  }

  lemma BitSerialIsCrc(message: seq<Byte>)
    ensures IsCrc(message, Crc(message))
  {
    hide Congruent, PolyOf;
    RegisterIsRemainder(message);
    assert Xor(Crc(message), Ones(32)) == Register(Ones(32), message);
  }

  // ---- the table

  /** The loop of _reflect: the ch low bits in reverse order. */
  method Reflect(refl0: Word, ch: nat) returns (value: Word)
    requires ch <= 32
    ensures value == Widened(Reverse(refl0[..ch]))
  {
    var refl := refl0;
    value := Zeroes(32);
    for i := 1 to ch + 1
      invariant refl == ShiftDown(refl0, i - 1)
      invariant forall k | 0 <= k < 32 :: value[k] == (ch - i < k < ch && refl0[ch - 1 - k])
    {
      if refl[0] {
        value := value[ch - i := true];
      }
      refl := ShiftDown(refl, 1);
    }
  }

  /** One step of the builder, which shifts the other way. */
  function UpStep(c: Word): Word {
    Xor(ShiftUp(c, 1), if c[31] then Polynomial() else Zeroes(32))
  }

  lemma UpStepIsReversedStep(c: Word)
    ensures Reverse(UpStep(c)) == Step(Reverse(c))
  {
    hide Polynomial, ShiftUp, ShiftDown;
    var bit := if c[31] then Polynomial() else Zeroes(32);
    ReverseOfXor(ShiftUp(c, 1), bit);
    ReverseOfShift(c);
    assert Xor(Reversed(), ShiftDown(Reverse(c), 1)) == Xor(ShiftDown(Reverse(c), 1), Reversed());
    assert Xor(ShiftDown(Reverse(c), 1), Zeroes(32)) == ShiftDown(Reverse(c), 1) && Reverse(Zeroes(32)) == Zeroes(32);
  }

  lemma ReverseOfXor(a: Bits, b: Bits)
    requires |a| == |b|
    ensures Reverse(Xor(a, b)) == Xor(Reverse(a), Reverse(b))
  {
  }

  lemma ReverseOfShift(c: Word)
    ensures Reverse(ShiftUp(c, 1)) == ShiftDown(Reverse(c), 1)
  {
  }

  lemma {:induction false} UpStepsAreReversedSteps(c: Word, n: nat)
    ensures Reverse(UpSteps(c, n)) == Steps(Reverse(c), n)
  {
    hide Step, UpStep;
    if n > 0 {
      UpStepsAreReversedSteps(c, n - 1);
      UpStepIsReversedStep(UpSteps(c, n - 1));
    }
  }

  function UpSteps(c: Word, n: nat): Word {
    if n == 0 then c else UpStep(UpSteps(c, n - 1))
  }

  /** The entry of the reflected algorithm. */
  function Entry(i: nat): Word { Steps(Widened(BitsOf(i, 8)), 8) }

  lemma {:induction false} LowBits(v: nat, n: nat, m: nat)
    requires n <= m
    ensures BitsOf(v, m)[..n] == BitsOf(v, n)
  {
    if n > 0 {
      LowBits(v / 2, n - 1, m - 1);
    }
  }

  /** _inittable: reflected, shifted the other way and reflected again, every entry is that of
      the reflected algorithm. */
  method InitTable(crctable: array<Word>)
    requires crctable.Length == 256
    modifies crctable
    ensures forall i | 0 <= i < 256 :: crctable[i] == Entry(i)
  {
    hide Entry, UpStep, BitsOf;
    for i := 0 to 256
      invariant forall k | 0 <= k < i :: crctable[k] == Entry(k)
    {
      var r := Reflect(BitsOf(i, 32), 8);
      crctable[i] := ShiftUp(r, 24);
      ghost var first := crctable[i];
      for j := 0 to 8
        invariant crctable[i] == UpSteps(first, j)
        invariant forall k | 0 <= k < i :: crctable[k] == Entry(k)
      {
        crctable[i] := UpStep(crctable[i]);
      }
      EntryBuilt(i, first);
      ghost var built := crctable[i];
      crctable[i] := Reflect(crctable[i], 32);
      WholeReversed(built);
    }
  }

  lemma WholeReversed(c: Word)
    ensures Widened(Reverse(c[..32])) == Reverse(c)
  {
    assert c[..32] == c;
    assert Reverse(c) + Zeroes(0) == Reverse(c);
  }

  lemma EntryBuilt(i: nat, first: Word)
    requires first == ShiftUp(Widened(Reverse(BitsOf(i, 32)[..8])), 24)
    ensures Reverse(UpSteps(first, 8)) == Entry(i)
  {
    hide Steps, UpSteps, BitsOf;
    LowBits(i, 8, 32);
    var b := BitsOf(i, 8);
    assert first == Zeroes(24) + Reverse(b);
    assert Reverse(first) == Widened(b);
    UpStepsAreReversedSteps(first, 8);
  }

  // ---- eight steps at once

  lemma StepIsLinear(a: Word, b: Word)
    ensures Step(Xor(a, b)) == Xor(Step(a), Step(b))
  {
    assert forall i | 0 <= i < 32 :: Step(Xor(a, b))[i] == Xor(Step(a), Step(b))[i];
  }

  lemma {:induction false} StepsAreLinear(a: Word, b: Word, n: nat)
    ensures Steps(Xor(a, b), n) == Xor(Steps(a, n), Steps(b, n))
  {
    hide Step;
    if n > 0 {
      StepsAreLinear(a, b, n - 1);
      StepIsLinear(Steps(a, n - 1), Steps(b, n - 1));
    }
  }

  lemma {:induction false} ZeroesShiftOut(h: Word, n: nat)
    requires n <= 32 && forall i | 0 <= i < n :: !h[i]
    ensures Steps(h, n) == ShiftDown(h, n)
  {
    if n > 0 {
      ZeroesShiftOut(h, n - 1);
      assert ShiftDown(ShiftDown(h, n - 1), 1) == ShiftDown(h, n);
    } else {
      assert h[0..] + Zeroes(0) == h;
    }
  }

  /** A table look-up does the eight steps of a byte. */
  lemma LookUpIsEightSteps(crc: Word, b: Byte)
    ensures var low := Xor(crc[..8], b);
      Steps(Xor(crc, Widened(b)), 8) == Xor(ShiftDown(crc, 8), Steps(Widened(low), 8))
  {
    var low := Xor(crc[..8], b);
    var high: Word := Zeroes(8) + crc[8..];
    assert Xor(crc, Widened(b)) == Xor(high, Widened(low));
    hide Steps;
    StepsAreLinear(high, Widened(low), 8);
    ZeroesShiftOut(high, 8);
    assert ShiftDown(high, 8) == ShiftDown(crc, 8);
  }

  /** The byte loop, with a table that was built. */
  method FoldBytes(crctable: array<Word>, data: seq<Byte>) returns (crc: Word)
    requires crctable.Length == 256 && forall i | 0 <= i < 256 :: crctable[i] == Entry(i)
    ensures crc == Register(Ones(32), data)
  {
    hide Steps, BitsOf, Value;
    crc := Ones(32);
    for i := 0 to |data|
      invariant crc == Register(Ones(32), data[..i])
    {
      var low := Xor(crc[..8], data[i]);
      BitsOfValue(low);
      ByteValue(low);
      LookUpIsEightSteps(crc, data[i]);
      assert data[..i + 1][..i] == data[..i];
      crc := Xor(ShiftDown(crc, 8), crctable[Value(low)]);
    }
    assert data[..|data|] == data;
  }

  class Checksum {
    const crctable: array<Word>
    var tableInited: bool

    ghost predicate Valid()
      reads this, crctable
    {
      crctable.Length == 256 && (tableInited ==> forall i | 0 <= i < 256 :: crctable[i] == Entry(i))
    }

    constructor ()
      ensures Valid() && fresh(crctable)
    {
      crctable := new Word[256](_ => Zeroes(32));
      tableInited := false;
    }

    /** CRC32 is the CRC of RFC 1952 section 8, for every message, computed bit by bit or as a
        remainder. */
    method CRC32(data: seq<Byte>) returns (r: Word)
      requires Valid()
      modifies this, crctable
      ensures Valid() && r == Crc(data) && IsCrc(data, r)
    {
      if !tableInited {
        InitTable(crctable);
        tableInited := true;
      }
      var crc := FoldBytes(crctable, data);
      r := Xor(crc, Ones(32));
      BitSerialIsCrc(data);
    }
  }
}
