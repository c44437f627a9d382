/** The lossless frames of the stream: the receiver's QOI decoder, the sender's encoder, and the
    chunks of the QOI Image Format Specification version 1.0 between them. */
module Qoi {
  import opened Options

  type Byte = n: int | 0 <= n < 256

  datatype Px = Px(r: Byte, g: Byte, b: Byte, a: Byte)

  const BLACK := Px(0, 0, 0, 255)
  const CLEAR := Px(0, 0, 0, 0)

  function Hash(p: Px): (h: nat)
    ensures h < 64
  {
    var r: nat, g: nat, b: nat, a: nat := p.r, p.g, p.b, p.a;
    (r * 3 + g * 5 + b * 7 + a * 11) % 64
  }

  // ---- chunks

  /** Differences are what is added to a channel; Run counts the pixels after the first. */
  datatype Chunk =
    | Rgb(r: Byte, g: Byte, b: Byte)
    | Rgba(r: Byte, g: Byte, b: Byte, a: Byte)
    | Index(i: nat)
    | Diff(dr: int, dg: int, db: int)
    | Luma(vg: int, drg: int, dbg: int)
    | Run(more: nat)

  predicate ValidChunk(c: Chunk) {
    match c
    case Rgb(_, _, _) => true
    case Rgba(_, _, _, _) => true
    case Index(i) => i < 64
    case Diff(dr, dg, db) => -2 <= dr <= 1 && -2 <= dg <= 1 && -2 <= db <= 1
    case Luma(vg, drg, dbg) => -32 <= vg <= 31 && -8 <= drg <= 7 && -8 <= dbg <= 7
    case Run(more) => more < 62
  }

  type Index64 = s: seq<Px> | |s| == 64 witness seq(64, _ => CLEAR)

  datatype State = State(index: Index64, px: Px)

  function AllClear(n: nat): (s: seq<Px>)
    ensures |s| == n && forall i | 0 <= i < n :: s[i] == CLEAR
  {
    Repeat(CLEAR, n)
  }

  const START := State(AllClear(64), BLACK)

  function AddTo(v: Byte, d: int): Byte { (v as int + d) % 256 }

  /** The pixel a chunk stands for. */
  function Shown(c: Chunk, st: State): Px
    requires ValidChunk(c)
  {
    var px := st.px;
    match c
    case Rgb(r, g, b) => Px(r, g, b, px.a)
    case Rgba(r, g, b, a) => Px(r, g, b, a)
    case Index(i) => st.index[i]
    case Diff(dr, dg, db) => Px(AddTo(px.r, dr), AddTo(px.g, dg), AddTo(px.b, db), px.a)
    case Luma(vg, drg, dbg) => Px(AddTo(px.r, vg + drg), AddTo(px.g, vg), AddTo(px.b, vg + dbg), px.a)
    case Run(_) => px
  }

  function Apply(c: Chunk, st: State): State
    requires ValidChunk(c)
  {
    var px := Shown(c, st);
    State(st.index[Hash(px) := px], px)
  }

  function Count(c: Chunk): (n: nat)
    ensures n > 0
  {
    if c.Run? then c.more + 1 else 1
  }

  function Repeat(p: Px, n: nat): (s: seq<Px>)
    ensures |s| == n && forall i | 0 <= i < n :: s[i] == p
  {
    seq(n, _ => p)
  }

  predicate ValidChunks(cs: seq<Chunk>) { forall i | 0 <= i < |cs| :: ValidChunk(cs[i]) }

  function Final(cs: seq<Chunk>, st: State): State
    requires ValidChunks(cs)
  {
    if cs == [] then st else Apply(cs[|cs| - 1], Final(cs[..|cs| - 1], st))
  }

  /** The pixels of a chunk sequence. */
  function Expand(cs: seq<Chunk>, st: State): seq<Px>
    requires ValidChunks(cs)
  {
    if cs == [] then []
    else
      var init, last := cs[..|cs| - 1], cs[|cs| - 1];
      Expand(init, st) + Repeat(Shown(last, Final(init, st)), Count(last))
  }

  lemma {:induction false} ExpandSplit(a: seq<Chunk>, b: seq<Chunk>, st: State)
    requires ValidChunks(a) && ValidChunks(b)
    ensures ValidChunks(a + b) && Final(a + b, st) == Final(b, Final(a, st))
    ensures Expand(a + b, st) == Expand(a, st) + Expand(b, Final(a, st))
  {
    hide Shown, Apply;
    if b == [] {
      assert a + b == a;
    } else {
      var init, last := b[..|b| - 1], b[|b| - 1];
      ExpandSplit(a, init, st);
      assert (a + b)[..|a + b| - 1] == a + init && (a + b)[|a + b| - 1] == last;
    }
  }

  // ---- bytes

  function ChunkBytes(c: Chunk): (bs: seq<Byte>)
    requires ValidChunk(c)
    ensures 1 <= |bs| <= 5
  {
    match c
    case Rgb(r, g, b) => [0xFE, r, g, b]
    case Rgba(r, g, b, a) => [0xFF, r, g, b, a]
    case Index(i) => [i]
    case Diff(dr, dg, db) => [0x40 + 16 * (dr + 2) + 4 * (dg + 2) + db + 2]
    case Luma(vg, drg, dbg) => [0x80 + vg + 32, 16 * (drg + 8) + dbg + 8]
    case Run(more) => [0xC0 + more]
  }

  function Serialize(cs: seq<Chunk>): seq<Byte>
    requires ValidChunks(cs)
  {
    if cs == [] then [] else Serialize(cs[..|cs| - 1]) + ChunkBytes(cs[|cs| - 1])
  }

  /** The chunk that starts at p, and its size. Five bytes are there because eight more follow
      the last chunk. */
  function ChunkAt(d: seq<Byte>, p: nat): (r: (Chunk, nat))
    requires p + 5 <= |d|
    ensures ValidChunk(r.0) && 1 <= r.1 <= 5
  {
    var b1: nat := d[p];
    if b1 == 0xFE then (Rgb(d[p + 1], d[p + 2], d[p + 3]), 4)
    else if b1 == 0xFF then (Rgba(d[p + 1], d[p + 2], d[p + 3], d[p + 4]), 5)
    else if b1 / 64 == 0 then (Index(b1 % 64), 1)
    else if b1 / 64 == 1 then (Diff(b1 / 16 % 4 - 2, b1 / 4 % 4 - 2, b1 % 4 - 2), 1)
    else if b1 / 64 == 2 then
      var b2: nat := d[p + 1];
      (Luma(b1 % 64 - 32, b2 / 16 - 8, b2 % 16 - 8), 2)
    else (Run(b1 % 64), 1)
  }

  const PADDING: seq<Byte> := [0, 0, 0, 0, 0, 0, 0, 1]

  /** The chunks from p up to the padding. */
  function Chunks(d: seq<Byte>, p: nat): (cs: seq<Chunk>)
    requires |d| >= 8
    ensures ValidChunks(cs)
    decreases |d| - p
  {
    if p >= |d| - 8 then [] else [ChunkAt(d, p).0] + Chunks(d, p + ChunkAt(d, p).1)
  }

  lemma ChunkComesBack(before: seq<Byte>, c: Chunk, rest: seq<Byte>)
    requires ValidChunk(c) && |rest| >= 4
    ensures ChunkAt(before + ChunkBytes(c) + rest, |before|) == (c, |ChunkBytes(c)|)
  {
    var bs, d := ChunkBytes(c), before + ChunkBytes(c) + rest;
    assert forall k | 0 <= k < |bs| :: d[|before| + k] == bs[k];
    ReadBack(d, |before|, c);
  }

  lemma ReadBack(d: seq<Byte>, p: nat, c: Chunk)
    requires ValidChunk(c) && p + 5 <= |d| && forall k | 0 <= k < |ChunkBytes(c)| :: d[p + k] == ChunkBytes(c)[k]
    ensures ChunkAt(d, p) == (c, |ChunkBytes(c)|)
  {
    var bs := ChunkBytes(c);
    assert d[p + 0] == bs[0];
    match c {
      case Rgb(_, _, _) => assert d[p + 1] == bs[1] && d[p + 2] == bs[2] && d[p + 3] == bs[3];
      case Rgba(_, _, _, _) => assert d[p + 1] == bs[1] && d[p + 2] == bs[2] && d[p + 3] == bs[3] && d[p + 4] == bs[4];
      case Luma(_, drg, dbg) =>
        assert d[p + 1] == bs[1];
        Nibbles(drg + 8, dbg + 8);
      case Diff(dr, dg, db) => Quarters(dr + 2, dg + 2, db + 2);
      case _ =>
    }
  }

  lemma Nibbles(hi: nat, lo: nat)
    requires hi < 16 && lo < 16
    ensures (16 * hi + lo) / 16 == hi && (16 * hi + lo) % 16 == lo
  {
  }

  lemma Quarters(a: nat, b: nat, c: nat)
    requires a < 4 && b < 4 && c < 4
    ensures var v := 0x40 + 16 * a + 4 * b + c; v / 64 == 1 && v / 16 % 4 == a && v / 4 % 4 == b && v % 4 == c
  {
  }

  // ---- images

  datatype Decoded = NotQoi | BadHeader | Truncated | Image(w: nat, h: nat, rgb: seq<Byte>)

  const MAGIC: seq<Byte> := ['q' as int, 'o' as int, 'i' as int, 'f' as int]

  function BigEndian(d: seq<Byte>, p: nat): nat
    requires p + 4 <= |d|
  {
    var b0: nat, b1: nat, b2: nat, b3: nat := d[p], d[p + 1], d[p + 2], d[p + 3];
    ((b0 * 256 + b1) * 256 + b2) * 256 + b3
  }

  /** Three bytes a pixel; alpha is dropped. */
  function RgbBytes(ps: seq<Px>): (bs: seq<Byte>)
    ensures |bs| == 3 * |ps|
  {
    if ps == [] then []
    else
      var p := ps[|ps| - 1];
      RgbBytes(ps[..|ps| - 1]) + [p.r, p.g, p.b]
  }

  /** The image a file stands for: the first w * h pixels of its chunks. */
  function ImageOf(d: seq<Byte>): Decoded {
    if |d| < 4 || d[..4] != MAGIC then NotQoi
    else if |d| < 12 then BadHeader
    else Cropped(Expand(Chunks(d, 14), START), BigEndian(d, 4), BigEndian(d, 8))
  }

  function Cropped(pixels: seq<Px>, w: nat, h: nat): Decoded {
    if |pixels| < w * h then Truncated else Image(w, h, RgbBytes(pixels[..w * h]))
  }

  /** What the decoder still has to do: the pixels of the current run, then the chunks from p. */
  function Remaining(d: seq<Byte>, p: nat, st: State, run: nat): seq<Px>
    requires |d| >= 8
  {
    Repeat(st.px, run) + Expand(Chunks(d, p), st)
  }

  lemma NextChunk(d: seq<Byte>, p: nat, st: State)
    requires |d| >= 8 && p < |d| - 8
    ensures var (c, n) := ChunkAt(d, p);
      Remaining(d, p, st, 0) == Remaining(d, p + n, Apply(c, st), Count(c))
  {
    var (c, n) := ChunkAt(d, p);
    assert Chunks(d, p) == [c] + Chunks(d, p + n);
    ExpandSplit([c], Chunks(d, p + n), st);
    OneChunk(c, st);
    hide Shown, ChunkAt, Chunks, Expand, Final, Apply, Count;
    assert Repeat(st.px, 0) == [];
  }

  lemma OneChunk(c: Chunk, st: State)
    requires ValidChunk(c)
    ensures Expand([c], st) == Repeat(Shown(c, st), Count(c)) && Final([c], st) == Apply(c, st)
    ensures Apply(c, st).px == Shown(c, st)
  {
    hide Shown;
    assert [c][..0] == [];
  }

  lemma RunPixel(d: seq<Byte>, p: nat, st: State, run: nat)
    requires |d| >= 8 && run > 0
    ensures Remaining(d, p, st, run) == [st.px] + Remaining(d, p, st, run - 1)
  {
    hide Expand, Chunks;
  }

  /** The decoder: any input, no read outside it. */
  method Decode(d: seq<Byte>) returns (r: Decoded)
    ensures r == ImageOf(d)
  {
    hide BigEndian, Expand, Chunks, RgbBytes;
    if |d| < 4 || d[..4] != MAGIC {
      return NotQoi;
    }
    if |d| < 12 {
      return BadHeader;
    }
    var w, h := BigEndian(d, 4), BigEndian(d, 8);
    var complete, rgb := DecodeBytes(d, w * h);
    r := if complete then Image(w, h, rgb) else Truncated;
  }

  method DecodeBytes(d: seq<Byte>, n: nat) returns (complete: bool, rgb: seq<Byte>)
    requires |d| >= 8
    ensures var pixels := Expand(Chunks(d, 14), START);
      complete == (|pixels| >= n) && (complete ==> rgb == RgbBytes(pixels[..n]))
  {
    hide Expand, Chunks, RgbBytes;
    var out := new Byte[n * 3];
    complete := DecodePixels(d, n, out);
    rgb := out[..];
  }

  /** The pixel loop. */
  method DecodePixels(d: seq<Byte>, n: nat, out: array<Byte>) returns (complete: bool)
    requires |d| >= 8 && out.Length == n * 3
    modifies out
    ensures var pixels := Expand(Chunks(d, 14), START);
      && complete == (|pixels| >= n)
      && (complete ==> out[..] == RgbBytes(pixels[..n]))
  {
    hide Remaining, Expand, Chunks, ChunkAt, Shown, Apply, Hash, RgbBytes;
    var st := START;
    var p: nat, pos: nat, run: nat := 14, 0, 0;
    ghost var pixels := Expand(Chunks(d, 14), START);
    ghost var done: seq<Px> := [];
    Begins(d, START);
    NoBytes();
    while pos < n
      invariant pos <= n && |done| == pos
      invariant pixels == done + Remaining(d, p, st, run)
      invariant out[..3 * pos] == RgbBytes(done)
    {
      if run == 0 && p >= |d| - 8 {
        Ends(d, p, st);
        return false;
      }
      ghost var before := done;
      st, p, run, done := NextPixel(d, p, st, run, before);
      StorePixel(out, pos, st.px, before);
      pos := pos + 1;
    }
    Prefix(pixels, done, Remaining(d, p, st, run));
    assert out[..] == out[..3 * n];
    complete := true;
  }

  lemma NoBytes()
    ensures RgbBytes([]) == []
  {
  }

  lemma Prefix(all: seq<Px>, a: seq<Px>, b: seq<Px>)
    requires all == a + b
    ensures all[..|a|] == a
  {
  }

  lemma MoveOne(a: seq<Px>, px: Px, b: seq<Px>)
    ensures a + ([px] + b) == a + [px] + b
  {
  }

  method NextPixel(d: seq<Byte>, p: nat, st: State, run: nat, ghost done: seq<Px>)
    returns (st': State, p': nat, run': nat, ghost done': seq<Px>)
    requires |d| >= 8 && (run > 0 || p < |d| - 8)
    ensures done' == done + [st'.px] && done + Remaining(d, p, st, run) == done' + Remaining(d, p', st', run')
  {
    hide Remaining, Expand, Chunks, ChunkAt, Shown, Apply, Hash;
    if run > 0 {
      RunPixel(d, p, st, run);
      st', p', run' := st, p, run - 1;
    } else {
      NextChunk(d, p, st);
      var next, size, count := DecodeChunk(d, p, st);
      RunPixel(d, p + size, next, count);
      st', p', run' := next, p + size, count - 1;
    }
    done' := done + [st'.px];
    MoveOne(done, st'.px, Remaining(d, p', st', run'));
  }

  method StorePixel(out: array<Byte>, pos: nat, px: Px, ghost done: seq<Px>)
    requires 3 * pos + 3 <= out.Length && |done| == pos && out[..3 * pos] == RgbBytes(done)
    modifies out
    ensures out[..3 * pos + 3] == RgbBytes(done + [px])
  {
    out[pos * 3] := px.r;
    out[pos * 3 + 1] := px.g;
    out[pos * 3 + 2] := px.b;
    OnePixel(out[..], done, px);
  }

  lemma Begins(d: seq<Byte>, st: State)
    requires |d| >= 8
    ensures Remaining(d, 14, st, 0) == Expand(Chunks(d, 14), st)
  {
    assert Repeat(st.px, 0) == [];
  }

  lemma Ends(d: seq<Byte>, p: nat, st: State)
    requires |d| >= 8 && p >= |d| - 8
    ensures Remaining(d, p, st, 0) == []
  {
  }

  lemma OnePixel(out: seq<Byte>, done: seq<Px>, px: Px)
    requires |out| >= 3 * |done| + 3 && out[..3 * |done|] == RgbBytes(done)
    requires out[3 * |done|..3 * |done| + 3] == [px.r, px.g, px.b]
    ensures out[..3 * |done| + 3] == RgbBytes(done + [px])
  {
    assert (done + [px])[..|done|] == done;
    assert out[..3 * |done| + 3] == out[..3 * |done|] + out[3 * |done|..3 * |done| + 3];
  }

  /** The branches on the first byte of a chunk. */
  method DecodeChunk(d: seq<Byte>, p: nat, st: State) returns (st': State, size: nat, count: nat)
    requires p + 5 <= |d|
    ensures var (c, n) := ChunkAt(d, p); st' == Apply(c, st) && size == n && count == Count(c)
  {
    var b1: nat := d[p];
    var r, g, b, a := st.px.r, st.px.g, st.px.b, st.px.a;
    size, count := 1, 1;
    if b1 == 0xFE {
      r, g, b, size := d[p + 1], d[p + 2], d[p + 3], 4;
    } else if b1 == 0xFF {
      r, g, b, a, size := d[p + 1], d[p + 2], d[p + 3], d[p + 4], 5;
    } else if b1 / 64 == 0 {
      var q := st.index[b1 % 64];
      r, g, b, a := q.r, q.g, q.b, q.a;
    } else if b1 / 64 == 1 {
      r, g, b := AddTo(r, b1 / 16 % 4 - 2), AddTo(g, b1 / 4 % 4 - 2), AddTo(b, b1 % 4 - 2);
    } else if b1 / 64 == 2 {
      var b2: nat := d[p + 1];
      var vg := b1 % 64 - 32;
      r, g, b, size := AddTo(r, vg - 8 + b2 / 16), AddTo(g, vg), AddTo(b, vg - 8 + b2 % 16), 2;
    } else {
      count := b1 % 64 + 1;
    }
    var q := Px(r, g, b, a);
    st' := State(st.index[Hash(q) := q], q);
  }

  // ---- serialized chunks are read back

  lemma {:induction false} SerializeSplit(a: seq<Chunk>, b: seq<Chunk>)
    requires ValidChunks(a) && ValidChunks(b)
    ensures ValidChunks(a + b) && Serialize(a + b) == Serialize(a) + Serialize(b)
  {
    hide ChunkBytes;
    if b == [] {
      assert a + b == a;
    } else {
      var init, last := b[..|b| - 1], b[|b| - 1];
      SerializeSplit(a, init);
      assert (a + b)[..|a + b| - 1] == a + init && (a + b)[|a + b| - 1] == last;
      assert Serialize(a) + Serialize(init) + ChunkBytes(last) == Serialize(a) + (Serialize(init) + ChunkBytes(last));
    }
  }

  lemma {:induction false} ChunksComeBack(before: seq<Byte>, cs: seq<Chunk>)
    requires ValidChunks(cs)
    ensures Chunks(before + Serialize(cs) + PADDING, |before|) == cs
    decreases |cs|
  {
    hide ChunkBytes, ChunkAt, ValidChunk;
    var d := before + Serialize(cs) + PADDING;
    if cs != [] {
      var first, rest := ChunkBytes(cs[0]), cs[1..];
      assert cs == [cs[0]] + rest && [cs[0]][..0] == [];
      SerializeSplit([cs[0]], rest);
      assert Serialize([cs[0]]) == first;
      assert d == before + first + (Serialize(rest) + PADDING);
      ChunkComesBack(before, cs[0], Serialize(rest) + PADDING);
      ChunksComeBack(before + first, rest);
      assert d == (before + first) + Serialize(rest) + PADDING;
    }
  }

  // ---- the encoder

  /** The encoder's index against the decoder's: equal, but for the slot of opaque black, which
      a run at the start of an image fills on the decoder's side only. */
  predicate Agree(enc: Index64, dec: Index64) {
    forall s | 0 <= s < 64 :: enc[s] == dec[s] || (s == Hash(BLACK) && enc[s] == CLEAR && dec[s] == BLACK)
  }

  /** The current pixel is in the encoder's index, unless it is the black it started with. */
  predicate Remembers(enc: Index64, px: Px) {
    enc[Hash(px)] == px || (px == BLACK && enc[Hash(BLACK)] == CLEAR)
  }

  /** What was emitted, followed by the pending run, is the image so far, and the decoder will be
      where the encoder is. */
  ghost predicate InStep(cs: seq<Chunk>, index: Index64, prev: Px, run: nat, image: seq<Px>) {
    && ValidChunks(cs) && Expand(cs, START) + Repeat(prev, run) == image
    && Final(cs, START).px == prev && Agree(index, Final(cs, START).index) && Remembers(index, prev)
  }

  lemma OneMoreChunk(cs: seq<Chunk>, c: Chunk)
    requires ValidChunks(cs) && ValidChunk(c)
    ensures var st := Final(cs, START);
      && ValidChunks(cs + [c]) && Final(cs + [c], START) == Apply(c, st)
      && Expand(cs + [c], START) == Expand(cs, START) + Repeat(Shown(c, st), Count(c))
  {
    assert (cs + [c])[..|cs|] == cs;
  }

  lemma EmitRun(cs: seq<Chunk>, index: Index64, prev: Px, run: nat, image: seq<Px>)
    requires InStep(cs, index, prev, run, image) && 0 < run <= 62
    ensures InStep(cs + [Run(run - 1)], index, prev, 0, image)
  {
    OneMoreChunk(cs, Run(run - 1));
    hide Expand, Hash, Final;
    assert Repeat(prev, 0) == [];
  }

  /** A chunk that shows px, from a machine that is at the previous pixel. */
  lemma EmitPixel(cs: seq<Chunk>, index: Index64, prev: Px, image: seq<Px>, c: Chunk, px: Px)
    requires InStep(cs, index, prev, 0, image) && ValidChunk(c) && !c.Run? && Shown(c, Final(cs, START)) == px
    ensures InStep(cs + [c], index[Hash(px) := px], px, 0, image + [px])
  {
    OneMoreChunk(cs, c);
    hide Expand, Final, Shown;
    assert Repeat(prev, 0) == [] && Repeat(px, 0) == [] && Repeat(px, 1) == [px];
    assert image == Expand(cs, START);
  }

  lemma HashOfClear()
    ensures Hash(CLEAR) == 0 && Hash(BLACK) == 53
  {
  }

  /** An index chunk refers to the same pixel on both sides. */
  lemma IndexShows(cs: seq<Chunk>, index: Index64, prev: Px, image: seq<Px>, px: Px)
    requires InStep(cs, index, prev, 0, image) && index[Hash(px)] == px
    ensures Shown(Index(Hash(px)), Final(cs, START)) == px && index[Hash(px) := px] == index
  {
    HashOfClear();
    hide Expand, Final, Hash;
  }

  /** An int stored in a signed char. */
  function SignedChar(v: int): (d: int)
    ensures -128 <= d < 128 && exists k :: d == v + 256 * k
  {
    var d := (v + 128) % 256 - 128;
    assert d == v + 256 * (-((v + 128) / 256));
    d
  }

  function Delta(v: Byte, from: Byte): (d: int)
    ensures -128 <= d < 128 && AddTo(from, d) == v
  {
    var d := SignedChar(v as int - from as int);
    assert AddTo(from, d) == v;
    d
  }

  /** Going through the change of green: the two signed differences add up to the first. */
  lemma ThroughGreen(v: Byte, from: Byte, vr: int, vg: int)
    requires AddTo(from, vr) == v
    ensures AddTo(from, vg + SignedChar(vr - vg)) == v
  {
    var k :| SignedChar(vr - vg) == vr - vg + 256 * k;
    hide SignedChar;
    assert from as int + (vg + SignedChar(vr - vg)) == from as int + vr + 256 * k;
  }

  /** A pixel takes at most four bytes, or five when its opacity changes. */
  function Widest(px: Px, prev: Px): nat { if px.a == prev.a then 4 else 5 }

  /** A pending run takes one byte. */
  function Pending(run: nat): nat { if run > 0 then 1 else 0 }

  /** Every difference of two channels has one signed char. */
  lemma OnlyDelta(v: Byte, from: Byte, d: int)
    requires -128 <= d < 128 && AddTo(from, d) == v
    ensures d == Delta(v, from)
  {
    SameChar(d, Delta(v, from), from);
  }

  lemma SameChar(d: int, e: int, from: Byte)
    requires -128 <= d < 128 && -128 <= e < 128 && AddTo(from, d) == AddTo(from, e)
    ensures d == e
  {
  }

  lemma OnlyThroughGreen(v: Byte, from: Byte, vr: int, vg: int, d: int)
    requires AddTo(from, vr) == v && -8 <= d <= 7 && -128 <= vg < 128 && AddTo(from, vg + d) == v
    ensures d == SignedChar(vr - vg)
  {
    ThroughGreen(v, from, vr, vg);
    var e := SignedChar(vr - vg);
    hide SignedChar;
    SameByte(from as int + vg, d, e);
  }

  lemma SameByte(a: int, d: int, e: int)
    requires (a + d) % 256 == (a + e) % 256 && -128 <= d < 128 && -128 <= e < 128
    ensures d == e
  {
    var q, r := (a + d) / 256, (a + e) / 256;
    assert d - e == 256 * (q - r);
  }

  /** A difference chunk or a luma chunk that shows a pixel has its differences. */
  lemma OnlyDifferences(px: Px, prev: Px, c: Chunk, st: State)
    requires ValidChunk(c) && (c.Diff? || c.Luma?) && st.px == prev && Shown(c, st) == px
    ensures var vr, vg, vb := Delta(px.r, prev.r), Delta(px.g, prev.g), Delta(px.b, prev.b);
      && px.a == prev.a
      && (c.Diff? ==> -3 < vr < 2 && -3 < vg < 2 && -3 < vb < 2)
      && (c.Luma? ==> -33 < vg < 32 && -9 < SignedChar(vr - vg) < 8 && -9 < SignedChar(vb - vg) < 8)
  {
    var vr, vg, vb := Delta(px.r, prev.r), Delta(px.g, prev.g), Delta(px.b, prev.b);
    hide AddTo, SignedChar, Delta;
    match c {
      case Diff(dr, dg, db) =>
        OnlyDelta(px.r, prev.r, dr);
        OnlyDelta(px.g, prev.g, dg);
        OnlyDelta(px.b, prev.b, db);
      case Luma(g, drg, dbg) =>
        OnlyDelta(px.g, prev.g, g);
        OnlyThroughGreen(px.r, prev.r, vr, g, drg);
        OnlyThroughGreen(px.b, prev.b, vb, g, dbg);
    }
  }

  /** A chunk other than a run or an index that turns the previous pixel into this one. */
  ghost predicate Turns(c: Chunk, prev: Px, px: Px) {
    ValidChunk(c) && !c.Run? && !c.Index? && forall st: State | st.px == prev :: Shown(c, st) == px
  }

  lemma SomeState(px: Px, prev: Px)
    ensures forall d | Turns(d, prev, px) && d.Rgb? :: px.a == prev.a
  {
    forall d | Turns(d, prev, px) && d.Rgb? ensures px.a == prev.a {
      assert Shown(d, State(AllClear(64), prev)) == px;
    }
  }

  /** The branches for a pixel that is not in the index: no chunk that turns the previous pixel
      into this one is shorter. */
  method EmitColor(px: Px, prev: Px) returns (bytes: seq<Byte>, ghost c: Chunk)
    ensures Turns(c, prev, px) && bytes == ChunkBytes(c) && |bytes| <= Widest(px, prev) && bytes[0] >= 64
    ensures forall d | Turns(d, prev, px) :: |bytes| <= |ChunkBytes(d)|
  {
    hide AddTo, SignedChar, Delta;
    forall d | Turns(d, prev, px) && (d.Diff? || d.Luma?)
      ensures var vr, vg, vb := Delta(px.r, prev.r), Delta(px.g, prev.g), Delta(px.b, prev.b);
        && px.a == prev.a
        && (d.Diff? ==> -3 < vr < 2 && -3 < vg < 2 && -3 < vb < 2)
        && (d.Luma? ==> -33 < vg < 32 && -9 < SignedChar(vr - vg) < 8 && -9 < SignedChar(vb - vg) < 8)
    {
      OnlyDifferences(px, prev, d, State(AllClear(64), prev));
    }
    SomeState(px, prev);
    if px.a == prev.a {
      var vr, vg, vb := Delta(px.r, prev.r), Delta(px.g, prev.g), Delta(px.b, prev.b);
      var vgR, vgB := SignedChar(vr - vg), SignedChar(vb - vg);
      ThroughGreen(px.r, prev.r, vr, vg);
      ThroughGreen(px.b, prev.b, vb, vg);
      if -3 < vr < 2 && -3 < vg < 2 && -3 < vb < 2 {
        c := Diff(vr, vg, vb);
        bytes := [0x40 + 16 * (vr + 2) + 4 * (vg + 2) + vb + 2];
      } else if -9 < vgR < 8 && -33 < vg < 32 && -9 < vgB < 8 {
        c := Luma(vg, vgR, vgB);
        bytes := [0x80 + vg + 32, 16 * (vgR + 8) + vgB + 8];
      } else {
        c := Rgb(px.r, px.g, px.b);
        bytes := [0xFE, px.r, px.g, px.b];
      }
    } else {
      c := Rgba(px.r, px.g, px.b, px.a);
      bytes := [0xFF, px.r, px.g, px.b, px.a];
    }
  }

  /** One pixel of the encoder loop: what is emitted for it, and the run that is left pending. */
  method EncodePixel(index: Index64, prev: Px, run: nat, px: Px, last: bool, ghost cs: seq<Chunk>, ghost image: seq<Px>)
    returns (index': Index64, run': nat, bytes: seq<Byte>, ghost cs': seq<Chunk>)
    requires InStep(cs, index, prev, run, image) && run < 62
    ensures InStep(cs', index', px, run', image + [px]) && run' < 62 && (last ==> run' == 0)
    ensures Serialize(cs') == Serialize(cs) + bytes
    ensures |bytes| + Pending(run') <= Pending(run) + Widest(px, prev)
    ensures px == prev && run < 61 && !last ==> bytes == [] && run' == run + 1
    ensures px == prev && (run == 61 || last) ==> bytes == [192 + run]
    ensures px != prev && run > 0 ==> bytes != [] && bytes[0] == 192 + run - 1
    ensures px != prev ==> run' == 0 && var size := |bytes| - Pending(run);
      (size <= 1 || index[(3 * px.r as int + 5 * px.g as int + 7 * px.b as int + 11 * px.a as int) % 64] != px)
      && forall d | Turns(d, prev, px) :: size <= |ChunkBytes(d)|
  {
    hide Expand, Final, Shown, Apply, Agree, Hash, Serialize, InStep, Turns;
    StepFacts(cs, index, prev, run, image);
    index', run', bytes, cs' := index, run, [], cs;
    if px == prev {
      run' := run + 1;
      LongerRun(cs, index, prev, run, image);
      if run' == 62 || last {
        bytes := [0xC0 + (run' - 1)];
        EmitRun(cs, index, prev, run', image + [px]);
        Emitted(cs, Run(run' - 1), bytes);
        cs', run' := cs + [Run(run' - 1)], 0;
      }
    } else {
      if run > 0 {
        bytes := [0xC0 + (run - 1)];
        EmitRun(cs, index, prev, run, image);
        Emitted(cs, Run(run - 1), bytes);
        cs', run' := cs + [Run(run - 1)], 0;
      }
      StepFacts(cs', index, prev, 0, image);
      ghost var c;
      var more;
      index', more, c := EncodeOther(index, prev, px, cs', image);
      Emitted(cs', c, more);
      bytes, cs' := bytes + more, cs' + [c];
    }
  }

  lemma HashInNumbers(px: Px)
    ensures Hash(px) == (3 * px.r as int + 5 * px.g as int + 7 * px.b as int + 11 * px.a as int) % 64
  {
  }

  method EncodeOther(index: Index64, prev: Px, px: Px, ghost cs: seq<Chunk>, ghost image: seq<Px>)
    returns (index': Index64, bytes: seq<Byte>, ghost c: Chunk)
    requires InStep(cs, index, prev, 0, image)
    ensures ValidChunk(c) && bytes == ChunkBytes(c) && InStep(cs + [c], index', px, 0, image + [px])
    ensures |bytes| <= Widest(px, prev)
    ensures var i := (3 * px.r as int + 5 * px.g as int + 7 * px.b as int + 11 * px.a as int) % 64;
      if index[i] == px then bytes == [i] else bytes[0] >= 64
    ensures forall d | Turns(d, prev, px) :: |bytes| <= |ChunkBytes(d)|
  {
    hide Expand, Final, Shown, Apply, Agree, Hash, Remembers;
    var pos := Hash(px);
    HashInNumbers(px);
    if index[pos] == px {
      c, bytes := Index(pos), [pos];
      IndexShows(cs, index, prev, image, px);
      index' := index;
    } else {
      index' := index[pos := px];
      bytes, c := EmitColor(px, prev);
    }
    EmitPixel(cs, index, prev, image, c, px);
  }

  lemma StepFacts(cs: seq<Chunk>, index: Index64, prev: Px, run: nat, image: seq<Px>)
    requires InStep(cs, index, prev, run, image)
    ensures ValidChunks(cs)
  {
  }

  lemma LongerRun(cs: seq<Chunk>, index: Index64, prev: Px, run: nat, image: seq<Px>)
    requires InStep(cs, index, prev, run, image)
    ensures InStep(cs, index, prev, run + 1, image + [prev]) && ValidChunks(cs)
  {
    hide Expand, Final, Agree, Remembers;
    assert Repeat(prev, run + 1) == Repeat(prev, run) + [prev];
  }

  lemma Emitted(cs: seq<Chunk>, c: Chunk, bytes: seq<Byte>)
    requires ValidChunks(cs) && ValidChunk(c) && bytes == ChunkBytes(c)
    ensures ValidChunks(cs + [c]) && Serialize(cs + [c]) == Serialize(cs) + bytes
  {
    hide ChunkBytes;
    assert (cs + [c])[..|cs|] == cs;
  }

  const PIXELS_MAX: nat := 400_000_000

  /** qoi_write_32. */
  function Write32(v: nat): (bs: seq<Byte>)
    requires v < 0x1_0000_0000
    ensures |bs| == 4
  {
    [v / 0x100_0000, v / 0x1_0000 % 256, v / 0x100 % 256, v % 256]
  }

  /** Dropping one more byte. */
  lemma NextByte(v: nat, d: nat)
    requires d in {1, 0x100, 0x1_0000}
    ensures v / d == v / (0x100 * d) * 256 + v / d % 256
  {
    if d == 1 {
    } else if d == 0x100 {
      assert v / 0x100 / 0x100 == v / 0x1_0000;
    } else {
      assert v / 0x1_0000 / 0x100 == v / 0x100_0000;
    }
  }

  lemma FourBytes(v: nat)
    ensures v == ((v / 0x100_0000 * 256 + v / 0x1_0000 % 256) * 256 + v / 0x100 % 256) * 256 + v % 256
  {
    NextByte(v, 1);
    NextByte(v, 0x100);
    NextByte(v, 0x1_0000);
  }

  lemma Write32ComesBack(v: nat, before: seq<Byte>, rest: seq<Byte>)
    requires v < 0x1_0000_0000
    ensures BigEndian(before + Write32(v) + rest, |before|) == v
  {
    var d := before + Write32(v) + rest;
    assert forall k | 0 <= k < 4 :: d[|before| + k] == Write32(v)[k];
    FourBytes(v);
  }

  function Header(w: nat, h: nat, channels: Byte, colorspace: Byte): (bs: seq<Byte>)
    requires w < 0x1_0000_0000 && h < 0x1_0000_0000
    ensures |bs| == 14
  {
    MAGIC + Write32(w) + Write32(h) + [channels, colorspace]
  }

  /** A header, chunks and padding are an image of those chunks. */
  lemma ImageOfParts(w: nat, h: nat, channels: Byte, colorspace: Byte, cs: seq<Chunk>, pixels: seq<Px>)
    requires w < 0x1_0000_0000 && h < 0x1_0000_0000 && |pixels| == w * h
    requires ValidChunks(cs) && Expand(cs, START) == pixels
    ensures ImageOf(Header(w, h, channels, colorspace) + Serialize(cs) + PADDING) == Image(w, h, RgbBytes(pixels))
  {
    hide Expand, Serialize, Chunks, BigEndian, Write32;
    var head := Header(w, h, channels, colorspace);
    var d := head + Serialize(cs) + PADDING;
    ChunksComeBack(head, cs);
    assert d[..4] == MAGIC;
    var tail := [channels, colorspace] + Serialize(cs) + PADDING;
    assert d == MAGIC + Write32(w) + (Write32(h) + tail);
    Write32ComesBack(w, MAGIC, Write32(h) + tail);
    assert d == (MAGIC + Write32(w)) + Write32(h) + tail;
    Write32ComesBack(h, MAGIC + Write32(w), tail);
    assert pixels[..w * h] == pixels;
  }

  predicate Opaque(pixels: seq<Px>) { forall i | 0 <= i < |pixels| :: pixels[i].a == 255 }

  /** Bytes to allow for each pixel. */
  function Bound(pixels: seq<Px>): nat { if Opaque(pixels) then 4 else 5 }

  /** The allocation, computed in a 32-bit int. */
  function MaxSize(w: nat, h: nat, channels: Byte): nat { w * h * (channels + 1) + 14 + |PADDING| }

  lemma MaxSizeIsInt(w: nat, h: nat, channels: Byte)
    requires 0 < w && h < PIXELS_MAX / w && channels <= 4
    ensures MaxSize(w, h, channels) < 0x8000_0000
  {
    var q := PIXELS_MAX / w;
    assert w * h <= w * q <= PIXELS_MAX;
    assert w * h * (channels + 1) <= PIXELS_MAX * 5;
  }

  /** qoi_encode. Three channels stand for opaque pixels. What it returns is an image of the
      pixels, so the receiver's decoder gives their colors back. */
  method Encode(pixels: seq<Px>, w: nat, h: nat, channels: Byte, colorspace: Byte) returns (r: Option<seq<Byte>>)
    requires |pixels| == w * h && w < 0x1_0000_0000 && h < 0x1_0000_0000
    requires channels == 3 ==> Opaque(pixels)
    ensures r.Some? <==>
      w > 0 && h > 0 && channels in {3, 4} && colorspace <= 1 && h < 400_000_000 / w
    ensures r.Some? ==> |r.value| >= 22 && r.value[12..14] == [channels, colorspace]
    ensures r.Some? ==> r.value[|r.value| - 8..] == [0, 0, 0, 0, 0, 0, 0, 1]
    ensures r.Some? ==> ImageOf(r.value) == Image(w, h, RgbBytes(pixels))
    ensures r.Some? ==> |r.value| <= MaxSize(w, h, channels) < 0x8000_0000
  {
    if w == 0 || h == 0 || channels < 3 || channels > 4 || colorspace > 1 || h >= PIXELS_MAX / w {
      return None;
    }
    var body, cs := EncodePixels(pixels);
    MaxSizeIsInt(w, h, channels);
    assert |body| <= (channels + 1) * |pixels|;
    ImageOfParts(w, h, channels, colorspace, cs, pixels);
    r := Some(Header(w, h, channels, colorspace) + body + PADDING);
  }

  /** The pixel loop. */
  method EncodePixels(pixels: seq<Px>) returns (bytes: seq<Byte>, ghost cs: seq<Chunk>)
    requires pixels != []
    ensures ValidChunks(cs) && bytes == Serialize(cs) && Expand(cs, START) == pixels
    ensures |bytes| <= Bound(pixels) * |pixels|
  {
    hide Expand, Final, Serialize, InStep, Hash, ValidChunks;
    bytes, cs := [], [];
    var index: Index64, prev: Px, run: nat := AllClear(64), BLACK, 0;
    StartInStep();
    StepFacts(cs, index, prev, run, []);
    assert pixels[..0] == [];
    for i := 0 to |pixels|
      invariant InStep(cs, index, prev, run, pixels[..i]) && run < 62 && (i > 0 && i == |pixels| ==> run == 0)
      invariant ValidChunks(cs) && bytes == Serialize(cs)
      invariant |bytes| + Pending(run) <= Bound(pixels) * i && (Opaque(pixels) ==> prev.a == 255)
    {
      var px, more := pixels[i], [];
      assert pixels[..i + 1] == pixels[..i] + [px];
      index, run, more, cs := EncodePixel(index, prev, run, px, i == |pixels| - 1, cs, pixels[..i]);
      prev, bytes := px, bytes + more;
      StepFacts(cs, index, prev, run, pixels[..i + 1]);
    }
    assert pixels[..|pixels|] == pixels;
    Complete(cs, index, prev, pixels);
  }

  lemma StartInStep()
    ensures InStep([], AllClear(64), BLACK, 0, []) && Serialize([]) == []
  {
    assert Repeat(BLACK, 0) == [];
  }

  lemma Complete(cs: seq<Chunk>, index: Index64, prev: Px, image: seq<Px>)
    requires InStep(cs, index, prev, 0, image)
    ensures ValidChunks(cs) && Expand(cs, START) == image
  {
    hide Expand;
    assert Repeat(prev, 0) == [];
  }

  /** Through the sender's encoder and the receiver's decoder. */
  method ThereAndBack(pixels: seq<Px>, w: nat, h: nat) returns (decoded: Decoded)
    requires |pixels| == w * h && 0 < w && 0 < h < PIXELS_MAX / w && w < 0x1_0000_0000
    requires Opaque(pixels)
    ensures decoded == Image(w, h, RgbBytes(pixels))
  {
    var encoded := Encode(pixels, w, h, 3, 0);
    decoded := Decode(encoded.value);
  }
}
