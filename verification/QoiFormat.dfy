/** The receiver's decoder against the file format in numbers. */
module QoiFormat {
  import opened Options
  import opened Qoi

  /** The last pixel with 3r + 5g + 7b + 11a == i modulo 64, or transparent black. */
  function LastWith(ps: seq<Px>, i: nat): Px {
    if ps == [] then Px(0, 0, 0, 0)
    else
      var p := ps[|ps| - 1];
      if (3 * p.r as int + 5 * p.g as int + 7 * p.b as int + 11 * p.a as int) % 64 == i then p
      else LastWith(ps[..|ps| - 1], i)
  }

  /** The last pixel, or opaque black. */
  function Last(ps: seq<Px>): Px { if ps == [] then Px(0, 0, 0, 255) else ps[|ps| - 1] }

  function Byte8(v: int): Byte { v % 256 }

  /** The pixel of the chunk at p, after the given ones; how many bytes it takes, and how many
      pixels it stands for. */
  function Read(d: seq<Byte>, p: nat, done: seq<Px>): (Px, nat, nat)
    requires p + 5 <= |d|
  {
    var b1: int, b2: int := d[p], d[p + 1];
    var q := Last(done);
    var r: int, g: int, b: int := q.r, q.g, q.b;
    if b1 == 254 then (Px(d[p + 1], d[p + 2], d[p + 3], q.a), 4, 1)
    else if b1 == 255 then (Px(d[p + 1], d[p + 2], d[p + 3], d[p + 4]), 5, 1)
    else if b1 < 64 then (LastWith(done, b1), 1, 1)
    else if b1 < 128 then (Px(Byte8(r + (b1 - 64) / 16 - 2), Byte8(g + b1 / 4 % 4 - 2), Byte8(b + b1 % 4 - 2),
      q.a), 1, 1)
    else if b1 < 192 then
      var vg := b1 - 128 - 32;
      (Px(Byte8(r + vg + b2 / 16 - 8), Byte8(g + vg), Byte8(b + vg + b2 % 16 - 8), q.a), 2, 1)
    else (q, 1, b1 - 192 + 1)
  }

  /** All pixels, from those before p on; the last eight bytes are no chunks. */
  function Pixels(d: seq<Byte>, p: nat, done: seq<Px>): seq<Px>
    requires |d| >= 8
    decreases |d| - p
  {
    if p + 8 >= |d| then done
    else
      var (px, size, count) := Read(d, p, done);
      Pixels(d, p + if size == 0 then 1 else size, done + Repeat(px, count))
  }

  // ---- the decoder's table holds the last pixels

  lemma {:induction false} LastWithRun(ps: seq<Px>, px: Px, n: nat, i: nat)
    requires i < 64 && n > 0
    ensures LastWith(ps + Repeat(px, n), i) == if Hash(px) == i then px else LastWith(ps, i)
  {
    var all := ps + Repeat(px, n);
    assert all[..|all| - 1] == ps + Repeat(px, n - 1) && all[|all| - 1] == px;
    if n == 1 {
      assert ps + Repeat(px, 0) == ps;
    } else {
      LastWithRun(ps, px, n - 1, i);
    }
  }

  /** Where the decoder is after some pixels. */
  predicate IsAfter(st: State, done: seq<Px>) {
    st.px == Last(done) && forall i | 0 <= i < 64 :: st.index[i] == LastWith(done, i)
  }

  lemma AfterChunk(d: seq<Byte>, p: nat, st: State, done: seq<Px>)
    requires p + 5 <= |d| && IsAfter(st, done)
    ensures var (c, n) := ChunkAt(d, p); var (px, size, count) := Read(d, p, done);
      && Shown(c, st) == px && n == size > 0 && Count(c) == count
  {
    hide LastWith;
  }

  lemma StillAfter(c: Chunk, st: State, done: seq<Px>)
    requires ValidChunk(c) && IsAfter(st, done)
    ensures IsAfter(Apply(c, st), done + Repeat(Shown(c, st), Count(c)))
  {
    hide LastWith, Shown;
    var px, n := Shown(c, st), Count(c);
    assert Last(done + Repeat(px, n)) == px;
    forall i | 0 <= i < 64 ensures Apply(c, st).index[i] == LastWith(done + Repeat(px, n), i) {
      LastWithRun(done, px, n, i);
    }
  }

  lemma {:induction false} SamePixels(d: seq<Byte>, p: nat, st: State, done: seq<Px>)
    requires |d| >= 8 && IsAfter(st, done)
    ensures done + Expand(Chunks(d, p), st) == Pixels(d, p, done)
    decreases |d| - p
  {
    hide ChunkAt, Read, Shown, Apply, IsAfter, Hash, LastWith;
    if p + 8 < |d| {
      var (c, n) := ChunkAt(d, p);
      AfterChunk(d, p, st, done);
      StillAfter(c, st, done);
      var px := Shown(c, st);
      SamePixels(d, p + n, Apply(c, st), done + Repeat(px, Count(c)));
      ExpandSplit([c], Chunks(d, p + n), st);
      assert Chunks(d, p) == [c] + Chunks(d, p + n) && [c][..0] == [];
      assert Final([c], st) == Apply(c, st) && Expand([c], st) == Repeat(px, Count(c));
    }
  }

  lemma StartIsAfter()
    ensures IsAfter(START, [])
  {
  }

  lemma {:induction false} ChannelsAt(ps: seq<Px>, k: nat)
    requires k < |ps|
    ensures var s := RgbBytes(ps); s[3 * k] == ps[k].r && s[3 * k + 1] == ps[k].g && s[3 * k + 2] == ps[k].b
  {
    var n := |ps| - 1;
    if k < n {
      ChannelsAt(ps[..n], k);
    }
  }

  /** The image has the first w * h of the pixels, three bytes for each. */
  predicate HasPixels(r: Decoded, w: nat, h: nat, pixels: seq<Px>) {
    if |pixels| < w * h then r == Truncated
    else
      && r.Image? && r.w == w && r.h == h && |r.rgb| == 3 * (w * h)
      && forall k | 0 <= k < w * h ::
           r.rgb[3 * k] == pixels[k].r && r.rgb[3 * k + 1] == pixels[k].g && r.rgb[3 * k + 2] == pixels[k].b
  }

  lemma CroppedHasPixels(pixels: seq<Px>, w: nat, h: nat)
    ensures HasPixels(Cropped(pixels, w, h), w, h, pixels)
  {
    hide RgbBytes;
    if |pixels| >= w * h {
      var rgb := RgbBytes(pixels[..w * h]);
      forall k | 0 <= k < w * h
        ensures rgb[3 * k] == pixels[k].r && rgb[3 * k + 1] == pixels[k].g && rgb[3 * k + 2] == pixels[k].b
      {
        ChannelsAt(pixels[..w * h], k);
      }
    }
  }

  function Number(b0: int, b1: int, b2: int, b3: int): int { 0x100_0000 * b0 + 0x1_0000 * b1 + 0x100 * b2 + b3 }

  lemma HeaderNumber(d: seq<Byte>, p: nat)
    requires p + 4 <= |d|
    ensures Number(d[p], d[p + 1], d[p + 2], d[p + 3]) == BigEndian(d, p)
  {
  }

  /** The decoder, for every file: an index chunk shows the last pixel before it with that number,
      the other chunks are read in numbers, and so is the header. */
  method ReadImage(d: seq<Byte>) returns (r: Decoded)
    ensures r.NotQoi? <==> |d| < 4 || d[..4] != [113, 111, 105, 102]
    ensures r.BadHeader? <==> !r.NotQoi? && |d| < 12
    ensures !r.NotQoi? && !r.BadHeader? ==>
      var w, h := Number(d[4], d[5], d[6], d[7]), Number(d[8], d[9], d[10], d[11]);
      w >= 0 && h >= 0 && HasPixels(r, w, h, Pixels(d, 14, []))
  {
    hide Expand, Chunks, RgbBytes, Pixels, HasPixels, Number, BigEndian;
    r := Decode(d);
    if |d| >= 12 && d[..4] == MAGIC {
      StartIsAfter();
      SamePixels(d, 14, START, []);
      assert [] + Expand(Chunks(d, 14), START) == Expand(Chunks(d, 14), START);
      HeaderNumber(d, 4);
      HeaderNumber(d, 8);
      CroppedHasPixels(Pixels(d, 14, []), BigEndian(d, 4), BigEndian(d, 8));
    }
  }
}
