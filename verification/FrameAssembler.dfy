/** The frame reassembly of the stream receiver, and the sender that cuts frames into parts. */
module FrameAssembler {
  import opened Options

  type Byte = n: int | 0 <= n < 256

  const MAGIC_JPEG: nat := 0x3153444D
  const MAGIC_QOI: nat := 0x3253444D
  const MAX_PAYLOAD: nat := 1400

  /** A datagram after its header was unpacked; one too short for a header is Short. */
  datatype Datagram =
    | Short
    | Packet(magic: nat, frameId: nat, total: nat, offset: nat, index: nat, count: nat, payload: seq<Byte>)

  /** A frame being assembled. */
  datatype Entry = Entry(buffer: seq<Byte>, parts: set<nat>)

  type Frames = map<nat, Entry>

  predicate Relevant(d: Datagram)
    ensures Relevant(d) ==> d.Packet?
  {
    d.Packet? && d.magic in {MAGIC_JPEG, MAGIC_QOI}
  }

  /** Four characters as a number, the first one lowest. */
  function Spelled(s: string): nat
    requires |s| == 4
  {
    s[0] as nat + 0x100 * (s[1] as nat + 0x100 * (s[2] as nat + 0x100 * s[3] as nat))
  }

  /** The packets looked at are those with the letters MDS1 or MDS2. */
  lemma RelevantByLetters(d: Datagram)
    requires d.Packet?
    ensures Relevant(d) <==> d.magic in {Spelled("MDS1"), Spelled("MDS2")}
  {
    assert Spelled("MDS1") == MAGIC_JPEG && Spelled("MDS2") == MAGIC_QOI;
  }

  function Min(a: nat, b: nat): nat { if a < b then a else b }

  /** Assignment to a slice of a byte array, which clips the slice to the array. */
  function Splice(buffer: seq<Byte>, offset: nat, payload: seq<Byte>): (s: seq<Byte>)
    ensures offset + |payload| <= |buffer| ==> |s| == |buffer|
    ensures offset + |payload| <= |buffer| ==> forall k | 0 <= k < |s| ::
      s[k] == if offset <= k < offset + |payload| then payload[k - offset] else buffer[k]
    ensures offset <= |buffer| < offset + |payload| ==> s == buffer[..offset] + payload
    ensures offset > |buffer| ==> s == buffer + payload
  {
    buffer[..Min(offset, |buffer|)] + payload + buffer[Min(offset + |payload|, |buffer|)..]
  }

  function StaleIds(frames: Frames, id: nat): (ids: set<nat>)
    ensures forall f :: f in ids <==> f in frames && f + 8 < id
  {
    set f | f in frames && f + 8 < id
  }

  /** The entries left after one for frame id was held: those more than eight behind go. */
  function WithoutStale(frames: Frames, id: nat): (kept: Frames)
    ensures forall f :: f in kept <==> f in frames && !(f + 8 < id)
    ensures forall f | f in kept :: kept[f] == frames[f]
  {
    map f | f in frames && !(f + 8 < id) :: frames[f]
  }

  /** The entries in which a packet is stored. */
  function Opened(frames: Frames, d: Datagram): (kept: Frames)
    requires d.Packet?
    ensures d.frameId in kept
  {
    if d.frameId in frames then frames
    else WithoutStale(frames[d.frameId := Entry(seq(d.total, _ => 0), {})], d.frameId)
  }

  datatype Outcome = Outcome(frames: Frames, frame: Option<(nat, seq<Byte>)>)

  function Pushed(frames: Frames, d: Datagram): Outcome {
    if !Relevant(d) then Outcome(frames, None)
    else
      var held := Opened(frames, d);
      var entry := held[d.frameId];
      var stored := Entry(Splice(entry.buffer, d.offset, d.payload), entry.parts + {d.index});
      if |stored.parts| == d.count then Outcome(held - {d.frameId}, Some((d.frameId, stored.buffer)))
      else Outcome(held[d.frameId := stored], None)
  }

  class Assembler {
    var frames: Frames
    var droppedPartial: nat

    constructor ()
      ensures frames == map[] && droppedPartial == 0
    {
      frames, droppedPartial := map[], 0;
    }

    method Push(d: Datagram) returns (r: Option<(nat, seq<Byte>)>)
      modifies this
      ensures Outcome(frames, r) == Pushed(old(frames), d)
      ensures droppedPartial == old(droppedPartial) +
        if Relevant(d) && d.frameId !in old(frames) then |StaleIds(old(frames), d.frameId)| else 0
    {
      if !Relevant(d) {
        return None;
      }
      if d.frameId !in frames {
        frames := frames[d.frameId := Entry(seq(d.total, _ => 0), {})];
        assert StaleIds(frames, d.frameId) == StaleIds(old(frames), d.frameId);
        DropStale(d.frameId);
      }
      var entry := frames[d.frameId];
      var stored := Entry(Splice(entry.buffer, d.offset, d.payload), entry.parts + {d.index});
      frames := frames[d.frameId := stored];
      if |stored.parts| == d.count {
        frames := frames - {d.frameId};
        return Some((d.frameId, stored.buffer));
      }
      r := None;
    }

    /** The loop over the entries that fell behind. */
    method DropStale(id: nat)
      modifies this
      ensures frames == WithoutStale(old(frames), id)
      ensures droppedPartial == old(droppedPartial) + |StaleIds(old(frames), id)|
    {
      var stale := StaleIds(frames, id);
      ghost var all := stale;
      while stale != {}
        invariant stale <= all
        invariant frames == map f | f in old(frames) && (f !in all || f in stale) :: old(frames)[f]
        invariant droppedPartial + |stale| == old(droppedPartial) + |all|
        decreases |stale|
      {
        var f :| f in stale;
        frames := frames - {f};
        droppedPartial := droppedPartial + 1;
        stale := stale - {f};
      }
    }
  }

  // ---- what is sent

  /** A frame and where it is cut: part i reaches from cuts[i] to cuts[i + 1]. */
  datatype Frame = Frame(magic: nat, data: seq<Byte>, cuts: seq<nat>) {
    function Parts(): int { |cuts| - 1 }
  }

  predicate ValidFrame(f: Frame) {
    && f.magic in {MAGIC_JPEG, MAGIC_QOI} && |f.cuts| >= 2 && f.cuts[0] == 0 && f.cuts[|f.cuts| - 1] == |f.data|
    && forall i, j | 0 <= i <= j < |f.cuts| :: f.cuts[i] <= f.cuts[j]
  }

  function Part(f: Frame, i: nat): seq<Byte>
    requires ValidFrame(f) && i < f.Parts()
  {
    f.data[f.cuts[i]..f.cuts[i + 1]]
  }

  function PacketOf(id: nat, f: Frame, i: nat): Datagram
    requires ValidFrame(f) && i < f.Parts()
  {
    Packet(f.magic, id, |f.data|, f.cuts[i], i, f.Parts(), Part(f, i))
  }

  type Stream = map<nat, Frame>

  predicate ValidStream(sent: Stream) { forall id | id in sent :: ValidFrame(sent[id]) }

  /** A part of a frame of the stream, or something the receiver ignores. */
  predicate Known(sent: Stream, d: Datagram)
    requires ValidStream(sent)
  {
    Relevant(d) ==>
      && d.frameId in sent && d.index < sent[d.frameId].Parts()
      && d == PacketOf(d.frameId, sent[d.frameId], d.index)
  }

  // ---- safety

  /** What is filled in is right, and something is missing. */
  predicate GoodEntry(f: Frame, e: Entry)
    requires ValidFrame(f)
  {
    && |e.buffer| == |f.data| && |e.parts| < f.Parts()
    && (forall i | i in e.parts :: i < f.Parts())
    && forall i | i in e.parts && i < f.Parts() :: e.buffer[f.cuts[i]..f.cuts[i + 1]] == Part(f, i)
  }

  predicate GoodFrames(sent: Stream, frames: Frames)
    requires ValidStream(sent)
  {
    forall id | id in frames :: id in sent && GoodEntry(sent[id], frames[id])
  }

  lemma SpliceKeeps(f: Frame, buffer: seq<Byte>, i: nat, j: nat)
    requires ValidFrame(f) && i < f.Parts() && j < f.Parts() && |buffer| == |f.data|
    ensures var s := Splice(buffer, f.cuts[i], Part(f, i));
      && |s| == |f.data|
      && s[f.cuts[i]..f.cuts[i + 1]] == Part(f, i)
      && (j != i ==> s[f.cuts[j]..f.cuts[j + 1]] == buffer[f.cuts[j]..f.cuts[j + 1]])
  {
    assert f.cuts[i] <= f.cuts[i + 1] <= |f.data| && f.cuts[j] <= f.cuts[j + 1] <= |f.data|;
    if j < i {
      assert f.cuts[j + 1] <= f.cuts[i];
    } else if j > i {
      assert f.cuts[i + 1] <= f.cuts[j];
    }
  }

  lemma {:induction false} BelowSize(s: set<nat>, n: nat)
    requires forall i | i in s :: i < n
    ensures |s| <= n && (|s| == n ==> forall i | 0 <= i < n :: i in s)
  {
    if n > 0 {
      BelowSize(s - {n - 1}, n - 1);
      if n - 1 in s {
        assert |s| == |s - {n - 1}| + 1;
      } else {
        assert s - {n - 1} == s;
      }
    }
  }

  /** The k first parts are the data up to the k-th cut. */
  lemma {:induction false} PartsTile(f: Frame, buffer: seq<Byte>, k: nat)
    requires ValidFrame(f) && |buffer| == |f.data| && k <= f.Parts()
    requires forall i | 0 <= i < f.Parts() :: buffer[f.cuts[i]..f.cuts[i + 1]] == Part(f, i)
    ensures buffer[..f.cuts[k]] == f.data[..f.cuts[k]]
  {
    if k > 0 {
      PartsTile(f, buffer, k - 1);
      var a, b := f.cuts[k - 1], f.cuts[k];
      assert buffer[a..b] == Part(f, k - 1);
      assert buffer[..b] == buffer[..a] + buffer[a..b] && f.data[..b] == f.data[..a] + f.data[a..b];
    }
  }

  /** The entry after a part was stored. */
  lemma PartStored(f: Frame, e: Entry, i: nat)
    requires ValidFrame(f) && i < f.Parts() && (GoodEntry(f, e) || (e.parts == {} && |e.buffer| == |f.data|))
    ensures var e' := Entry(Splice(e.buffer, f.cuts[i], Part(f, i)), e.parts + {i});
      if |e'.parts| == f.Parts() then e'.buffer == f.data else GoodEntry(f, e')
  {
    var e' := Entry(Splice(e.buffer, f.cuts[i], Part(f, i)), e.parts + {i});
    hide Splice, Part;
    forall j | j in e'.parts ensures j < f.Parts() && e'.buffer[f.cuts[j]..f.cuts[j + 1]] == Part(f, j) {
      SpliceKeeps(f, e.buffer, i, j);
    }
    SpliceKeeps(f, e.buffer, i, i);
    BelowSize(e'.parts, f.Parts());
    if |e'.parts| == f.Parts() {
      PartsTile(f, e'.buffer, f.Parts());
      assert e'.buffer[..|f.data|] == e'.buffer && f.data[..|f.data|] == f.data;
    }
  }

  /** Any packet, in any order and any number of times: a frame handed out is the frame sent. */
  lemma PushIsSafe(sent: Stream, frames: Frames, d: Datagram)
    requires ValidStream(sent) && GoodFrames(sent, frames) && Known(sent, d)
    ensures var o := Pushed(frames, d);
      && GoodFrames(sent, o.frames)
      && (o.frame.Some? ==> o.frame.value.0 in sent && o.frame.value.1 == sent[o.frame.value.0].data)
  {
    if Relevant(d) {
      var f := sent[d.frameId];
      hide Splice, Part, GoodEntry, ValidFrame;
      NewEntryIsBlank(frames, d);
      GoodEntryOrBlank(sent, frames, d);
      PartStored(f, Opened(frames, d)[d.frameId], d.index);
    }
  }

  lemma NewEntryIsBlank(frames: Frames, d: Datagram)
    requires d.Packet?
    ensures Opened(frames, d)[d.frameId] ==
      if d.frameId in frames then frames[d.frameId] else Entry(seq(d.total, _ => 0), {})
  {
  }

  lemma GoodEntryOrBlank(sent: Stream, frames: Frames, d: Datagram)
    requires ValidStream(sent) && GoodFrames(sent, frames) && Known(sent, d) && Relevant(d)
    ensures var f, e := sent[d.frameId], Opened(frames, d)[d.frameId];
      ValidFrame(f) && (GoodEntry(f, e) || (e.parts == {} && |e.buffer| == |f.data|))
  {
    NewEntryIsBlank(frames, d);
  }

  // ---- whole runs

  function After(frames: Frames, ds: seq<Datagram>): Frames {
    if ds == [] then frames else Pushed(After(frames, ds[..|ds| - 1]), ds[|ds| - 1]).frames
  }

  /** What the k-th push of a run returns. */
  function Output(frames: Frames, ds: seq<Datagram>, k: nat): Option<(nat, seq<Byte>)>
    requires k < |ds|
  {
    Pushed(After(frames, ds[..k]), ds[k]).frame
  }

  predicate AllKnown(sent: Stream, ds: seq<Datagram>)
    requires ValidStream(sent)
  {
    forall k | 0 <= k < |ds| :: Known(sent, ds[k])
  }

  lemma {:induction false} RunIsGood(sent: Stream, frames: Frames, ds: seq<Datagram>)
    requires ValidStream(sent) && GoodFrames(sent, frames) && AllKnown(sent, ds)
    ensures GoodFrames(sent, After(frames, ds))
  {
    hide Pushed, Known, GoodFrames;
    if ds != [] {
      RunIsGood(sent, frames, ds[..|ds| - 1]);
      PushIsSafe(sent, After(frames, ds[..|ds| - 1]), ds[|ds| - 1]);
    }
  }

  /** Safety: under loss, repetition, reordering and interleaving, whatever is handed out is a
      frame that was sent, complete. */
  lemma EveryFrameIsSent(sent: Stream, ds: seq<Datagram>, k: nat)
    requires ValidStream(sent) && AllKnown(sent, ds) && k < |ds|
    ensures var o := Output(map[], ds, k); o.Some? ==> o.value.0 in sent && o.value.1 == sent[o.value.0].data
  {
    RunIsGood(sent, map[], ds[..k]);
    PushIsSafe(sent, After(map[], ds[..k]), ds[k]);
  }

  /** A packet that opens an entry more than eight ids later makes frame id stale. */
  predicate Outdates(frames: Frames, d: Datagram, id: nat) {
    Relevant(d) && d.frameId !in frames && id + 8 < d.frameId
  }

  function Collected(frames: Frames, id: nat): set<nat> { if id in frames then frames[id].parts else {} }

  predicate Delivers(o: Option<(nat, seq<Byte>)>, id: nat) { o.Some? && o.value.0 == id }

  lemma PushCollects(sent: Stream, frames: Frames, d: Datagram, id: nat)
    requires ValidStream(sent) && GoodFrames(sent, frames) && Known(sent, d)
    requires !Outdates(frames, d, id) && !Delivers(Pushed(frames, d).frame, id)
    ensures Collected(frames, id) <= Collected(Pushed(frames, d).frames, id)
    ensures Relevant(d) && d.frameId == id ==> d.index in Collected(Pushed(frames, d).frames, id)
  {
    hide Splice, Known, GoodFrames;
  }

  /** No push of the run makes frame id stale, and none returns it. */
  predicate Quiet(frames: Frames, ds: seq<Datagram>, id: nat) {
    forall k | 0 <= k < |ds| :: !Outdates(After(frames, ds[..k]), ds[k], id) && !Delivers(Output(frames, ds, k), id)
  }

  lemma QuietBefore(frames: Frames, ds: seq<Datagram>, id: nat, n: nat)
    requires Quiet(frames, ds, id) && n < |ds|
    ensures Quiet(frames, ds[..n], id)
    ensures !Outdates(After(frames, ds[..n]), ds[n], id) && !Delivers(Pushed(After(frames, ds[..n]), ds[n]).frame, id)
  {
    hide After, Pushed, Outdates;
    assert !Delivers(Output(frames, ds, n), id);
    forall k | 0 <= k < n
      ensures !Outdates(After(frames, ds[..n][..k]), ds[..n][k], id) && !Delivers(Output(frames, ds[..n], k), id)
    {
      assert ds[..n][..k] == ds[..k];
      assert !Delivers(Output(frames, ds, k), id);
    }
  }

  lemma {:induction false} NotYetDelivered(sent: Stream, frames: Frames, ds: seq<Datagram>, id: nat)
    requires ValidStream(sent) && GoodFrames(sent, frames) && AllKnown(sent, ds) && Quiet(frames, ds, id)
    ensures forall j | 0 <= j < |ds| && Relevant(ds[j]) && ds[j].frameId == id ::
      ds[j].index in Collected(After(frames, ds), id)
  {
    hide Pushed, Known, GoodFrames, Collected, Outdates, Delivers, Relevant, ValidStream, Quiet;
    if ds != [] {
      var n := |ds| - 1;
      QuietBefore(frames, ds, id, n);
      NotYetDelivered(sent, frames, ds[..n], id);
      RunIsGood(sent, frames, ds[..n]);
      PushCollects(sent, After(frames, ds[..n]), ds[n], id);
    }
  }

  /** Liveness: if every part of a frame arrives in a stretch of a run in which no packet makes
      the frame stale, some push of that stretch returns the frame. */
  lemma CompleteFrameIsDelivered(sent: Stream, frames: Frames, ds: seq<Datagram>, id: nat)
    requires ValidStream(sent) && GoodFrames(sent, frames) && AllKnown(sent, ds) && id in sent
    requires forall k | 0 <= k < |ds| :: !Outdates(After(frames, ds[..k]), ds[k], id)
    requires forall i: nat | i < sent[id].Parts() :: Arrives(ds, id, i)
    ensures exists k | 0 <= k < |ds| :: Output(frames, ds, k) == Some((id, sent[id].data))
  {
    hide Known, GoodEntry, Outdates, Relevant, After, Pushed;
    if k :| 0 <= k < |ds| && Delivers(Output(frames, ds, k), id) {
      RunIsGood(sent, frames, ds[..k]);
      PushIsSafe(sent, After(frames, ds[..k]), ds[k]);
      assert Output(frames, ds, k) == Some((id, sent[id].data));
    } else {
      NotYetDelivered(sent, frames, ds, id);
      RunIsGood(sent, frames, ds);
      var parts := Collected(After(frames, ds), id);
      forall i: nat | i < sent[id].Parts() ensures i in parts {
        assert Arrives(ds, id, i);
        var j :| 0 <= j < |ds| && IsPart(ds[j], id, i);
        assert ds[j].index in Collected(After(frames, ds), id);
      }
      NeverAllCollected(sent, After(frames, ds), id);
    }
  }

  predicate IsPart(d: Datagram, id: nat, i: nat) { Relevant(d) && d.frameId == id && d.index == i }

  predicate Arrives(ds: seq<Datagram>, id: nat, i: nat) { exists j | 0 <= j < |ds| :: IsPart(ds[j], id, i) }

  lemma NeverAllCollected(sent: Stream, frames: Frames, id: nat)
    requires ValidStream(sent) && GoodFrames(sent, frames) && id in sent
    ensures exists i: nat :: i < sent[id].Parts() && i !in Collected(frames, id)
  {
    var parts, n := Collected(frames, id), sent[id].Parts();
    assert |parts| < n;
    if forall i: nat | i < n :: i in parts {
      ContainsAll(parts, n);
    }
  }

  lemma {:induction false} ContainsAll(s: set<nat>, n: nat)
    requires forall i: nat | i < n :: i in s
    ensures |s| >= n
  {
    if n > 0 {
      ContainsAll(s - {n - 1}, n - 1);
    }
  }

  // ---- the sender

  /** The cuts SendFrame makes: every 1400 bytes. */
  function Cut(magic: nat, data: seq<Byte>): (f: Frame)
    ensures data != [] && magic in {MAGIC_JPEG, MAGIC_QOI} ==> ValidFrame(f)
  {
    var n := (|data| + MAX_PAYLOAD - 1) / MAX_PAYLOAD;
    Frame(magic, data, seq(n + 1, i requires 0 <= i <= n => Min(MAX_PAYLOAD * i, |data|)))
  }

  lemma PartCut(id: nat, magic: nat, data: seq<Byte>, i: nat)
    requires data != [] && magic in {MAGIC_JPEG, MAGIC_QOI} && i < Cut(magic, data).Parts()
    ensures var offset := MAX_PAYLOAD * i;
      offset <= |data| && PacketOf(id, Cut(magic, data), i) ==
        Packet(magic, id, |data|, offset, i, Cut(magic, data).Parts(),
          data[offset..offset + Min(MAX_PAYLOAD, |data| - offset)])
  {
  }

  lemma CutInNumbers(id: nat, magic: nat, data: seq<Byte>)
    requires data != [] && magic in {MAGIC_JPEG, MAGIC_QOI}
    ensures var f := Cut(magic, data);
      var n := f.Parts();
      && 1400 * (n - 1) < |data| <= 1400 * n
      && (forall i: nat | i < n - 1 ::
            PacketOf(id, f, i) == Packet(magic, id, |data|, 1400 * i, i, n, data[1400 * i..1400 * (i + 1)]))
      && PacketOf(id, f, n - 1).payload == data[1400 * (n - 1)..]
  {
  }

  /** SendFrame: one packet for each part, in order; every part but the last has 1400 bytes. */
  method SendFrame(id: nat, data: seq<Byte>, magic: nat) returns (packets: seq<Datagram>)
    requires 0 < |data| <= 0xFFFF * MAX_PAYLOAD && magic in {MAGIC_JPEG, MAGIC_QOI}
    ensures var f := Cut(magic, data);
      |packets| == f.Parts() && forall i | 0 <= i < |packets| :: packets[i] == PacketOf(id, f, i)
    ensures 1400 * (|packets| - 1) < |data| <= 1400 * |packets|
    ensures forall i | 0 <= i < |packets| - 1 ::
      packets[i] == Packet(magic, id, |data|, 1400 * i, i, |packets|, data[1400 * i..1400 * (i + 1)])
    ensures packets[|packets| - 1].payload == data[1400 * (|packets| - 1)..]
  {
    var total := |data|;
    var partCount := (total + MAX_PAYLOAD - 1) / MAX_PAYLOAD % 0x1_0000;
    ghost var f := Cut(magic, data);
    assert f.Parts() == partCount;
    hide Cut, PacketOf, ValidFrame;
    CutInNumbers(id, magic, data);
    packets := [];
    for i := 0 to partCount
      invariant |packets| == i && forall k | 0 <= k < i :: packets[k] == PacketOf(id, f, k)
    {
      var offset := i * MAX_PAYLOAD;
      var size := total - offset;
      if size > MAX_PAYLOAD {
        size := MAX_PAYLOAD;
      }
      PartCut(id, magic, data, i);
      packets := packets + [Packet(magic, id, total, offset, i, partCount, data[offset..offset + size])];
    }
  }
}
