/** The part of the JIT front end that records which code bytes a block was built from:
    local addresses, 16-byte granules, 512-byte ranges and the table of (range, mask)
    pairs that CompileBlock fills while it fetches instructions and literals.

    Masks of granule bits are modelled as sets of bit positions. */
module CodeCoverage {

  const GRANULE_SIZE: nat := 16
  const RANGE_SIZE: nat := 512

  type Byte = b: int | 0 <= b < 256

  /** Memory of the localised address space: the region number in the high bits, the
      offset inside the region in the low 27 bits. */
  type Memory = nat -> Byte

  /** Where the front end reads: an instruction or a literal, its local address and size. */
  datatype Place = Place(isLiteral: bool, addr: nat, size: nat)

  /** One read together with the bytes it returned. */
  datatype Access = Access(isLiteral: bool, addr: nat, bytes: seq<Byte>)

  datatype Coverage = Coverage(ranges: seq<nat>, masks: seq<set<nat>>)

  function RangeOf(addr: nat): nat { addr / RANGE_SIZE }

  function GranuleOf(addr: nat): nat { (addr % RANGE_SIZE) / GRANULE_SIZE }

  /** Aligned reads and writes never straddle a granule. */
  predicate InOneGranule(addr: nat, size: nat) {
    size > 0 && addr / GRANULE_SIZE == (addr + size - 1) / GRANULE_SIZE
  }

  predicate WellPlaced(trace: seq<Access>) {
    forall i | 0 <= i < |trace| :: InOneGranule(trace[i].addr, |trace[i].bytes|)
  }

  ghost predicate ReadsFrom(trace: seq<Access>, mem: Memory) {
    forall i, k | 0 <= i < |trace| && 0 <= k < |trace[i].bytes| ::
      mem(trace[i].addr + k) == trace[i].bytes[k]
  }

  function ReadAll(places: seq<Place>, mem: Memory): (trace: seq<Access>)
    ensures |trace| == |places|
    ensures ReadsFrom(trace, mem)
    ensures forall i | 0 <= i < |places| ::
      trace[i].isLiteral == places[i].isLiteral && trace[i].addr == places[i].addr && |trace[i].bytes| == places[i].size
  {
    seq(|places|, i requires 0 <= i < |places| =>
      Access(places[i].isLiteral, places[i].addr, seq(places[i].size, k requires 0 <= k => mem(places[i].addr + k))))
  }

  function PlacesOf(trace: seq<Access>): seq<Place> {
    seq(|trace|, i requires 0 <= i < |trace| => Place(trace[i].isLiteral, trace[i].addr, |trace[i].bytes|))
  }

  /** A value as it is kept for hashing: a 32-bit word, the bytes that were not read being zero. */
  function AsWord(bytes: seq<Byte>): (w: seq<Byte>)
    ensures |w| >= |bytes| && w[..|bytes|] == bytes
  {
    if |bytes| >= 4 then bytes else bytes + seq(4 - |bytes|, _ => 0)
  }

  /** What the two 32-bit hashes are computed from. The hashes are taken as injective, so
      a hash is modelled by the values that went into it. */
  function Values(trace: seq<Access>, literals: bool): (vs: seq<seq<Byte>>)
    ensures |vs| <= |trace|
  {
    if trace == [] then []
    else (if trace[0].isLiteral == literals then [AsWord(trace[0].bytes)] else []) + Values(trace[1..], literals)
  }

  function LiteralAddrs(trace: seq<Access>): seq<nat> {
    if trace == [] then []
    else (if trace[0].isLiteral then [trace[0].addr] else []) + LiteralAddrs(trace[1..])
  }

  // ---- the (range, mask) table

  ghost predicate Touches(trace: seq<Access>, range: nat, granule: nat) {
    exists i | 0 <= i < |trace| :: RangeOf(trace[i].addr) == range && GranuleOf(trace[i].addr) == granule
  }

  predicate Distinct<T(==)>(s: seq<T>) {
    forall i, j | 0 <= i < j < |s| :: s[i] != s[j]
  }

  ghost predicate Flags(c: Coverage, trace: seq<Access>) {
    && |c.ranges| == |c.masks|
    && Distinct(c.ranges)
    && (forall j, g | 0 <= j < |c.ranges| :: g in c.masks[j] <==> Touches(trace, c.ranges[j], g))
    && (forall r, g :: Touches(trace, r, g) ==> r in c.ranges)
  }

  /** The table flags exactly the granules that were read, each range once. */
  ghost predicate Exact(c: Coverage, trace: seq<Access>) {
    && Flags(c, trace)
    && (forall j | 0 <= j < |c.ranges| :: c.masks[j] != {})
  }

  /** First position of r, or the length when it is absent. */
  function Find(ranges: seq<nat>, r: nat): (j: nat)
    ensures j <= |ranges|
    ensures forall k | 0 <= k < j :: ranges[k] != r
    ensures j < |ranges| ==> ranges[j] == r
  {
    if ranges == [] || ranges[0] == r then 0 else 1 + Find(ranges[1..], r)
  }

  function Swapped<T>(s: seq<T>, i: nat, j: nat): seq<T>
    requires i < |s| && j < |s|
  {
    s[i := s[j]][j := s[i]]
  }

  /** Position that receives the granule bit, and the table after making room for it: an
      instruction moves its range to the end of the table, a literal does not. */
  function Located(c: Coverage, isLiteral: bool, r: nat): (p: (Coverage, nat))
    requires |c.ranges| == |c.masks|
    ensures |p.0.ranges| == |p.0.masks| && p.1 < |p.0.ranges| && p.0.ranges[p.1] == r
  {
    var n := |c.ranges|;
    var j := Find(c.ranges, r);
    if j == n then
      (Coverage(c.ranges + [r], c.masks + [{}]), n)
    else if isLiteral then
      (c, j)
    else if c.ranges[n - 1] == r then
      (c, n - 1)
    else
      (Coverage(Swapped(c.ranges, j, n - 1), Swapped(c.masks, j, n - 1)), n - 1)
  }

  function CoverOne(c: Coverage, a: Access): (d: Coverage)
    requires |c.ranges| == |c.masks|
    ensures |d.ranges| == |d.masks|
  {
    var (e, j) := Located(c, a.isLiteral, RangeOf(a.addr));
    Coverage(e.ranges, e.masks[j := e.masks[j] + {GranuleOf(a.addr)}])
  }

  function Cover(trace: seq<Access>): (c: Coverage)
    ensures |c.ranges| == |c.masks|
  {
    if trace == [] then Coverage([], [])
    else CoverOne(Cover(trace[..|trace| - 1]), trace[|trace| - 1])
  }

  lemma TouchesSnoc(trace: seq<Access>, a: Access, r: nat, g: nat)
    ensures Touches(trace + [a], r, g) <==> Touches(trace, r, g) || (RangeOf(a.addr) == r && GranuleOf(a.addr) == g)
  {
    var t := trace + [a];
    if Touches(trace, r, g) {
      var i :| 0 <= i < |trace| && RangeOf(trace[i].addr) == r && GranuleOf(trace[i].addr) == g;
      assert t[i] == trace[i];
    }
    if RangeOf(a.addr) == r && GranuleOf(a.addr) == g {
      assert t[|trace|] == a;
    }
  }

  lemma SwappedFlags(c: Coverage, trace: seq<Access>, i: nat, j: nat)
    requires Flags(c, trace) && i < |c.ranges| && j < |c.ranges|
    ensures Flags(Coverage(Swapped(c.ranges, i, j), Swapped(c.masks, i, j)), trace)
  {
    var e := Coverage(Swapped(c.ranges, i, j), Swapped(c.masks, i, j));
    forall r, g | Touches(trace, r, g) ensures r in e.ranges {
      var k :| 0 <= k < |c.ranges| && c.ranges[k] == r;
      assert e.ranges[if k == i then j else if k == j then i else k] == r;
    }
  }

  lemma AppendedFlags(c: Coverage, trace: seq<Access>, r: nat)
    requires Flags(c, trace) && r !in c.ranges
    ensures Flags(Coverage(c.ranges + [r], c.masks + [{}]), trace)
  {
    var e := Coverage(c.ranges + [r], c.masks + [{}]);
    forall r', g | Touches(trace, r', g) ensures r' in e.ranges {
      assert r' in c.ranges;
    }
  }

  lemma LocatedFlags(c: Coverage, trace: seq<Access>, isLiteral: bool, r: nat)
    requires Exact(c, trace)
    ensures var (e, at) := Located(c, isLiteral, r);
      Flags(e, trace) && forall j | 0 <= j < |e.ranges| && j != at :: e.masks[j] != {}
  {
    hide Touches, Find;
    var n, f := |c.ranges|, Find(c.ranges, r);
    if f == n {
      AppendedFlags(c, trace, r);
    } else {
      SwappedFlags(c, trace, f, n - 1);
      assert forall j | 0 <= j < n :: c.masks[j] != {};
    }
  }

  lemma CoverOneExact(c: Coverage, trace: seq<Access>, a: Access)
    requires Exact(c, trace)
    ensures Exact(CoverOne(c, a), trace + [a])
  {
    var d, r, g := CoverOne(c, a), RangeOf(a.addr), GranuleOf(a.addr);
    var (e, at) := Located(c, a.isLiteral, r);
    LocatedFlags(c, trace, a.isLiteral, r);
    assert d.ranges == e.ranges && d.masks == e.masks[at := e.masks[at] + {g}];
    forall r', g' ensures Touches(trace + [a], r', g') <==> Touches(trace, r', g') || (r == r' && g == g') {
      TouchesSnoc(trace, a, r', g');
    }
    forall j, g' | 0 <= j < |d.ranges| ensures g' in d.masks[j] <==> Touches(trace + [a], d.ranges[j], g') {
      assert g' in e.masks[j] <==> Touches(trace, e.ranges[j], g');
    }
    assert g in d.masks[at];
  }

  /** The table built by the fetch loop flags exactly the granules that were fetched from. */
  lemma {:induction false} CoverExact(trace: seq<Access>)
    ensures Exact(Cover(trace), trace)
  {
    if trace == [] {
    } else {
      var n := |trace| - 1;
      CoverExact(trace[..n]);
      assert trace == trace[..n] + [trace[n]];
      CoverOneExact(Cover(trace[..n]), trace[..n], trace[n]);
    }
  }

  /** Bit g of range r stands for the sixteen bytes from 512 r + 16 g on. */
  lemma GranuleInNumbers(addr: nat, r: nat, g: nat)
    ensures RangeOf(addr) == r && GranuleOf(addr) == g <==> g < 32 && 512 * r + 16 * g <= addr < 512 * r + 16 * g + 16
  {
    var q, m := addr / 512, addr % 512;
    assert addr == 512 * q + m && m == 16 * (m / 16) + m % 16;
  }

  /** The table has a range with bit g set. */
  predicate HasBit(c: Coverage, r: nat, g: nat)
    requires |c.ranges| == |c.masks|
  {
    exists j | 0 <= j < |c.ranges| :: c.ranges[j] == r && g in c.masks[j]
  }

  /** Something was read from lo on, below hi. */
  predicate ReadBetween(trace: seq<Access>, lo: nat, hi: nat) {
    exists i | 0 <= i < |trace| :: lo <= trace[i].addr < hi
  }

  /** A table that is exact has a bit for just those bytes. */
  lemma BitsInNumbers(c: Coverage, trace: seq<Access>)
    requires Exact(c, trace)
    ensures forall r: nat, g: nat :: HasBit(c, r, g) <==>
      g < 32 && ReadBetween(trace, 512 * r + 16 * g, 512 * r + 16 * g + 16)
  {
    hide RangeOf, GranuleOf;
    forall r: nat, g: nat
      ensures HasBit(c, r, g) <==> g < 32 && ReadBetween(trace, 512 * r + 16 * g, 512 * r + 16 * g + 16)
    {
      forall i | 0 <= i < |trace|
        ensures RangeOf(trace[i].addr) == r && GranuleOf(trace[i].addr) == g <==>
          g < 32 && 512 * r + 16 * g <= trace[i].addr < 512 * r + 16 * g + 16
      {
        GranuleInNumbers(trace[i].addr, r, g);
      }
      assert Touches(trace, r, g) <==> HasBit(c, r, g);
    }
  }

  // ---- how many entries the table needs

  function RangesRead(trace: seq<Access>): (rs: set<nat>)
    ensures forall r :: r in rs <==> exists i :: 0 <= i < |trace| && RangeOf(trace[i].addr) == r
  {
    set i | 0 <= i < |trace| :: RangeOf(trace[i].addr)
  }

  lemma {:induction false} DistinctSize(s: seq<nat>, e: set<nat>)
    requires Distinct(s) && forall x :: x in e <==> x in s
    ensures |e| == |s|
  {
    if s == [] {
      assert e == {};
    } else {
      var n := |s| - 1;
      DistinctSize(s[..n], e - {s[n]});
      assert |e| == |e - {s[n]}| + 1;
    }
  }

  /** One for each range that an instruction or a literal was read from. */
  lemma TableSize(trace: seq<Access>)
    ensures |Cover(trace).ranges| == |RangesRead(trace)|
  {
    var c := Cover(trace);
    CoverExact(trace);
    forall r ensures r in RangesRead(trace) <==> r in c.ranges {
      if r in c.ranges {
        var j :| 0 <= j < |c.ranges| && c.ranges[j] == r;
        var g :| g in c.masks[j];
        assert Touches(trace, r, g);
      }
      if r in RangesRead(trace) {
        var i :| 0 <= i < |trace| && RangeOf(trace[i].addr) == r;
        assert Touches(trace, r, GranuleOf(trace[i].addr));
      }
    }
    DistinctSize(c.ranges, RangesRead(trace));
  }

  lemma CoverIsRight(trace: seq<Access>)
    ensures Exact(Cover(trace), trace) && |Cover(trace).ranges| == |RangesRead(trace)|
    ensures forall r: nat, g: nat :: HasBit(Cover(trace), r, g) <==>
      g < 32 && ReadBetween(trace, 512 * r + 16 * g, 512 * r + 16 * g + 16)
  {
    CoverExact(trace);
    TableSize(trace);
    BitsInNumbers(Cover(trace), trace);
  }

  method SearchRange(ranges: seq<nat>, r: nat) returns (j: nat)
    ensures j == Find(ranges, r)
  {
    j := 0;
    while j < |ranges| && ranges[j] != r
      invariant j <= |ranges|
      invariant forall k | 0 <= k < j :: ranges[k] != r
    {
      j := j + 1;
    }
    var f := Find(ranges, r);
    assert !(f < j) && !(j < f);
  }

  method CoverLiteral(ranges0: seq<nat>, masks0: seq<set<nat>>, a: Access)
    returns (ranges: seq<nat>, masks: seq<set<nat>>)
    requires |ranges0| == |masks0| && a.isLiteral
    ensures Coverage(ranges, masks) == CoverOne(Coverage(ranges0, masks0), a)
  {
    ranges, masks := ranges0, masks0;
    var r := RangeOf(a.addr);
    var j := SearchRange(ranges, r);
    if j == |ranges| {
      ranges, masks := ranges + [r], masks + [{}];
    }
    masks := masks[j := masks[j] + {GranuleOf(a.addr)}];
  }

  method CoverInstr(ranges0: seq<nat>, masks0: seq<set<nat>>, a: Access)
    returns (ranges: seq<nat>, masks: seq<set<nat>>)
    requires |ranges0| == |masks0| && !a.isLiteral
    ensures Coverage(ranges, masks) == CoverOne(Coverage(ranges0, masks0), a)
  {
    ranges, masks := ranges0, masks0;
    var r := RangeOf(a.addr);
    if |ranges| == 0 || r != ranges[|ranges| - 1] {
      var j := SearchRange(ranges, r);
      if j < |ranges| {
        ranges, masks := Swapped(ranges, j, |ranges| - 1), Swapped(masks, j, |masks| - 1);
      } else {
        ranges, masks := ranges + [r], masks + [{}];
      }
    }
    masks := masks[|ranges| - 1 := masks[|ranges| - 1] + {GranuleOf(a.addr)}];
  }

  /** The table construction of CompileBlock's fetch loop. */
  method BuildCoverage(trace: seq<Access>) returns (ranges: seq<nat>, masks: seq<set<nat>>)
    ensures Coverage(ranges, masks) == Cover(trace)
    ensures Exact(Coverage(ranges, masks), trace)
    ensures forall r: nat, g: nat :: HasBit(Coverage(ranges, masks), r, g) <==>
      g < 32 && ReadBetween(trace, 512 * r + 16 * g, 512 * r + 16 * g + 16)
    ensures |ranges| == |RangesRead(trace)|
  {
    hide RangeOf, GranuleOf, Find, Exact, HasBit, ReadBetween, RangesRead;
    ranges, masks := [], [];
    for i := 0 to |trace|
      invariant Coverage(ranges, masks) == Cover(trace[..i])
    {
      assert trace[..i + 1][..i] == trace[..i];
      if trace[i].isLiteral {
        ranges, masks := CoverLiteral(ranges, masks, trace[i]);
      } else {
        ranges, masks := CoverInstr(ranges, masks, trace[i]);
      }
    }
    assert trace[..|trace|] == trace;
    CoverIsRight(trace);
  }
}
