/** The flat copies of the VRAM regions that the renderers use: tracking sets remember the
    mapping they last saw, banks remember which 512-byte granules were written. */
module VramFlat {
  import opened Options
  import opened VramMap

  predicate Tracked(r: Region) { r != LCDC && r != ARM7 }

  function Granules(r: Region): nat { RegionSize(r) / GRANULE }

  function PerSlot(r: Region): (n: nat)
    ensures n in {16, 32, 256}
  {
    SlotSize(r) / GRANULE
  }

  /** The granule of a bank that is seen at a granule of a region. */
  function BankGranule(r: Region, b: nat, g: nat): nat { BankOffset(r, b, GRANULE * g) / GRANULE }

  /** The byte the copy of a region is filled with. */
  function Shown(r: Region, mask: set<nat>, banks: seq<Memory>, addr: nat): Byte
    requires |banks| == BANKS && Below9(mask)
  {
    if GetUniqueBankPtr(mask, 0).Some? then OrAll(r, mask, banks, addr, BANKS) else ReadByte(r, mask, banks, addr)
  }

  // ---- arithmetic of granules

  lemma SizesInGranules(r: Region, b: nat)
    ensures BankSize(b) > 0 && RegionSize(r) > 0 && BankSize(b) % GRANULE == 0 && RegionSize(r) % GRANULE == 0
  {
  }

  lemma GranuleOffset(a: nat, region: nat, size: nat)
    requires region > 0 && size > 0 && region % GRANULE == 0 && size % GRANULE == 0
    ensures var o := GRANULE * (a / GRANULE) % region % size;
      a % region % size == o + a % GRANULE && a % region % size / GRANULE == o / GRANULE
  {
    var base, k := GRANULE * (a / GRANULE), a % GRANULE;
    DivUnique(base, GRANULE, a / GRANULE, 0);
    AlignedMod(base, GRANULE, k, region);
    AlignedMod(base % region, GRANULE, k, size);
    var o := base % region % size;
    DivUnique(o + k, GRANULE, o / GRANULE, k);
  }

  lemma InGranule(r: Region, b: nat, a: nat)
    requires Tracked(r)
    ensures BankOffset(r, b, a) / GRANULE == BankGranule(r, b, a / GRANULE)
    ensures BankOffset(r, b, a) == BankOffset(r, b, GRANULE * (a / GRANULE)) + a % GRANULE
  {
    SizesInGranules(r, b);
    hide RegionSize, BankSize;
    GranuleOffset(a, RegionSize(r), BankSize(b));
  }

  lemma QuotientBelow(g: nat, d: nat, n: nat)
    requires d > 0 && g < d * n
    ensures g / d < n
  {
    var q := g / d;
    assert d * q <= g;
    if n <= q {
      MulAtLeast(d, 1 + q - n);
    }
  }

  /** Granules within slots: two divisions are one. */
  lemma TwoLevels(a: nat, per: nat)
    requires per > 0
    ensures a / (GRANULE * per) == a / GRANULE / per == GRANULE * (a / GRANULE) / (GRANULE * per)
  {
    var q := a / GRANULE;
    MulMod(GRANULE, q, per, a % GRANULE);
    MulMod(GRANULE, q, per, 0);
  }

  lemma SlotShape(r: Region)
    ensures SlotSize(r) == GRANULE * PerSlot(r) && RegionSize(r) == SlotSize(r) * Slots(r) == GRANULE * Granules(r)
    ensures Granules(r) == PerSlot(r) * Slots(r) && SlotSize(r) > 0 && PerSlot(r) > 0
  {
  }

  lemma SlotBelow(r: Region, a: nat)
    requires a < RegionSize(r)
    ensures SlotOf(r, a) == a / SlotSize(r) < Slots(r)
  {
    SlotShape(r);
    QuotientBelow(a, SlotSize(r), Slots(r));
  }

  lemma GranuleSlot(r: Region, a: nat)
    requires a < RegionSize(r)
    ensures a / GRANULE < Granules(r) && SlotOf(r, GRANULE * (a / GRANULE)) == SlotOf(r, a)
    ensures SlotOf(r, a) == a / SlotSize(r) == a / GRANULE / PerSlot(r)
  {
    hide *;
    SlotShape(r);
    QuotientBelow(a, GRANULE, Granules(r));
    TwoLevels(a, PerSlot(r));
    SlotBelow(r, a);
    SlotBelow(r, GRANULE * (a / GRANULE));
  }

  // ---- what keeps a copy refreshable

  type Recorded = seq<Option<set<nat>>>

  /** The banks a map entry of a region can hold, as far as what is shown depends on it. */
  predicate Plausible(r: Region, mask: set<nat>) { Below9(mask) && (r == AOBJExtPal ==> mask <= {5, 6}) }

  predicate ShapedRecord(r: Region, rec: Recorded) {
    |rec| == Slots(r) && forall s | 0 <= s < Slots(r) && rec[s].Some? :: Plausible(r, rec[s].value)
  }

  /** A bank of the mask was written in this granule since its granules were last cleared. */
  ghost predicate DirtyAt(r: Region, mask: set<nat>, dirty: seq<set<nat>>, g: nat)
    requires |dirty| == BANKS && Below9(mask)
  {
    exists b :: b in mask && BankGranule(r, b, g) in dirty[b]
  }

  ghost predicate FreshAt(r: Region, mask: set<nat>, dirty: seq<set<nat>>, banks: seq<Memory>, flat: Memory, a: nat)
    requires |dirty| == |banks| == BANKS && Plausible(r, mask)
  {
    flat(a) == Shown(r, mask, banks, a) || DirtyAt(r, mask, dirty, a / GRANULE)
  }

  /** Wherever a mapping is recorded, the copy holds what that mapping shows, or a granule that
      makes the difference is dirty. Nothing is said about the mapping of the moment. */
  ghost predicate Fresh(r: Region, rec: Recorded, dirty: seq<set<nat>>, banks: seq<Memory>, flat: Memory)
    requires |dirty| == |banks| == BANKS && ShapedRecord(r, rec)
  {
    forall a: nat | a < RegionSize(r) && rec[SlotOf(r, a)].Some? ::
      FreshAt(r, rec[SlotOf(r, a)].value, dirty, banks, flat, a)
  }

  lemma {:induction false} OrFrom(r: Region, mask: set<nat>, banks: seq<Memory>, banks': seq<Memory>, a: nat, n: nat)
    requires n <= |banks| == |banks'|
    requires forall b | b in mask && b < n :: banks[b](BankOffset(r, b, a)) == banks'[b](BankOffset(r, b, a))
    ensures OrAll(r, mask, banks, a, n) == OrAll(r, mask, banks', a, n)
  {
    hide Or, BankOffset;
    if n > 0 {
      OrFrom(r, mask, banks, banks', a, n - 1);
    }
  }

  /** With both banks mapped, the object palette tests reach only the second. */
  lemma PaletteTests(mask: set<nat>, banks: seq<Memory>, a: nat)
    requires |banks| == BANKS && mask <= {5, 6} && GetUniqueBankPtr(mask, 0).None?
    ensures mask == {} || mask == {5, 6}
    ensures ReadByte(AOBJExtPal, mask, banks, a) == if mask == {} then 0 else banks[6](BankOffset(AOBJExtPal, 6, a))
  {
    hide BankOffset;
    assert mask == (if 5 in mask then {5} else {}) + (if 6 in mask then {6} else {});
    var t := ReadTests(AOBJExtPal);
    assert t[..1] == [(4, 5)];
    assert SlowByte(AOBJExtPal, t[..1], mask, banks, a) == 0;
  }

  /** What is shown is the or of the mapped banks, except where both banks of the object palette
      are mapped and the first has a bit that the second has not. */
  lemma ShownIsOrExactly(r: Region, mask: set<nat>, banks: seq<Memory>, a: nat)
    requires |banks| == BANKS && Plausible(r, mask)
    ensures Shown(r, mask, banks, a) == OrAll(r, mask, banks, a, BANKS) <==>
      (r == AOBJExtPal && mask == {5, 6} ==>
         var second := banks[6](BankOffset(r, 6, a)); Or(banks[5](BankOffset(r, 5, a)), second) == second)
  {
    hide BankOffset, Or;
    if r == AOBJExtPal && GetUniqueBankPtr(mask, 0).None? {
      PaletteTests(mask, banks, a);
      if mask == {} {
        OrOfEqual(r, mask, banks, a, BANKS, 0);
      } else {
        OrOfEqual(r, mask, banks, a, 5, 0);
        assert OrAll(r, mask, banks, a, 6) == banks[5](BankOffset(r, 5, a));
        assert OrAll(r, mask, banks, a, 8) == OrAll(r, mask, banks, a, 7);
      }
    } else if mask == {5, 6} {
      assert GetUniqueBankPtr(mask, 0).None? by {
        assert 5 in mask && 6 in mask;
      }
    }
  }

  /** Both are mapped, and the wrong byte shown, when F and G are given to the object palette and
      F holds a bit that G does not. */
  lemma BothPalettes(m: Maps, cnts: seq<nat>, banks: seq<Memory>, a: nat)
    requires ShapedMaps(m) && FollowBytes(m, cnts) && |cnts| == |banks| == BANKS && cnts[5] == cnts[6] == 0x85
    ensures m[AOBJExtPal][0] == {5, 6}
    ensures banks[5](BankOffset(AOBJExtPal, 5, a)) == 1 && banks[6](BankOffset(AOBJExtPal, 6, a)) == 0 ==>
      Shown(AOBJExtPal, {5, 6}, banks, a) == 0 != OrAll(AOBJExtPal, {5, 6}, banks, a, BANKS)
  {
    forall b: nat ensures b in m[AOBJExtPal][0] <==> b in {5, 6} {
      assert Has(m, AOBJExtPal, 0, b) <==> b in m[AOBJExtPal][0];
    }
    hide BankOffset;
    var mask := {5, 6};
    assert GetUniqueBankPtr(mask, 0).None? by {
      assert 5 in mask && 6 in mask;
    }
    PaletteTests(mask, banks, a);
    ShownIsOrExactly(AOBJExtPal, mask, banks, a);
  }

  /** What a copy holds of m: a bit of some bank that shows the address, but only of bank G where F
      and G are both given to the object palette of engine A. */
  ghost predicate CopiesBit(r: Region, cnts: seq<nat>, banks: seq<Memory>, a: nat, m: Byte)
    requires |cnts| == |banks| == BANKS
  {
    if r == AOBJExtPal && Given(5, cnts, r, a) && Given(6, cnts, r, a) then Lit(banks[6](a % 0x2000), m)
    else SomeBankShows(r, cnts, banks, a, m)
  }

  lemma ShownShows(maps: Maps, cnts: seq<nat>, r: Region, banks: seq<Memory>, a: nat, m: Byte)
    requires ShapedMaps(maps) && |cnts| == |banks| == BANKS && FollowBytes(maps, cnts) && Tracked(r)
    ensures Below9(maps[r][SlotOf(r, a)])
    ensures Lit(Shown(r, maps[r][SlotOf(r, a)], banks, a), m) <==> CopiesBit(r, cnts, banks, a, m)
  {
    hide Lit, SeenAt, SomeBankShows, OrAll, SlowByte, BankOffset;
    var mask := maps[r][SlotOf(r, a)];
    OrAllShows(maps, cnts, r, banks, a, m);
    if r == AOBJExtPal {
      BothGiven(maps, cnts, a);
      if GetUniqueBankPtr(mask, 0).None? {
        PaletteMask(maps, cnts);
        PaletteTests(mask, banks, a);
        if mask == {} {
          OrOfEqual(r, mask, banks, a, BANKS, 0);
        }
      }
    }
  }

  lemma PaletteMask(maps: Maps, cnts: seq<nat>)
    requires ShapedMaps(maps) && |cnts| == BANKS && FollowBytes(maps, cnts)
    ensures maps[AOBJExtPal][0] <= {5, 6}
  {
    forall b | b in maps[AOBJExtPal][0] ensures b in {5, 6} {
      assert Has(maps, AOBJExtPal, 0, b);
    }
  }

  lemma BothGiven(maps: Maps, cnts: seq<nat>, a: nat)
    requires ShapedMaps(maps) && |cnts| == BANKS && FollowBytes(maps, cnts)
    ensures Given(5, cnts, AOBJExtPal, a) && Given(6, cnts, AOBJExtPal, a) <==> maps[AOBJExtPal][0] == {5, 6}
    ensures BankOffset(AOBJExtPal, 6, a) == a % 0x2000
  {
    var mask := maps[AOBJExtPal][0];
    forall b | b in {5, 6} ensures b in mask <==> Given(b, cnts, AOBJExtPal, a) {
      SeenExactly(b, cnts[b], AOBJExtPal, a, a % 0x2000);
      assert Has(maps, AOBJExtPal, 0, b) <==> b in mask;
      assert BankOffset(AOBJExtPal, b, a) == a % 0x2000;
    }
    PaletteMask(maps, cnts);
  }

  /** What is shown depends only on the bytes of the mapped banks. */
  lemma ShownFrom(r: Region, mask: set<nat>, banks: seq<Memory>, banks': seq<Memory>, a: nat)
    requires |banks| == |banks'| == BANKS && Plausible(r, mask)
    requires forall b | b in mask :: banks[b](BankOffset(r, b, a)) == banks'[b](BankOffset(r, b, a))
    ensures Shown(r, mask, banks, a) == Shown(r, mask, banks', a)
  {
    hide BankOffset, OrAll;
    OrFrom(r, mask, banks, banks', a, BANKS);
    if r == AOBJExtPal && GetUniqueBankPtr(mask, 0).None? {
      PaletteTests(mask, banks, a);
      PaletteTests(mask, banks', a);
    }
  }

  /** Every byte of a bank that changed lies in a granule that is dirty now. */
  ghost predicate Accounted(banks: seq<Memory>, banks': seq<Memory>, dirty: seq<set<nat>>, dirty': seq<set<nat>>) {
    && |banks| == |banks'| == |dirty| == |dirty'| == BANKS
    && (forall b: nat, g: nat | b < BANKS && g < 256 && g in dirty[b] :: g in dirty'[b])
    && forall b: nat, o: nat | b < BANKS && o < BankSize(b) :: banks[b](o) == banks'[b](o) || o / GRANULE in dirty'[b]
  }

  lemma AccountedKeepsFresh(r: Region, rec: Recorded, flat: Memory, banks: seq<Memory>, banks': seq<Memory>,
                            dirty: seq<set<nat>>, dirty': seq<set<nat>>)
    requires Accounted(banks, banks', dirty, dirty') && Tracked(r) && ShapedRecord(r, rec)
    requires Fresh(r, rec, dirty, banks, flat)
    ensures Fresh(r, rec, dirty', banks', flat)
  {
    forall a: nat | a < RegionSize(r) && rec[SlotOf(r, a)].Some?
      ensures FreshAt(r, rec[SlotOf(r, a)].value, dirty', banks', flat, a)
    {
      AccountedAt(r, rec[SlotOf(r, a)].value, flat, banks, banks', dirty, dirty', a);
    }
  }

  lemma AccountedAt(r: Region, mask: set<nat>, flat: Memory, banks: seq<Memory>, banks': seq<Memory>,
                    dirty: seq<set<nat>>, dirty': seq<set<nat>>, a: nat)
    requires Accounted(banks, banks', dirty, dirty') && Tracked(r) && Plausible(r, mask)
    requires FreshAt(r, mask, dirty, banks, flat, a)
    ensures FreshAt(r, mask, dirty', banks', flat, a)
  {
    hide Shown;
    if DirtyAt(r, mask, dirty, a / GRANULE) {
      var b :| b in mask && BankGranule(r, b, a / GRANULE) in dirty[b];
      assert BankGranule(r, b, a / GRANULE) < 256;
      assert BankGranule(r, b, a / GRANULE) in dirty'[b];
    } else if !DirtyAt(r, mask, dirty', a / GRANULE) {
      forall b | b in mask ensures banks[b](BankOffset(r, b, a)) == banks'[b](BankOffset(r, b, a)) {
        InGranule(r, b, a);
        assert BankOffset(r, b, a) < BankSize(b);
        assert BankGranule(r, b, a / GRANULE) !in dirty'[b];
      }
      ShownFrom(r, mask, banks, banks', a);
    }
  }

  // ---- the steps that change banks

  lemma SameGranule(offset: nat, n: nat, o: nat)
    requires IsWidth(n) && offset % n == 0 && offset <= o < offset + n
    ensures o / GRANULE == offset / GRANULE
  {
    AlignedMod(offset, n, o - offset, GRANULE);
  }

  /** A write of the ARM9 side marks what it changes; a write of the ARM7 need not, its banks
      being dirty all over. */
  lemma WriteAccounted(r: Region, written: set<nat>, addr: nat, bytes: seq<Byte>, banks: seq<Memory>,
                       banks': seq<Memory>, dirty: seq<set<nat>>, dirty': seq<set<nat>>)
    requires r != LCDC && IsWidth(|bytes|) && addr % |bytes| == 0
    requires BanksWritten(banks, banks', r, written, addr, bytes)
    requires DirtyMarked(dirty, dirty', r, if r == ARM7 then {} else written, addr)
    requires r == ARM7 ==> forall b | b in written && b < BANKS :: dirty[b] == ALL_GRANULES
    ensures Accounted(banks, banks', dirty, dirty')
  {
    forall b: nat, o: nat | b < BANKS && o < BankSize(b)
      ensures banks[b](o) == banks'[b](o) || o / GRANULE in dirty'[b]
    {
      if b in written {
        var offset := BankOffset(r, b, addr);
        AlignedOffset(r, b, addr, |bytes|, 0);
        hide BankOffset;
        if r == ARM7 {
          assert o / GRANULE < 256;
        } else if offset <= o < offset + |bytes| {
          SameGranule(offset, |bytes|, o);
        }
      }
    }
  }

  lemma LcdcAccounted(p: Pointer, bytes: seq<Byte>, banks: seq<Memory>, banks': seq<Memory>,
                      dirty: seq<set<nat>>, dirty': seq<set<nat>>)
    requires |banks| == |dirty| == BANKS && p.bank < BANKS && IsWidth(|bytes|) && p.offset % |bytes| == 0
    requires banks' == banks[p.bank := Stored(banks[p.bank], p.offset, bytes)]
    requires dirty' == dirty[p.bank := dirty[p.bank] + {p.offset / GRANULE}]
    ensures Accounted(banks, banks', dirty, dirty')
  {
    forall b: nat, o: nat | b < BANKS && o < BankSize(b)
      ensures banks[b](o) == banks'[b](o) || o / GRANULE in dirty'[b]
    {
      if b == p.bank && p.offset <= o < p.offset + |bytes| {
        SameGranule(p.offset, |bytes|, o);
      }
    }
  }

  // ---- refreshing

  /** The granules DeriveState reports: remapped, or dirty in a mapped bank. */
  ghost predicate Stale(r: Region, rec: Recorded, masks: seq<set<nat>>, dirty: seq<set<nat>>, g: nat)
    requires |dirty| == BANKS && |rec| == |masks| == Slots(r) && g < Granules(r)
    requires forall s | 0 <= s < Slots(r) :: Below9(masks[s])
  {
    var s := SlotOf(r, GRANULE * g);
    rec[s] != Some(masks[s]) || DirtyAt(r, masks[s], dirty, g)
  }

  ghost predicate Sees(masks: seq<set<nat>>, b: nat) { exists s | 0 <= s < |masks| :: b in masks[s] }

  /** The dirty granules after DeriveState of a region with these masks. */
  ghost function Cleared(dirty: seq<set<nat>>, masks: seq<set<nat>>): (d: seq<set<nat>>)
    ensures |d| == |dirty| && forall b | 0 <= b < |dirty| :: d[b] == if Sees(masks, b) then {} else dirty[b]
  {
    seq(|dirty|, b requires 0 <= b < |dirty| => if Sees(masks, b) then {} else dirty[b])
  }

  function Recording(masks: seq<set<nat>>): (rec: Recorded)
    ensures |rec| == |masks| && forall s | 0 <= s < |masks| :: rec[s] == Some(masks[s])
  {
    seq(|masks|, s requires 0 <= s < |masks| => Some(masks[s]))
  }

  /** The copy after CopyLinearVRAM. */
  ghost predicate Copied(r: Region, masks: seq<set<nat>>, banks: seq<Memory>, stale: set<nat>, before: Memory,
                         after: Memory)
    requires |banks| == BANKS && |masks| == Slots(r) && forall s | 0 <= s < Slots(r) :: Below9(masks[s])
  {
    forall a: nat | a < RegionSize(r) ::
      after(a) == if a / GRANULE in stale then Shown(r, masks[SlotOf(r, a)], banks, a) else before(a)
  }

  /** Refreshing a copy that was refreshable makes it equal to what is mapped now. */
  lemma RefreshIsExact(r: Region, rec: Recorded, masks: seq<set<nat>>, dirty: seq<set<nat>>, banks: seq<Memory>,
                       stale: set<nat>, before: Memory, after: Memory, a: nat)
    requires |dirty| == |banks| == BANKS && ShapedRecord(r, rec) && Tracked(r) && a < RegionSize(r)
    requires |masks| == Slots(r) && forall s | 0 <= s < Slots(r) :: Below9(masks[s])
    requires Fresh(r, rec, dirty, banks, before)
    requires forall g | 0 <= g < Granules(r) :: g in stale <==> Stale(r, rec, masks, dirty, g)
    requires Copied(r, masks, banks, stale, before, after)
    ensures after(a) == Shown(r, masks[SlotOf(r, a)], banks, a)
  {
    var g := a / GRANULE;
    GranuleSlot(r, a);
    hide Shown, BankOffset, SlotOf, RegionSize;
    if g !in stale {
      assert !Stale(r, rec, masks, dirty, g);
      assert FreshAt(r, rec[SlotOf(r, a)].value, dirty, banks, before, a);
    }
  }

  predicate InSlot(r: Region, i: nat, g: nat) { PerSlot(r) * i <= g < PerSlot(r) * (i + 1) }

  /** The bank's bit field is indexed with the slot modulo the number of slots the bank fills. */
  function BitIndex(r: Region, i: nat, num: nat, g: nat): nat
    requires BankSize(num) >= SlotSize(r) && InSlot(r, i, g)
  {
    PerSlot(r) * (i % (BankSize(num) / SlotSize(r))) + (g - PerSlot(r) * i)
  }

  /** Of the dirty granules of a bank, those seen in one slot. */
  function DirtyInSlot(r: Region, i: nat, num: nat, dirty: set<nat>): (gs: set<nat>)
    requires BankSize(num) >= SlotSize(r)
    ensures forall g :: g in gs <==> InSlot(r, i, g) && BitIndex(r, i, num, g) in dirty
  {
    set g: nat | g < PerSlot(r) * (i + 1) && InSlot(r, i, g) && BitIndex(r, i, num, g) in dirty
  }

  lemma SizeProduct(r: Region, num: nat)
    requires BankSize(num) >= SlotSize(r)
    ensures var m := BankSize(num) / SlotSize(r); m > 0 && BankSize(num) == GRANULE * (PerSlot(r) * m)
  {
  }

  lemma BitIsBankGranule(r: Region, i: nat, num: nat, g: nat)
    requires BankSize(num) >= SlotSize(r) && i < Slots(r) && InSlot(r, i, g)
    ensures BitIndex(r, i, num, g) == BankGranule(r, num, g)
  {
    var per, m, j := PerSlot(r), BankSize(num) / SlotSize(r), g - PerSlot(r) * i;
    hide BankSize, SlotSize, Slots, RegionSize, SlotOf, PerSlot;
    SizeProduct(r, num);
    GranuleInRegion(r, i, g);
    MulMod(per, i, m, j);
    MulMod(GRANULE, g, per * m, 0);
    assert BankOffset(r, num, GRANULE * g) == GRANULE * (g % (per * m));
    DivUnique(GRANULE * (g % (per * m)), GRANULE, g % (per * m), 0);
  }

  lemma GranuleInRegion(r: Region, i: nat, g: nat)
    requires i < Slots(r) && InSlot(r, i, g)
    ensures g < Granules(r) && GRANULE * g < RegionSize(r) && SlotOf(r, GRANULE * g) == i == g / PerSlot(r)
    ensures GRANULE * g % RegionSize(r) == GRANULE * g
  {
    SlotShape(r);
    var per, n := PerSlot(r), Slots(r);
    InSlotBounds(per, n, i, g);
    assert GRANULE * g < RegionSize(r);
    DivUnique(GRANULE * g, RegionSize(r), 0, GRANULE * g);
    DivUnique(GRANULE * g, GRANULE, g, 0);
    hide SlotOf, RegionSize, SlotSize, Slots, PerSlot, Granules;
    GranuleSlot(r, GRANULE * g);
  }

  lemma InSlotBounds(per: nat, n: nat, i: nat, g: nat)
    requires i < n && per * i <= g < per * (i + 1)
    ensures g < per * n && g / per == i
  {
    DivUnique(g, per, i, g - per * i);
    MulAtLeast(per, n - i);
    assert per * n == per * i + per * (n - i);
  }

  lemma SlotOfAnyGranule(r: Region, g: nat)
    requires g < Granules(r)
    ensures var i := g / PerSlot(r);
      i < Slots(r) && InSlot(r, i, g) && SlotOf(r, GRANULE * g) == i
  {
    SlotShape(r);
    hide SlotOf, RegionSize, SlotSize, Slots, PerSlot, Granules;
    var per, i := PerSlot(r), g / PerSlot(r);
    assert g == per * i + g % per && per * (i + 1) == per * i + per;
    QuotientBelow(g, per, Slots(r));
    GranuleInRegion(r, i, g);
  }

  /** The addresses of a granule, and the slot they are in. */
  lemma GranuleSpan(r: Region, g: nat)
    requires g < Granules(r)
    ensures forall a: nat | a < RegionSize(r) ::
      (a / GRANULE == g <==> GRANULE * g <= a < GRANULE * g + GRANULE) &&
        (a / GRANULE == g ==> SlotOf(r, a) == g / PerSlot(r))
  {
    forall a: nat | a < RegionSize(r)
      ensures a / GRANULE == g <==> GRANULE * g <= a < GRANULE * g + GRANULE
      ensures a / GRANULE == g ==> SlotOf(r, a) == g / PerSlot(r)
    {
      GranuleSlot(r, a);
    }
  }

  /** What a map entry of a tracked region can hold. */
  lemma MaskFits(m: Maps, cnts: seq<nat>, r: Region, s: nat)
    requires ShapedMaps(m) && FollowBytes(m, cnts) && Tracked(r) && s < Slots(r)
    ensures Plausible(r, m[r][s])
    ensures forall b | b in m[r][s] :: BankSize(b) >= SlotSize(r)
  {
    forall b | b in m[r][s] ensures BankSize(b) >= SlotSize(r) && (r == AOBJExtPal ==> b in {5, 6}) {
      assert Has(m, r, s, b);
    }
  }

  lemma BankAdded(r: Region, i: nat, done: set<nat>, num: nat, dirty: seq<set<nat>>)
    requires |dirty| == BANKS && Below9(done) && num < BANKS && i < Slots(r) && BankSize(num) >= SlotSize(r)
    ensures forall g: nat | InSlot(r, i, g) :: DirtyAt(r, done + {num}, dirty, g) <==>
      DirtyAt(r, done, dirty, g) || g in DirtyInSlot(r, i, num, dirty[num])
  {
    forall g: nat | InSlot(r, i, g)
      ensures DirtyAt(r, done + {num}, dirty, g) <==>
        DirtyAt(r, done, dirty, g) || g in DirtyInSlot(r, i, num, dirty[num])
    {
      BitIsBankGranule(r, i, num, g);
      DirtyWithOneMore(r, done, num, dirty, g);
    }
  }

  /** What DeriveState has found out after i slots. */
  ghost predicate ScannedTo(r: Region, rec0: Recorded, masks: seq<set<nat>>, dirty: seq<set<nat>>, i: nat,
                            stale: set<nat>)
    requires |dirty| == BANKS && |rec0| == |masks| == Slots(r)
    requires forall s | 0 <= s < Slots(r) :: Below9(masks[s])
  {
    forall g: nat | g < Granules(r) :: g in stale <==> g / PerSlot(r) < i && Stale(r, rec0, masks, dirty, g)
  }

  ghost predicate SeesTo(masks: seq<set<nat>>, i: nat, zeroed: set<nat>)
    requires i <= |masks|
  {
    Below9(zeroed) && forall b :: b in zeroed <==> Sees(masks[..i], b)
  }

  lemma SeesNext(masks: seq<set<nat>>, i: nat, zeroed: set<nat>)
    requires i < |masks| && Below9(masks[i]) && SeesTo(masks, i, zeroed)
    ensures SeesTo(masks, i + 1, zeroed + masks[i])
  {
    forall b ensures Sees(masks[..i + 1], b) <==> Sees(masks[..i], b) || b in masks[i] {
      if Sees(masks[..i], b) {
        var s :| 0 <= s < i && b in masks[..i][s];
        assert b in masks[..i + 1][s];
      }
      assert b in masks[i] ==> b in masks[..i + 1][i];
    }
  }

  lemma ScannedNext(r: Region, rec0: Recorded, rec: Recorded, masks: seq<set<nat>>, dirty: seq<set<nat>>, i: nat,
                    stale: set<nat>, more: set<nat>)
    requires |dirty| == BANKS && |rec0| == |rec| == |masks| == Slots(r) && i < Slots(r) && rec[i] == rec0[i]
    requires forall s | 0 <= s < Slots(r) :: Below9(masks[s])
    requires ScannedTo(r, rec0, masks, dirty, i, stale)
    requires forall g: nat | g < Granules(r) :: g in more <==> g / PerSlot(r) == i && Stale(r, rec, masks, dirty, g)
    ensures ScannedTo(r, rec0, masks, dirty, i + 1, stale + more)
  {
    forall g: nat | g < Granules(r) && g / PerSlot(r) == i
      ensures Stale(r, rec, masks, dirty, g) <==> Stale(r, rec0, masks, dirty, g)
    {
      SlotOfAnyGranule(r, g);
    }
  }

  /** A bank seen in a tracked region is not one the ARM7 can write, so clearing its granules
      leaves those of the ARM7 alone. */
  lemma ClearKeepsArm7(m: Maps, cnts: seq<nat>, r: Region, dirty: seq<set<nat>>, dirty': seq<set<nat>>)
    requires ShapedMaps(m) && FollowBytes(m, cnts) && DirtyForArm7(m, dirty) && Tracked(r) && |dirty'| == BANKS
    requires forall b | 0 <= b < BANKS :: dirty'[b] == if Sees(m[r], b) then {} else dirty[b]
    ensures DirtyForArm7(m, dirty')
  {
    forall s: nat, b: nat | Has(m, ARM7, s, b) && b < BANKS ensures dirty'[b] == ALL_GRANULES {
      if Sees(m[r], b) {
        var t :| 0 <= t < |m[r]| && b in m[r][t];
        AtMostOneRegion(m, cnts, b, r, t, ARM7, s);
      }
    }
  }

  class FlatVram {
    const gpu: Vram
    var recorded: map<Region, Recorded>
    var flat: map<Region, Memory>

    ghost predicate Valid()
      reads this, gpu
    {
      gpu.Valid() && forall r | Tracked(r) :: r in recorded && ShapedRecord(r, recorded[r]) && r in flat
    }

    /** After Reset: no mapping is recorded, so everything will be copied. */
    constructor (gpu: Vram)
      requires gpu.Valid()
      ensures this.gpu == gpu && Valid()
      ensures forall r | Tracked(r) :: forall s | 0 <= s < Slots(r) :: recorded[r][s] == None
    {
      this.gpu := gpu;
      recorded := map r: Region | true :: seq(Slots(r), _ => None);
      flat := map r: Region | Tracked(r) :: ZEROED[0];
    }

    /** DeriveState for one slot. */
    method SlotGranules(r: Region, i: nat) returns (stale: set<nat>)
      requires Valid() && Tracked(r) && i < Slots(r)
      ensures forall g: nat | g < Granules(r) :: g in stale <==>
        g / PerSlot(r) == i && Stale(r, recorded[r], gpu.maps[r], gpu.dirty, g)
    {
      var per, mask := PerSlot(r), gpu.maps[r][i];
      MaskFits(gpu.maps, gpu.vramcnt, r, i);
      if recorded[r][i] != Some(mask) {
        stale := set g: nat | g < per * (i + 1) && InSlot(r, i, g);
      } else {
        stale := DirtyGranules(r, i, mask);
      }
      forall g: nat | g < Granules(r)
        ensures g in stale <==> g / per == i && Stale(r, recorded[r], gpu.maps[r], gpu.dirty, g)
      {
        SlotOfAnyGranule(r, g);
        if InSlot(r, i, g) {
          GranuleInRegion(r, i, g);
        }
      }
    }

    method DirtyGranules(r: Region, i: nat, mask: set<nat>) returns (result: set<nat>)
      requires |gpu.dirty| == BANKS && Below9(mask) && i < Slots(r) && forall b | b in mask ::
        BankSize(b) >= SlotSize(r)
      ensures forall g: nat :: g in result <==> InSlot(r, i, g) && DirtyAt(r, mask, gpu.dirty, g)
    {
      result := {};
      var mapping := mask;
      while mapping != {}
        invariant mapping <= mask
        invariant forall g: nat :: g in result <==>
          InSlot(r, i, g) && DirtyAt(r, mask - mapping, gpu.dirty, g)
        decreases |mapping|
      {
        var b0 :| b0 in mapping;
        var num := Lowest(mapping, 0);
        assert mask - (mapping - {num}) == mask - mapping + {num};
        BankAdded(r, i, mask - mapping, num, gpu.dirty);
        result := result + DirtyInSlot(r, i, num, gpu.dirty[num]);
        mapping := mapping - {num};
      }
      assert mask - mapping == mask;
    }

    method ClearDirty(zeroed: set<nat>)
      requires |gpu.dirty| == BANKS && Below9(zeroed)
      modifies gpu`dirty
      ensures |gpu.dirty| == BANKS
      ensures forall b | 0 <= b < BANKS :: gpu.dirty[b] == if b in zeroed then {} else old(gpu.dirty[b])
    {
      var left := zeroed;
      while left != {}
        invariant left <= zeroed && |gpu.dirty| == BANKS
        invariant forall b | 0 <= b < BANKS ::
          gpu.dirty[b] == if b in zeroed && b !in left then {} else old(gpu.dirty[b])
        decreases |left|
      {
        var b0 :| b0 in left;
        var num := Lowest(left, 0);
        left := left - {num};
        gpu.dirty := gpu.dirty[num := {}];
      }
    }

    method RecordSlot(r: Region, i: nat)
      requires Valid() && Tracked(r) && i < Slots(r)
      modifies this`recorded
      ensures Valid() && recorded == old(recorded)[r := old(recorded[r])[i := Some(gpu.maps[r][i])]]
    {
      MaskFits(gpu.maps, gpu.vramcnt, r, i);
      hide FollowBytes, GetUniqueBankPtr, Has, Plausible;
      recorded := recorded[r := recorded[r][i := Some(gpu.maps[r][i])]];
    }

    method ScanSlots(r: Region) returns (stale: set<nat>, zeroed: set<nat>)
      requires Valid() && Tracked(r)
      modifies this`recorded
      ensures Valid() && Below9(zeroed)
      ensures forall g: nat | g < Granules(r) :: g in stale <==> Stale(r, old(recorded[r]), gpu.maps[r], gpu.dirty, g)
      ensures recorded == old(recorded)[r := Recording(gpu.maps[r])]
      ensures forall b :: b in zeroed <==> Sees(gpu.maps[r], b)
    {
      hide ScannedTo, SeesTo, Sees, Stale, FollowBytes, GetUniqueBankPtr, Has, Plausible, Slots, PerSlot, Granules,
        Covers;
      ghost var rec0 := recorded[r];
      stale, zeroed := {}, {};
      NothingScanned(r, rec0, gpu.maps[r], gpu.dirty);
      for i := 0 to Slots(r)
        invariant Valid() && ScannedTo(r, rec0, gpu.maps[r], gpu.dirty, i, stale) && SeesTo(gpu.maps[r], i, zeroed)
        invariant recorded == old(recorded)[r := recorded[r]] && recorded[r] == Recording(gpu.maps[r][..i]) + rec0[i..]
      {
        var more := SlotGranules(r, i);
        ScannedNext(r, rec0, recorded[r], gpu.maps[r], gpu.dirty, i, stale, more);
        SeesNext(gpu.maps[r], i, zeroed);
        stale, zeroed := stale + more, zeroed + gpu.maps[r][i];
        RecordNext(recorded[r], rec0, gpu.maps[r], i);
        RecordSlot(r, i);
      }
      AllScanned(r, rec0, gpu.maps[r], gpu.dirty, stale, zeroed);
    }

    /** The granules of a region that are out of date; the mapping of the moment becomes the
        recorded one and the granules of every bank seen in the region count as clean. */
    method DeriveState(r: Region) returns (stale: set<nat>)
      requires Valid() && Tracked(r)
      modifies this`recorded, gpu`dirty
      ensures Valid()
      ensures forall g: nat | g < Granules(r) :: g in stale <==>
        Stale(r, old(recorded[r]), gpu.maps[r], old(gpu.dirty), g)
      ensures recorded == old(recorded)[r := Recording(gpu.maps[r])]
      ensures forall b | 0 <= b < BANKS :: gpu.dirty[b] == if Sees(gpu.maps[r], b) then {} else old(gpu.dirty[b])
    {
      hide Stale, GetUniqueBankPtr, Sees, Plausible;
      var zeroed;
      stale, zeroed := ScanSlots(r);
      ClearDirty(zeroed);
      ClearKeepsArm7(gpu.maps, gpu.vramcnt, r, old(gpu.dirty), gpu.dirty);
    }

    /** One granule of CopyLinearVRAM: a plain copy from the only mapped bank, or slow reads of
        eight bytes. */
    method CopyGranule(r: Region, g: nat)
      requires Valid() && Tracked(r) && g < Granules(r)
      modifies this`flat
      ensures Valid() && flat == old(flat)[r := flat[r]]
      ensures forall a: nat | a < RegionSize(r) && a / GRANULE != g :: flat[r](a) == old(flat[r])(a)
      ensures forall a: nat | a < RegionSize(r) && a / GRANULE == g ::
        flat[r](a) == Shown(r, gpu.maps[r][SlotOf(r, a)], gpu.banks, a)
    {
      SlotOfAnyGranule(r, g);
      GranuleSpan(r, g);
      hide Shown, GetUniqueBankPtr, SlotOf, PerSlot, FollowBytes, Plausible, RegionSize, Slots;
      var offset, mask := GRANULE * g, gpu.maps[r][g / PerSlot(r)];
      var ptr := GetUniqueBankPtr(mask, offset);
      var bytes;
      if ptr.Some? {
        bytes := CopyFast(r, g, ptr.value);
      } else {
        bytes := CopySlowly(r, g);
      }
      flat := flat[r := Stored(flat[r], offset, bytes)];
    }

    method CopyFast(r: Region, g: nat, p: Pointer) returns (bytes: seq<Byte>)
      requires |gpu.banks| == BANKS && Tracked(r) && g < Granules(r)
      requires p.bank < BANKS && p.offset == GRANULE * g % BankSize(p.bank)
      ensures |bytes| == GRANULE
      ensures forall a: nat | a / GRANULE == g && a < RegionSize(r) ::
        bytes[a - GRANULE * g] == Shown(r, {p.bank}, gpu.banks, a)
    {
      var bank := gpu.banks[p.bank];
      bytes := seq(GRANULE, k requires 0 <= k < GRANULE => bank(p.offset + k));
      forall a: nat | a / GRANULE == g && a < RegionSize(r)
        ensures bytes[a - GRANULE * g] == Shown(r, {p.bank}, gpu.banks, a)
      {
        PlainCopy(r, p, g, a);
        hide BankOffset;
        OrOfEqual(r, {p.bank}, gpu.banks, a, BANKS, bytes[a - GRANULE * g]);
      }
    }

    method CopySlowly(r: Region, g: nat) returns (bytes: seq<Byte>)
      requires Valid() && Tracked(r) && g < Granules(r)
      requires GetUniqueBankPtr(gpu.maps[r][SlotOf(r, GRANULE * g)], GRANULE * g).None?
      ensures |bytes| == GRANULE
      ensures forall a: nat | a / GRANULE == g && a < RegionSize(r) ::
        bytes[a - GRANULE * g] == Shown(r, gpu.maps[r][SlotOf(r, a)], gpu.banks, a)
    {
      bytes := [];
      for i := 0 to 64
        invariant |bytes| == 8 * i
        invariant forall k | 0 <= k < 8 * i ::
          bytes[k] == ReadByte(r, gpu.maps[r][SlotOf(r, GRANULE * g)], gpu.banks, GRANULE * g + k)
      {
        var addr := GRANULE * g + 8 * i;
        var v := gpu.Read(r, addr, 8);
        SameSlot(r, g, 8 * i);
        bytes := bytes + v;
      }
      forall a: nat | a / GRANULE == g && a < RegionSize(r)
        ensures bytes[a - GRANULE * g] == Shown(r, gpu.maps[r][SlotOf(r, a)], gpu.banks, a)
      {
        GranuleSlot(r, a);
      }
    }

    /** CopyLinearVRAM: the named granules in ascending order. */
    method CopyLinear(r: Region, stale: set<nat>)
      requires Valid() && Tracked(r)
      modifies this`flat
      ensures Valid() && flat == old(flat)[r := flat[r]]
      ensures Copied(r, gpu.maps[r], gpu.banks, stale, old(flat[r]), flat[r])
    {
      hide Shown, SlotOf;
      for g := 0 to Granules(r)
        invariant Valid() && flat == old(flat)[r := flat[r]]
        invariant forall a: nat | a < RegionSize(r) :: flat[r](a) ==
                    if a / GRANULE < g && a / GRANULE in stale then Shown(r, gpu.maps[r][SlotOf(r, a)], gpu.banks, a)
                    else old(flat[r])(a)
      {
        if g in stale {
          CopyGranule(r, g);
        }
      }
      forall a: nat | a < RegionSize(r) ensures a / GRANULE < Granules(r) {
        GranuleSlot(r, a);
      }
    }

    /** All copies are refreshable. */
    ghost predicate AllFresh()
      requires Valid()
      reads this, gpu
    {
      forall r | Tracked(r) :: Fresh(r, recorded[r], gpu.dirty, gpu.banks, flat[r])
    }

    /** What the renderers do before they use a region: DeriveState, then CopyLinearVRAM. */
    method Refresh(r: Region)
      requires Valid() && Tracked(r)
      modifies this, gpu`dirty
      ensures Valid()
      ensures old(Fresh(r, recorded[r], gpu.dirty, gpu.banks, flat[r])) ==>
        && Fresh(r, recorded[r], gpu.dirty, gpu.banks, flat[r])
        && (forall a: nat | a < RegionSize(r) :: flat[r](a) == Shown(r, gpu.maps[r][SlotOf(r, a)], gpu.banks, a))
        && forall a: nat, m: Byte | a < RegionSize(r) ::
             Lit(flat[r](a), m) <==> CopiesBit(r, gpu.vramcnt, gpu.banks, a, m)
      ensures recorded == old(recorded)[r := Recording(gpu.maps[r])] && flat == old(flat)[r := flat[r]]
      ensures gpu.dirty == Cleared(old(gpu.dirty), gpu.maps[r])
    {
      hide Shown, Stale, GetUniqueBankPtr, Copied, Plausible, FollowBytes, Has, Lit, CopiesBit;
      ghost var rec0, dirty0, flat0 := recorded[r], gpu.dirty, flat[r];
      var stale := DeriveState(r);
      CopyLinear(r, stale);
      if Fresh(r, rec0, dirty0, gpu.banks, flat0) {
        forall a: nat | a < RegionSize(r) ensures flat[r](a) == Shown(r, gpu.maps[r][SlotOf(r, a)], gpu.banks, a) {
          RefreshIsExact(r, rec0, gpu.maps[r], dirty0, gpu.banks, stale, flat0, flat[r], a);
        }
        forall a: nat, m: Byte | a < RegionSize(r)
          ensures Lit(flat[r](a), m) <==> CopiesBit(r, gpu.vramcnt, gpu.banks, a, m)
        {
          ShownShows(gpu.maps, gpu.vramcnt, r, gpu.banks, a, m);
        }
      }
    }
  }

  lemma PlainCopy(r: Region, p: Pointer, g: nat, a: nat)
    requires Tracked(r) && p.offset == GRANULE * g % BankSize(p.bank) && a / GRANULE == g && a < RegionSize(r)
    ensures GRANULE * g <= a < GRANULE * g + GRANULE && p.offset + (a - GRANULE * g) == BankOffset(r, p.bank, a)
  {
    InGranule(r, p.bank, a);
    DivUnique(GRANULE * g, RegionSize(r), 0, GRANULE * g);
  }

  lemma SameSlot(r: Region, g: nat, k: nat)
    requires g < Granules(r) && k < GRANULE
    ensures SlotOf(r, GRANULE * g + k) == SlotOf(r, GRANULE * g)
  {
    DivUnique(GRANULE * g + k, GRANULE, g, k);
    assert GRANULE * g + k < RegionSize(r);
    GranuleSlot(r, GRANULE * g + k);
  }

  lemma NothingScanned(r: Region, rec0: Recorded, masks: seq<set<nat>>, dirty: seq<set<nat>>)
    requires |dirty| == BANKS && |rec0| == |masks| == Slots(r)
    requires forall s | 0 <= s < Slots(r) :: Below9(masks[s])
    ensures Recording(masks[..0]) + rec0[0..] == rec0 && SeesTo(masks, 0, {}) && ScannedTo(r, rec0, masks, dirty, 0, {})
  {
  }

  lemma AllScanned(r: Region, rec0: Recorded, masks: seq<set<nat>>, dirty: seq<set<nat>>, stale: set<nat>,
                   zeroed: set<nat>)
    requires |dirty| == BANKS && |rec0| == |masks| == Slots(r)
    requires forall s | 0 <= s < Slots(r) :: Below9(masks[s])
    requires ScannedTo(r, rec0, masks, dirty, Slots(r), stale) && SeesTo(masks, Slots(r), zeroed)
    ensures Recording(masks[..Slots(r)]) + rec0[Slots(r)..] == Recording(masks) && Below9(zeroed)
    ensures forall b :: b in zeroed <==> Sees(masks, b)
    ensures forall g: nat | g < Granules(r) :: g in stale <==> Stale(r, rec0, masks, dirty, g)
  {
    assert masks[..Slots(r)] == masks;
    forall g: nat | g < Granules(r) ensures g / PerSlot(r) < Slots(r) {
      SlotOfAnyGranule(r, g);
    }
  }

  lemma RecordNext(rec: Recorded, rec0: Recorded, masks: seq<set<nat>>, i: nat)
    requires i < |rec0| == |masks| && rec == Recording(masks[..i]) + rec0[i..]
    ensures |rec| == |rec0| && rec[i := Some(masks[i])] == Recording(masks[..i + 1]) + rec0[i + 1..]
  {
  }

  lemma DirtyWithOneMore(r: Region, mask: set<nat>, num: nat, dirty: seq<set<nat>>, g: nat)
    requires |dirty| == BANKS && Below9(mask) && num < BANKS
    ensures DirtyAt(r, mask + {num}, dirty, g) <==> DirtyAt(r, mask, dirty, g) || BankGranule(r, num, g) in dirty[num]
  {
    if DirtyAt(r, mask + {num}, dirty, g) {
      var b :| b in mask + {num} && BankGranule(r, b, g) in dirty[b];
      assert b == num || b in mask;
    }
  }

  // ---- refreshing one region and the copies of the others

  /** Clearing granules takes from no recorded mapping its last dirty bank for a granule. */
  ghost predicate Survives(r: Region, rec: Recorded, dirty: seq<set<nat>>, dirty': seq<set<nat>>)
    requires |dirty| == |dirty'| == BANKS && ShapedRecord(r, rec)
  {
    forall a: nat | a < RegionSize(r) && rec[SlotOf(r, a)].Some? ::
      DirtyAt(r, rec[SlotOf(r, a)].value, dirty, a / GRANULE) ==>
        DirtyAt(r, rec[SlotOf(r, a)].value, dirty', a / GRANULE)
  }

  lemma ShownOfZeroes(r: Region, mask: set<nat>, a: nat)
    requires Plausible(r, mask)
    ensures Shown(r, mask, ZEROED, a) == 0
  {
    hide BankOffset;
    OrOfEqual(r, mask, ZEROED, a, BANKS, 0);
    if r == AOBJExtPal && GetUniqueBankPtr(mask, 0).None? {
      PaletteTests(mask, ZEROED, a);
    }
  }

  /** A copy that is wrong exactly where a recorded bank is dirty. */
  ghost function WrongWhereDirty(r: Region, rec: Recorded, dirty: seq<set<nat>>): Memory
    requires |dirty| == BANKS && ShapedRecord(r, rec)
  {
    (a: nat) => if a < RegionSize(r) && rec[SlotOf(r, a)].Some? &&
      DirtyAt(r, rec[SlotOf(r, a)].value, dirty, a / GRANULE)
                then 1 else 0
  }

  /** Whatever the banks and the copy hold, the copy stays refreshable when granules are cleared
      if and only if the recorded mapping survives the clearing. */
  lemma StaysFreshExactly(r: Region, rec: Recorded, dirty: seq<set<nat>>, dirty': seq<set<nat>>)
    requires |dirty| == |dirty'| == BANKS && ShapedRecord(r, rec)
    ensures Survives(r, rec, dirty, dirty') <==>
      forall banks: seq<Memory>, flat: Memory | |banks| == BANKS && Fresh(r, rec, dirty, banks, flat) ::
        Fresh(r, rec, dirty', banks, flat)
  {
    hide Shown, DirtyAt, SlotOf, RegionSize;
    if Survives(r, rec, dirty, dirty') {
      forall banks: seq<Memory>, flat: Memory | |banks| == BANKS && Fresh(r, rec, dirty, banks, flat)
        ensures Fresh(r, rec, dirty', banks, flat)
      {
        forall a: nat | a < RegionSize(r) && rec[SlotOf(r, a)].Some?
          ensures FreshAt(r, rec[SlotOf(r, a)].value, dirty', banks, flat, a)
        {
          assert FreshAt(r, rec[SlotOf(r, a)].value, dirty, banks, flat, a);
        }
      }
    } else {
      var a: nat :| a < RegionSize(r) && rec[SlotOf(r, a)].Some? &&
        DirtyAt(r, rec[SlotOf(r, a)].value, dirty, a / GRANULE)
                    && !DirtyAt(r, rec[SlotOf(r, a)].value, dirty', a / GRANULE);
      var flat := WrongWhereDirty(r, rec, dirty);
      forall b: nat | b < RegionSize(r) && rec[SlotOf(r, b)].Some?
        ensures FreshAt(r, rec[SlotOf(r, b)].value, dirty, ZEROED, flat, b)
      {
        ShownOfZeroes(r, rec[SlotOf(r, b)].value, b);
      }
      ShownOfZeroes(r, rec[SlotOf(r, a)].value, a);
      assert !FreshAt(r, rec[SlotOf(r, a)].value, dirty', ZEROED, flat, a);
      assert Fresh(r, rec, dirty, ZEROED, flat) && !Fresh(r, rec, dirty', ZEROED, flat);
    }
  }

  /** In particular when no bank that is seen in the refreshed region is still recorded. */
  lemma UnrecordedSurvives(r: Region, rec: Recorded, dirty: seq<set<nat>>, masks: seq<set<nat>>)
    requires |dirty| == BANKS && ShapedRecord(r, rec)
    requires forall s, b | 0 <= s < Slots(r) && rec[s].Some? && b in rec[s].value :: !Sees(masks, b)
    ensures Survives(r, rec, dirty, Cleared(dirty, masks))
  {
    hide Sees, SlotOf, RegionSize, BankGranule;
    forall a: nat | a < RegionSize(r) && rec[SlotOf(r, a)].Some? &&
      DirtyAt(r, rec[SlotOf(r, a)].value, dirty, a / GRANULE)
      ensures DirtyAt(r, rec[SlotOf(r, a)].value, Cleared(dirty, masks), a / GRANULE)
    {
      var b :| b in rec[SlotOf(r, a)].value && BankGranule(r, b, a / GRANULE) in dirty[b];
      assert Cleared(dirty, masks)[b] == dirty[b];
    }
  }

  // ---- runs

  datatype Step =
    | MapBank(bank: nat, cnt: nat)
    | Store(region: Region, addr: nat, bytes: seq<Byte>)
    | StoreLCDC(addr: nat, bytes: seq<Byte>)
    | Use(region: Region)

  predicate WellFormedStep(step: Step) {
    match step
    case MapBank(bank, cnt) => Writable(bank, cnt)
    case Store(r, addr, bytes) => r in {ABG, AOBJ, BBG, BOBJ, ARM7} && IsWidth(|bytes|) && addr % |bytes| == 0
    case StoreLCDC(addr, bytes) => IsWidth(|bytes|) && addr % |bytes| == 0
    case Use(r) => Tracked(r)
  }

  /** All that decides which copies are refreshable: control bytes, dirty granules and recorded
      mappings, but no contents. */
  datatype Tracking = Tracking(cnts: seq<nat>, dirty: seq<set<nat>>, recorded: map<Region, Recorded>)

  ghost predicate ShapedTracking(t: Tracking) {
    && |t.cnts| == |t.dirty| == BANKS
    && forall r | Tracked(r) :: r in t.recorded && ShapedRecord(r, t.recorded[r])
  }

  /** The map entries that the control bytes stand for. */
  ghost function MasksOf(cnts: seq<nat>, r: Region): (masks: seq<set<nat>>)
    requires |cnts| == BANKS
    ensures |masks| == Slots(r)
    ensures forall s, b: nat | 0 <= s < Slots(r) :: b in masks[s] <==> b < BANKS && Covers(b, cnts[b], r, s)
  {
    seq(Slots(r), s requires 0 <= s < Slots(r) => set b: nat | b < BANKS && Covers(b, cnts[b], r, s))
  }

  ghost function Marked(dirty: seq<set<nat>>, r: Region, written: set<nat>, addr: nat): (d: seq<set<nat>>)
    ensures |d| == |dirty|
  {
    seq(|dirty|, b requires 0 <= b < |dirty| =>
      if b in written then dirty[b] + {BankOffset(r, b, addr) / GRANULE} else dirty[b])
  }

  ghost function Next(t: Tracking, step: Step): Tracking
    requires ShapedTracking(t) && WellFormedStep(step)
  {
    match step
    case MapBank(bank, cnt) =>
      t.(cnts := t.cnts[bank := cnt],
         dirty := if t.cnts[bank] != cnt && GivesArm7(bank, cnt) then t.dirty[bank := ALL_GRANULES] else t.dirty)
    case Store(r, addr, bytes) =>
      t.(dirty := Marked(t.dirty, r, if r == ARM7 then {} else MasksOf(t.cnts, r)[SlotOf(r, addr)], addr))
    case StoreLCDC(addr, bytes) =>
      var p := LcdcBank(addr);
      if p.None? || p.value.bank !in MasksOf(t.cnts, LCDC)[0] then t
      else t.(dirty := t.dirty[p.value.bank := t.dirty[p.value.bank] + {p.value.offset / GRANULE}])
    case Use(r) =>
      t.(recorded := t.recorded[r := Recording(MasksOf(t.cnts, r))], dirty := Cleared(t.dirty, MasksOf(t.cnts, r)))
  }

  lemma NextIsShaped(t: Tracking, step: Step)
    requires ShapedTracking(t) && WellFormedStep(step)
    ensures ShapedTracking(Next(t, step))
  {
    hide Covers, MasksOf, Marked;
    if step.Use? {
      forall s | 0 <= s < Slots(step.region) ensures Plausible(step.region, MasksOf(t.cnts, step.region)[s]) {
        MaskIsPlausible(t.cnts, step.region, s);
      }
    }
  }

  lemma MaskIsPlausible(cnts: seq<nat>, r: Region, s: nat)
    requires |cnts| == BANKS && s < Slots(r)
    ensures Plausible(r, MasksOf(cnts, r)[s])
  {
  }

  /** Refreshing r spares every other recorded mapping. */
  ghost predicate Spares(t: Tracking, r: Region)
    requires ShapedTracking(t)
  {
    forall r' | Tracked(r') && r' != r :: Survives(r', t.recorded[r'], t.dirty, Cleared(t.dirty, MasksOf(t.cnts, r)))
  }

  ghost predicate SafeStep(t: Tracking, step: Step)
    requires ShapedTracking(t)
  {
    step.Use? ==> Spares(t, step.region)
  }

  ghost function TrackingOf(f: FlatVram): (t: Tracking)
    requires f.Valid()
    reads f, f.gpu
    ensures ShapedTracking(t)
  {
    Tracking(f.gpu.vramcnt, f.gpu.dirty, f.recorded)
  }

  lemma MasksFollow(m: Maps, cnts: seq<nat>, r: Region)
    requires ShapedMaps(m) && FollowBytes(m, cnts)
    ensures MasksOf(cnts, r) == m[r]
  {
    forall s | 0 <= s < Slots(r) ensures MasksOf(cnts, r)[s] == m[r][s] {
      forall b: nat ensures b in MasksOf(cnts, r)[s] <==> b in m[r][s] {
        assert Has(m, r, s, b) <==> b in m[r][s];
      }
    }
  }

  lemma AllStayFresh(f: FlatVram, banks0: seq<Memory>, dirty0: seq<set<nat>>)
    requires f.Valid() && Accounted(banks0, f.gpu.banks, dirty0, f.gpu.dirty)
    requires forall r | Tracked(r) :: Fresh(r, f.recorded[r], dirty0, banks0, f.flat[r])
    ensures f.AllFresh()
  {
    forall r | Tracked(r) ensures Fresh(r, f.recorded[r], f.gpu.dirty, f.gpu.banks, f.flat[r]) {
      AccountedKeepsFresh(r, f.recorded[r], f.flat[r], banks0, f.gpu.banks, dirty0, f.gpu.dirty);
    }
  }

  method PerformMap(f: FlatVram, bank: nat, cnt: nat)
    requires f.Valid() && Writable(bank, cnt)
    modifies f.gpu
    ensures f.Valid() && TrackingOf(f) == Next(old(TrackingOf(f)), MapBank(bank, cnt))
    ensures old(f.AllFresh()) ==> f.AllFresh()
  {
    hide Fresh, FollowBytes, GetUniqueBankPtr, Plausible;
    ghost var banks0, dirty0, wasFresh := f.gpu.banks, f.gpu.dirty, f.AllFresh();
    f.gpu.WriteVRAMCNT(bank, cnt);
    if wasFresh {
      AllStayFresh(f, banks0, dirty0);
    }
  }

  method PerformStore(f: FlatVram, r: Region, addr: nat, bytes: seq<Byte>)
    requires f.Valid() && WellFormedStep(Store(r, addr, bytes))
    modifies f.gpu
    ensures f.Valid() && TrackingOf(f) == Next(old(TrackingOf(f)), Store(r, addr, bytes))
    ensures old(f.AllFresh()) ==> f.AllFresh()
  {
    hide Fresh, FollowBytes, GetUniqueBankPtr, Plausible, BankOffset;
    ghost var banks0, dirty0, wasFresh := f.gpu.banks, f.gpu.dirty, f.AllFresh();
    MasksFollow(f.gpu.maps, f.gpu.vramcnt, r);
    ghost var mask := f.gpu.maps[r][SlotOf(r, addr)];
    f.gpu.Write(r, addr, bytes);
    assert f.gpu.dirty == Marked(dirty0, r, if r == ARM7 then {} else mask, addr);
    if wasFresh {
      assert r == ARM7 ==> forall b | b in mask :: Has(f.gpu.maps, ARM7, SlotOf(r, addr), b);
      WriteAccounted(r, mask, addr, bytes, banks0, f.gpu.banks, dirty0, f.gpu.dirty);
      AllStayFresh(f, banks0, dirty0);
    }
  }

  method PerformLCDC(f: FlatVram, addr: nat, bytes: seq<Byte>)
    requires f.Valid() && IsWidth(|bytes|) && addr % |bytes| == 0
    modifies f.gpu
    ensures f.Valid() && TrackingOf(f) == Next(old(TrackingOf(f)), StoreLCDC(addr, bytes))
    ensures old(f.AllFresh()) ==> f.AllFresh()
  {
    hide Fresh, FollowBytes, GetUniqueBankPtr, Plausible, LcdcBank;
    ghost var banks0, dirty0, wasFresh := f.gpu.banks, f.gpu.dirty, f.AllFresh();
    MasksFollow(f.gpu.maps, f.gpu.vramcnt, LCDC);
    f.gpu.WriteLCDC(addr, bytes);
    if wasFresh && LcdcBank(addr).Some? && LcdcBank(addr).value.bank in f.gpu.maps[LCDC][0] {
      ghost var p := LcdcBank(addr).value;
      SizesAligned(ABG, p.bank, |bytes|);
      AlignedMod(addr, |bytes|, 0, BankSize(p.bank));
      LcdcAccounted(p, bytes, banks0, f.gpu.banks, dirty0, f.gpu.dirty);
    }
    if wasFresh {
      AllStayFresh(f, banks0, dirty0);
    }
  }

  /** The copy of a region holds what is mapped now. */
  ghost predicate Exact(f: FlatVram, r: Region)
    requires f.Valid() && Tracked(r)
    reads f, f.gpu
  {
    forall a: nat | a < RegionSize(r) :: f.flat[r](a) == Shown(r, f.gpu.maps[r][SlotOf(r, a)], f.gpu.banks, a)
  }

  method PerformUse(f: FlatVram, r: Region)
    requires f.Valid() && Tracked(r)
    modifies f, f.gpu
    ensures f.Valid() && TrackingOf(f) == Next(old(TrackingOf(f)), Use(r))
    ensures old(f.AllFresh()) ==> Exact(f, r) && (old(Spares(TrackingOf(f), r)) ==> f.AllFresh())
  {
    hide Fresh, FollowBytes, GetUniqueBankPtr, Plausible, Survives, Shown;
    MasksFollow(f.gpu.maps, f.gpu.vramcnt, r);
    ghost var t, wasFresh, banks := TrackingOf(f), f.AllFresh(), f.gpu.banks;
    f.Refresh(r);
    if wasFresh && Spares(t, r) {
      forall r' | Tracked(r') && r' != r ensures Fresh(r', f.recorded[r'], f.gpu.dirty, f.gpu.banks, f.flat[r']) {
        StaysFreshExactly(r', f.recorded[r'], t.dirty, f.gpu.dirty);
      }
    }
  }

  /** One step of a run. */
  method Perform(f: FlatVram, step: Step)
    requires f.Valid() && WellFormedStep(step)
    modifies f, f.gpu
    ensures f.Valid() && TrackingOf(f) == Next(old(TrackingOf(f)), step)
    ensures old(f.AllFresh()) && SafeStep(old(TrackingOf(f)), step) ==> f.AllFresh()
    ensures old(f.AllFresh()) && step.Use? ==> Exact(f, step.region)
  {
    hide Next, Spares;
    match step {
      case MapBank(bank, cnt) => PerformMap(f, bank, cnt);
      case Store(r, addr, bytes) => PerformStore(f, r, addr, bytes);
      case StoreLCDC(addr, bytes) => PerformLCDC(f, addr, bytes);
      case Use(r) => PerformUse(f, r);
    }
  }

  /** Every refresh of the run spares the mappings that the other tracking sets recorded. */
  ghost predicate SafeRun(t: Tracking, steps: seq<Step>)
    requires ShapedTracking(t) && forall i | 0 <= i < |steps| :: WellFormedStep(steps[i])
    decreases |steps|
  {
    steps == [] ||
    (SafeStep(t, steps[0]) && (NextIsShaped(t, steps[0]); SafeRun(Next(t, steps[0]), steps[1..])))
  }

  /** Over every safe run, each refresh makes a copy equal to the or of the banks mapped then. */
  method Run(f: FlatVram, steps: seq<Step>)
    requires f.Valid() && f.AllFresh()
    requires (forall i | 0 <= i < |steps| :: WellFormedStep(steps[i])) && SafeRun(TrackingOf(f), steps)
    modifies f, f.gpu
    ensures f.Valid() && f.AllFresh()
    ensures steps != [] && steps[|steps| - 1].Use? ==> Exact(f, steps[|steps| - 1].region)
  {
    hide Next, SafeStep, Exact;
    for i := 0 to |steps|
      invariant f.Valid() && f.AllFresh() && SafeRun(TrackingOf(f), steps[i..])
      invariant i > 0 && steps[i - 1].Use? ==> Exact(f, steps[i - 1].region)
    {
      assert steps[i..][0] == steps[i] && steps[i..][1..] == steps[i + 1..];
      Perform(f, steps[i]);
    }
  }

  // ---- a run that is not safe

  ghost predicate OnlyBankA(f: FlatVram, cnt: nat)
    requires f.Valid()
    reads f, f.gpu
  {
    f.gpu.vramcnt[0] == cnt && forall b | 1 <= b < BANKS :: f.gpu.vramcnt[b] == 0 && f.gpu.dirty[b] == {}
  }

  lemma BankAShows(f: FlatVram, v: Byte)
    requires f.Valid() && OnlyBankA(f, 0x81) && f.gpu.banks[0](0) == v
    ensures f.gpu.maps[ABG][0] == {0} && Shown(ABG, {0}, f.gpu.banks, 0) == v
  {
    forall b: nat ensures b in f.gpu.maps[ABG][0] <==> b == 0 {
      assert b in f.gpu.maps[ABG][0] <==> Has(f.gpu.maps, ABG, 0, b);
    }
    assert BankOffset(ABG, 0, 0) == 0;
    hide BankOffset;
    OrOfEqual(ABG, {0}, f.gpu.banks, 0, BANKS, v);
  }

  const BACKGROUND_A: seq<nat> := [0x81, 0, 0, 0, 0, 0, 0, 0, 0]

  method BankAAsBackground() returns (f: FlatVram)
    ensures fresh(f) && fresh(f.gpu) && f.Valid() && f.gpu.vramcnt == BACKGROUND_A && f.gpu.banks == ZEROED
    ensures forall b | 0 <= b < BANKS :: f.gpu.dirty[b] == {}
    ensures forall r | Tracked(r) :: forall s | 0 <= s < Slots(r) :: f.recorded[r][s] == None
  {
    hide Covers, FollowBytes, GetUniqueBankPtr, Plausible;
    var gpu := new Vram();
    f := new FlatVram(gpu);
    gpu.WriteVRAMCNT(0, 0x81);
    assert gpu.vramcnt == BACKGROUND_A;
  }

  /** The first use as a background. */
  method UseBankA() returns (f: FlatVram)
    ensures fresh(f) && fresh(f.gpu) && f.Valid() && f.gpu.vramcnt == BACKGROUND_A && f.gpu.banks == ZEROED
    ensures forall b | 0 <= b < BANKS :: f.gpu.dirty[b] == {}
    ensures f.flat[ABG](0) == 0 && f.recorded[ABG] == Recording(MasksOf(BACKGROUND_A, ABG))
  {
    hide Covers, FollowBytes, GetUniqueBankPtr, Plausible, Shown, RegionSize, SlotOf, BankOffset, Sees, Stale, FreshAt;
    f := BankAAsBackground();
    BankAShows(f, 0);
    MasksFollow(f.gpu.maps, f.gpu.vramcnt, ABG);
    FirstSlot();
    f.Refresh(ABG);
  }

  lemma FirstSlot()
    ensures SlotOf(ABG, 0) == 0 && RegionSize(ABG) > 0 && Granules(ABG) > 0
  {
  }

  lemma BankAPlace(f: FlatVram, cnt: nat, r: Region)
    requires f.Valid() && f.gpu.vramcnt == BACKGROUND_A[0 := cnt]
    requires (cnt == 0x80 && r == LCDC) || (cnt == 0x83 && r == Texture)
    ensures 0 in f.gpu.maps[r][0] && Sees(f.gpu.maps[r], 0)
  {
    assert Has(f.gpu.maps, r, 0, 0);
  }

  /** Bank A changed through the LCDC region. */
  method ChangeBankA(f: FlatVram)
    requires f.Valid() && f.gpu.vramcnt == BACKGROUND_A && f.gpu.banks == ZEROED
    requires forall b | 0 <= b < BANKS :: f.gpu.dirty[b] == {}
    modifies f.gpu
    ensures f.Valid() && f.gpu.vramcnt == BACKGROUND_A[0 := 0x80] && f.gpu.banks[0](0) == 1
    ensures forall b | 1 <= b < BANKS :: f.gpu.dirty[b] == {}
  {
    hide Covers, FollowBytes, GetUniqueBankPtr, Plausible;
    f.gpu.WriteVRAMCNT(0, 0x80);
    BankAPlace(f, 0x80, LCDC);
    assert LcdcBank(0) == Some(Pointer(0, 0));
    f.gpu.WriteLCDC(0, [1]);
  }

  /** Bank A used as a texture. */
  method LendBankA(f: FlatVram)
    requires f.Valid() && f.gpu.vramcnt == BACKGROUND_A[0 := 0x80]
    requires forall b | 1 <= b < BANKS :: f.gpu.dirty[b] == {}
    modifies f, f.gpu
    ensures f.Valid() && f.gpu.vramcnt == BACKGROUND_A[0 := 0x83] && f.gpu.banks == old(f.gpu.banks)
    ensures forall b | 0 <= b < BANKS :: f.gpu.dirty[b] == {}
    ensures f.flat[ABG] == old(f.flat[ABG]) && f.recorded[ABG] == old(f.recorded[ABG])
  {
    hide Covers, GetUniqueBankPtr, Shown, RegionSize, Slots, SlotOf, Sees, Fresh, Vram.PointersValid, DirtyForArm7,
      ShapedRecord;
    f.gpu.WriteVRAMCNT(0, 0x83);
    BankAPlace(f, 0x83, Texture);
    f.Refresh(Texture);
  }

  /** The texture's tracking set clears the granules of bank A before the background's has seen
      the change; the background then finds the mapping it recorded and nothing dirty. */
  method StaleCopy() returns (f: FlatVram)
    ensures f.Valid() && !Exact(f, ABG)
  {
    hide Covers, GetUniqueBankPtr, Shown, RegionSize, Slots, SlotOf, BankOffset, Sees, Fresh, MasksOf,
      Vram.PointersValid,
      DirtyForArm7, ShapedRecord, Exact;
    f := UseBankA();
    ChangeBankA(f);
    LendBankA(f);
    f.gpu.WriteVRAMCNT(0, 0x81);
    assert f.gpu.vramcnt == BACKGROUND_A;
    UseAgain(f);
  }

  method UseAgain(f: FlatVram)
    requires f.Valid() && f.gpu.vramcnt == BACKGROUND_A && f.gpu.banks[0](0) == 1 && f.flat[ABG](0) == 0
    requires f.recorded[ABG] == Recording(MasksOf(BACKGROUND_A, ABG))
    requires forall b | 0 <= b < BANKS :: f.gpu.dirty[b] == {}
    modifies f, f.gpu
    ensures f.Valid() && !Exact(f, ABG)
  {
    hide Covers, FollowBytes, GetUniqueBankPtr, Plausible, Shown, RegionSize, SlotOf, BankOffset, Sees, Fresh, MasksOf;
    MasksFollow(f.gpu.maps, f.gpu.vramcnt, ABG);
    FirstSlot();
    BankAShows(f, 1);
    var stale := f.DeriveState(ABG);
    f.CopyLinear(ABG, stale);
    assert f.flat[ABG](0) == 0;
  }
}
