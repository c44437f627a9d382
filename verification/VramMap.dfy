/** The nine VRAM banks: which control byte maps a bank where, the incrementally maintained
    maps and pointers, and reads and writes through them. A set of banks stands for a mask. */
module VramMap {
  import opened Options

  type Byte = bv8
  type Memory = nat -> Byte

  const BANKS := 9
  const GRANULE: nat := 512
  const ALL_GRANULES := set g: nat | g < 256

  const ZEROED: seq<Memory> := seq(BANKS, _ => (a: nat) => 0)

  datatype Region = LCDC | ABG | AOBJ | BBG | BOBJ | ABGExtPal | AOBJExtPal | BBGExtPal | BOBJExtPal
                  | Texture | TexPal | ARM7

  /** The number of separately mapped slots of a region, and the size of one. */
  function Slots(r: Region): (n: nat)
    ensures n > 0
  {
    match r
    case LCDC => 1
    case ABG => 32
    case AOBJ => 16
    case BBG => 8
    case BOBJ => 8
    case ABGExtPal => 4
    case AOBJExtPal => 1
    case BBGExtPal => 4
    case BOBJExtPal => 1
    case Texture => 4
    case TexPal => 8
    case ARM7 => 2
  }

  function SlotSize(r: Region): (n: nat)
    ensures n in {0x2000, 0x4000, 0x2_0000}
  {
    match r
    case ABGExtPal | AOBJExtPal | BBGExtPal | BOBJExtPal => 0x2000
    case Texture | ARM7 => 0x2_0000
    case _ => 0x4000
  }

  function SlotOf(r: Region, addr: nat): (s: nat)
    ensures s < Slots(r)
  {
    (addr / SlotSize(r)) % Slots(r)
  }

  function BankSize(b: nat): (n: nat)
    ensures n in {0x4000, 0x8000, 0x1_0000, 0x2_0000}
  {
    if b < 4 then 0x2_0000
    else if b == 4 then 0x1_0000
    else if b == 7 then 0x8000
    else 0x4000
  }

  /** Whether a bank with this control byte is visible in a slot of a region: enable bit 7,
      region select in the low bits, offset in bits 3 to 5. */
  predicate Covers(bank: nat, cnt: nat, r: Region, slot: nat) {
    cnt / 0x80 == 1 && slot < Slots(r) &&
    if bank in {0, 1} then CoversAB(cnt % 4, (cnt / 8) % 4, r, slot)
    else if bank in {2, 3} then CoversCD(bank, cnt % 8, (cnt / 8) % 8, r, slot)
    else if bank == 4 then CoversE(cnt % 8, r, slot)
    else if bank in {5, 6} then CoversFG(cnt % 8, (cnt / 8) % 8, r, slot)
    else if bank == 7 then CoversH(cnt % 4, r, slot)
    else bank == 8 && CoversI(cnt % 4, r, slot)
  }

  predicate CoversAB(mst: nat, ofs: nat, r: Region, slot: nat) {
    match r
    case LCDC => mst == 0
    case ABG => mst == 1 && slot / 8 == ofs
    case AOBJ => mst == 2 && slot / 8 == ofs % 2
    case Texture => mst == 3 && slot == ofs
    case _ => false
  }

  predicate CoversCD(bank: nat, mst: nat, ofs: nat, r: Region, slot: nat) {
    match r
    case LCDC => mst == 0
    case ABG => mst == 1 && slot / 8 == ofs
    case ARM7 => mst == 2 && slot == ofs % 2
    case Texture => mst == 3 && slot == ofs
    case BBG => mst == 4 && bank == 2
    case BOBJ => mst == 4 && bank == 3
    case _ => false
  }

  predicate CoversE(mst: nat, r: Region, slot: nat) {
    match r
    case LCDC => mst == 0
    case ABG => mst == 1 && slot < 4
    case AOBJ => mst == 2 && slot < 4
    case TexPal => mst == 3 && slot < 4
    case ABGExtPal => mst == 4
    case _ => false
  }

  predicate CoversFG(mst: nat, ofs: nat, r: Region, slot: nat) {
    match r
    case LCDC => mst == 0
    case ABG => mst == 1 && SeenTwice(ofs, slot)
    case AOBJ => mst == 2 && SeenTwice(ofs, slot)
    case TexPal => mst == 3 && SeenTwice(ofs, slot) && slot % 4 < 2
    case ABGExtPal => mst == 4 && slot / 2 == ofs % 2
    case AOBJExtPal => mst == 5
    case _ => false
  }

  predicate CoversH(mst: nat, r: Region, slot: nat) {
    match r
    case LCDC => mst == 0
    case BBG => mst == 1 && slot % 4 < 2
    case BBGExtPal => mst == 2
    case _ => false
  }

  predicate CoversI(mst: nat, r: Region, slot: nat) {
    match r
    case LCDC => mst == 0
    case BBG => mst == 1 && slot % 4 >= 2
    case BOBJ => mst == 2
    case BOBJExtPal => mst == 3
    case _ => false
  }

  /** Banks F and G appear at their base and again 0x8000 bytes further on. */
  predicate SeenTwice(ofs: nat, slot: nat) {
    slot < 8 && slot % 2 == ofs % 2 && slot / 4 == ofs / 2 % 2
  }

  lemma OneRegion(bank: nat, cnt: nat, r: Region, s: nat, r': Region, s': nat)
    requires Covers(bank, cnt, r, s) && Covers(bank, cnt, r', s')
    ensures r == r'
  {
  }

  /** The C and D offsets for which the source's map indices stay in range. */
  predicate Writable(bank: nat, cnt: nat) {
    bank < BANKS && cnt < 0x100 && (bank in {2, 3} ==> (cnt / 8) % 8 < 4)
  }

  // ---- pointers

  datatype Pointer = Pointer(bank: nat, offset: nat)

  /** The lowest element, from k on, of a mask below 9. */
  function Lowest(mask: set<nat>, k: nat): (b: nat)
    requires exists b :: b in mask && k <= b < BANKS
    ensures b in mask && k <= b < BANKS
    decreases BANKS - k
  {
    if k in mask then k else Lowest(mask, k + 1)
  }

  predicate Below9(mask: set<nat>) { forall b | b in mask :: b < BANKS }

  function GetUniqueBankPtr(mask: set<nat>, offset: nat): (p: Option<Pointer>)
    requires Below9(mask)
    ensures p.Some? <==> exists b :: mask == {b}
    ensures p.Some? ==> mask == {p.value.bank} && p.value.offset == offset % BankSize(p.value.bank)
  {
    if mask == {} then None
    else
      var num := Lowest(mask, 0);
      if mask - {num} != {} then None
      else
        assert mask == {num};
        Some(Pointer(num, offset % BankSize(num)))
  }

  function MaskWith(mask: set<nat>, bank: nat, on: bool): (m: set<nat>)
    ensures forall b :: b in m <==> if b == bank then on else b in mask
    ensures bank < BANKS && Below9(mask) ==> Below9(m)
  {
    if on then mask + {bank} else mask - {bank}
  }

  // ---- maps

  type Maps = map<Region, seq<set<nat>>>

  predicate ShapedMaps(m: Maps) {
    forall r: Region :: r in m && |m[r]| == Slots(r) && forall s | 0 <= s < Slots(r) :: Below9(m[r][s])
  }

  predicate Has(m: Maps, r: Region, s: nat, b: nat) {
    r in m && s < |m[r]| && b in m[r][s]
  }

  /** A bank switched on or off in a range of slots. */
  ghost predicate Changed(m: Maps, m': Maps, r: Region, base: nat, n: nat, bank: nat, on: bool) {
    forall r': Region, s: nat, b: nat :: Has(m', r', s, b) <==>
      if r' == r && base <= s < base + n && b == bank then on else Has(m, r', s, b)
  }

  ghost predicate ChangedEach(m: Maps, m': Maps, r: Region, slots: seq<nat>, bank: nat, on: bool) {
    forall r': Region, s: nat, b: nat ::
      Has(m', r', s, b) <==> if r' == r && s in slots && b == bank then on else Has(m, r', s, b)
  }

  /** A bank switched on or off everywhere its control byte puts it. */
  ghost predicate Switched(m: Maps, m': Maps, bank: nat, cnt: nat, on: bool) {
    forall r: Region, s: nat, b: nat :: Has(m', r, s, b) <==>
      if b == bank && Covers(bank, cnt, r, s) then on else Has(m, r, s, b)
  }

  /** Every map is the function of the control bytes that Covers describes. */
  ghost predicate FollowBytes(m: Maps, cnts: seq<nat>) {
    && |cnts| == BANKS && (forall b | 0 <= b < BANKS :: Writable(b, cnts[b]))
    && forall r: Region, s: nat, b: nat :: Has(m, r, s, b) <==> b < BANKS && Covers(b, cnts[b], r, s)
  }

  lemma ByteChanged(m: Maps, m1: Maps, m2: Maps, cnts: seq<nat>, bank: nat, cnt: nat)
    requires FollowBytes(m, cnts) && Writable(bank, cnt)
    requires Switched(m, m1, bank, cnts[bank], false) && Switched(m1, m2, bank, cnt, true)
    ensures FollowBytes(m2, cnts[bank := cnt])
  {
    hide Covers, Has;
    var cnts' := cnts[bank := cnt];
    assert forall b | 0 <= b < BANKS :: Writable(b, cnts'[b]);
    forall r: Region, s: nat, b: nat ensures Has(m2, r, s, b) <==> b < BANKS && Covers(b, cnts'[b], r, s) {
      assert Has(m2, r, s, b) <==> if b == bank && Covers(bank, cnt, r, s) then true else Has(m1, r, s, b);
      assert Has(m, r, s, b) <==> b < BANKS && Covers(b, cnts[b], r, s);
    }
  }

  /** The byte hands bank C or D to the ARM7. */
  predicate GivesArm7(bank: nat, cnt: nat) {
    bank in {2, 3} && cnt / 0x80 == 1 && cnt % 8 == 2
  }

  lemma GivesArm7Means(bank: nat, cnt: nat)
    ensures GivesArm7(bank, cnt) <==> exists s :: Covers(bank, cnt, ARM7, s)
  {
    if GivesArm7(bank, cnt) {
      assert Covers(bank, cnt, ARM7, (cnt / 8) % 8 % 2);
    }
  }

  /** All granules of a bank are dirty as long as the ARM7 can write it. */
  ghost predicate DirtyForArm7(m: Maps, dirty: seq<set<nat>>) {
    && |dirty| == BANKS
    && forall s: nat, b: nat | Has(m, ARM7, s, b) && b < BANKS :: dirty[b] == ALL_GRANULES
  }

  lemma StaysDirtyForArm7(m: Maps, m1: Maps, m2: Maps, dirty: seq<set<nat>>, dirty': seq<set<nat>>, bank: nat,
                          oldcnt: nat, cnt: nat)
    requires DirtyForArm7(m, dirty) && bank < BANKS
    requires Switched(m, m1, bank, oldcnt, false) && Switched(m1, m2, bank, cnt, true)
    requires dirty' == if GivesArm7(bank, cnt) then dirty[bank := ALL_GRANULES] else dirty
    ensures DirtyForArm7(m2, dirty')
  {
    GivesArm7Means(bank, cnt);
    hide Covers, Has, GivesArm7;
    forall s: nat, b: nat | Has(m2, ARM7, s, b) && b < BANKS ensures dirty'[b] == ALL_GRANULES {
      assert Has(m1, ARM7, s, b) ==> Has(m, ARM7, s, b);
    }
  }

  /** A bank is visible in at most one region, whatever was written before. */
  lemma AtMostOneRegion(m: Maps, cnts: seq<nat>, b: nat, r: Region, s: nat, r': Region, s': nat)
    requires FollowBytes(m, cnts) && Has(m, r, s, b) && Has(m, r', s', b)
    ensures r == r'
  {
    OneRegion(b, cnts[b], r, s, r', s');
  }

  lemma OneMaskChanged(m: Maps, r: Region, s: nat, bank: nat, on: bool)
    requires ShapedMaps(m) && s < Slots(r) && bank < BANKS
    ensures var m' := m[r := m[r][s := MaskWith(m[r][s], bank, on)]];
      ShapedMaps(m') && Changed(m, m', r, s, 1, bank, on)
  {
    hide Slots, Below9;
    var m' := m[r := m[r][s := MaskWith(m[r][s], bank, on)]];
    forall r': Region, s': nat, b: nat
      ensures Has(m', r', s', b) <==> if r' == r && s' == s && b == bank then on else Has(m, r', s', b)
    {
    }
  }

  lemma SlotsCD(bank: nat, mst: nat, ofs: nat)
    requires ofs < 4
    ensures forall r: Region, s: nat :: s < Slots(r) && CoversCD(bank, mst, ofs, r, s) <==>
      ListedCD(bank, mst, ofs, r, s)
  {
    forall r: Region, s: nat ensures s < Slots(r) && CoversCD(bank, mst, ofs, r, s) <==>
      ListedCD(bank, mst, ofs, r, s) {
      assert s / 8 == ofs <==> 8 * ofs <= s < 8 * ofs + 8;
    }
  }

  predicate ListedCD(bank: nat, mst: nat, ofs: nat, r: Region, s: nat) {
    || (mst == 0 && r == LCDC && s < 1)
    || (mst == 1 && r == ABG && 8 * ofs <= s < 8 * ofs + 8)
    || (mst == 2 && r == ARM7 && s == ofs % 2)
    || (mst == 3 && r == Texture && s == ofs)
    || (mst == 4 && r == BBG && bank == 2 && s < 8)
    || (mst == 4 && r == BOBJ && bank == 3 && s < 8)
  }

  /** The slots of F and G, listed. */
  lemma SlotsFG(mst: nat, ofs: nat, base: nat)
    requires base == ofs % 2 + 4 * (ofs / 2 % 2)
    ensures base + 2 < 8
    ensures forall r: Region, s: nat :: CoversFG(mst, ofs, r, s) <==>
      || (mst == 0 && r == LCDC)
      || (mst == 1 && r == ABG && s in [base, base + 2])
      || (mst == 2 && r == AOBJ && s in [base, base + 2])
      || (mst == 3 && r == TexPal && s == base)
      || (mst == 4 && r == ABGExtPal && s in [2 * (ofs % 2), 2 * (ofs % 2) + 1])
      || (mst == 5 && r == AOBJExtPal)
  {
    forall s: nat ensures SeenTwice(ofs, s) <==> s in [base, base + 2] {
    }
    forall s: nat ensures s / 2 == ofs % 2 <==> s in [2 * (ofs % 2), 2 * (ofs % 2) + 1] {
    }
  }

  predicate HasPointers(r: Region) { r in {ABG, AOBJ, BBG, BOBJ} }

  // ---- contents

  function RegionSize(r: Region): (n: nat)
    ensures n > 0
  {
    Slots(r) * SlotSize(r)
  }

  /** Where a bank is read or written for an address of a region. */
  function BankOffset(r: Region, b: nat, addr: nat): nat {
    addr % RegionSize(r) % BankSize(b)
  }

  function Or(x: Byte, y: Byte): (z: Byte)
    ensures x == 0 ==> z == y
    ensures y == 0 || x == y ==> z == x
  {
    x | y
  }

  /** The byte that a set of banks shows at an address: all of them, from bank n - 1 down,
      ored together. */
  function OrAll(r: Region, mask: set<nat>, banks: seq<Memory>, addr: nat, n: nat): Byte
    requires n <= |banks|
  {
    if n == 0 then 0
    else Or(OrAll(r, mask, banks, addr, n - 1), if n - 1 in mask then banks[n - 1](BankOffset(r, n - 1, addr)) else 0)
  }

  /** Banks that all show the same byte show it together. */
  lemma {:induction false} OrOfEqual(r: Region, mask: set<nat>, banks: seq<Memory>, addr: nat, n: nat, v: Byte)
    requires n <= |banks| && forall b | b in mask && b < n :: banks[b](BankOffset(r, b, addr)) == v
    ensures OrAll(r, mask, banks, addr, n) == if exists b :: b in mask && b < n then v else 0
  {
    hide Or, BankOffset;
    if n > 0 {
      OrOfEqual(r, mask, banks, addr, n - 1, v);
    }
  }

  /** The tests a slow read makes, in order: a bit of the mask and the bank it stands for. The
      object extended palette of engine A tests the wrong bits. */
  function ReadTests(r: Region): seq<(nat, nat)> {
    match r
    case ABG => [(0, 0), (1, 1), (2, 2), (3, 3), (4, 4), (5, 5), (6, 6)]
    case AOBJ => [(0, 0), (1, 1), (4, 4), (5, 5), (6, 6)]
    case BBG => [(2, 2), (7, 7), (8, 8)]
    case BOBJ => [(3, 3), (8, 8)]
    case ABGExtPal | TexPal => [(4, 4), (5, 5), (6, 6)]
    case AOBJExtPal => [(4, 5), (5, 6)]
    case BBGExtPal => [(7, 7)]
    case BOBJExtPal => [(8, 8)]
    case Texture => [(0, 0), (1, 1), (2, 2), (3, 3)]
    case ARM7 => [(2, 2), (3, 3)]
    case LCDC => []
  }

  /** The byte a slow read composes. */
  function SlowByte(r: Region, tests: seq<(nat, nat)>, mask: set<nat>, banks: seq<Memory>, addr: nat): Byte
    requires forall t | t in tests :: t.1 < |banks|
  {
    if tests == [] then 0
    else
      var t := tests[|tests| - 1];
      Or(SlowByte(r, tests[..|tests| - 1], mask, banks, addr),
        if t.0 in mask then banks[t.1](BankOffset(r, t.1, addr)) else 0)
  }

  /** What a read of a region returns for one byte. */
  function ReadByte(r: Region, mask: set<nat>, banks: seq<Memory>, addr: nat): Byte
    requires |banks| == BANKS
  {
    if r == AOBJExtPal then SlowByte(r, ReadTests(r), mask, banks, addr) else OrAll(r, mask, banks, addr, BANKS)
  }

  predicate InTests(tests: seq<(nat, nat)>, b: nat) { (b, b) in tests }

  /** Tests of ascending bits for their own banks compute the or of a mask that has no others. */
  lemma {:induction false} SlowIsOr(r: Region, tests: seq<(nat, nat)>, mask: set<nat>, banks: seq<Memory>,
                                    addr: nat, n: nat)
    requires n <= |banks| && forall t | t in tests :: t.0 == t.1 < n
    requires forall i, j | 0 <= i < j < |tests| :: tests[i].0 < tests[j].0
    requires forall b | b in mask && b < n :: InTests(tests, b)
    ensures SlowByte(r, tests, mask, banks, addr) == OrAll(r, mask, banks, addr, n)
    decreases n
  {
    hide Or, BankOffset;
    if n > 0 {
      var last := |tests| - 1;
      if tests != [] && tests[last] == (n - 1, n - 1) {
        forall b | b in mask && b < n - 1 ensures InTests(tests[..last], b) {
          assert InTests(tests, b);
        }
        SlowIsOr(r, tests[..last], mask, banks, addr, n - 1);
      } else {
        forall i | 0 <= i < |tests| ensures tests[i].0 < n - 1 {
          assert tests[last] in tests && (i < last ==> tests[i].0 < tests[last].0);
        }
        SlowIsOr(r, tests, mask, banks, addr, n - 1);
      }
    }
  }

  /** The banks a map entry can hold are those its region's reads test. */
  lemma MaskWithinTests(m: Maps, cnts: seq<nat>, r: Region, s: nat, b: nat)
    requires FollowBytes(m, cnts) && Has(m, r, s, b) && r != LCDC && r != AOBJExtPal
    ensures InTests(ReadTests(r), b)
  {
  }

  // ---- where the bytes of a bank are seen, in numbers

  /** Byte o of a bank with this control byte is seen at address a of a region. */
  predicate SeenAt(bank: nat, cnt: nat, r: Region, a: nat, o: nat) {
    cnt / 0x80 == 1 && o < 0x2_0000 &&
    if bank < 2 then SeenAB(cnt % 4, cnt / 8 % 4, r, a, o)
    else if bank < 4 then SeenCD(bank, cnt % 8, cnt / 8 % 8, r, a, o)
    else if bank == 4 then SeenE(cnt % 8, r, a, o)
    else if bank < 7 then SeenFG(cnt % 8, 0x4000 * (cnt / 8 % 2) + 0x1_0000 * (cnt / 16 % 2), r, a, o)
    else if bank == 7 then SeenH(cnt % 4, r, a, o)
    else bank == 8 && SeenI(cnt % 4, r, a, o)
  }

  predicate SeenAB(mst: nat, ofs: nat, r: Region, a: nat, o: nat) {
    match r
    case ABG => mst == 1 && a % 0x8_0000 == 0x2_0000 * ofs + o
    case AOBJ => mst == 2 && a % 0x4_0000 == 0x2_0000 * (ofs % 2) + o
    case Texture => mst == 3 && a % 0x8_0000 == 0x2_0000 * ofs + o
    case _ => false
  }

  predicate SeenCD(bank: nat, mst: nat, ofs: nat, r: Region, a: nat, o: nat) {
    match r
    case ABG => mst == 1 && a % 0x8_0000 == 0x2_0000 * ofs + o
    case ARM7 => mst == 2 && a % 0x4_0000 == 0x2_0000 * (ofs % 2) + o
    case Texture => mst == 3 && a % 0x8_0000 == 0x2_0000 * ofs + o
    case BBG => bank == 2 && mst == 4 && a % 0x2_0000 == o
    case BOBJ => bank == 3 && mst == 4 && a % 0x2_0000 == o
    case _ => false
  }

  predicate SeenE(mst: nat, r: Region, a: nat, o: nat) {
    match r
    case ABG => mst == 1 && a % 0x8_0000 == o < 0x1_0000
    case AOBJ => mst == 2 && a % 0x4_0000 == o < 0x1_0000
    case TexPal => mst == 3 && a % 0x2_0000 == o < 0x1_0000
    case ABGExtPal => mst == 4 && a % 0x8000 == o
    case _ => false
  }

  /** At its base and once more 0x8000 bytes further on, except in the palettes. */
  predicate SeenFG(mst: nat, base: nat, r: Region, a: nat, o: nat) {
    o < 0x4000 &&
    match r
    case ABG => mst == 1 && a % 0x8_0000 in {base + o, base + 0x8000 + o}
    case AOBJ => mst == 2 && a % 0x4_0000 in {base + o, base + 0x8000 + o}
    case TexPal => mst == 3 && a % 0x2_0000 == base + o
    case ABGExtPal => mst == 4 && a % 0x8000 == base % 0x8000 + o
    case AOBJExtPal => mst == 5 && a % 0x2000 == o
    case _ => false
  }

  predicate SeenH(mst: nat, r: Region, a: nat, o: nat) {
    o < 0x8000 &&
    match r
    case BBG => mst == 1 && a % 0x1_0000 == o
    case BBGExtPal => mst == 2 && a % 0x8000 == o
    case _ => false
  }

  predicate SeenI(mst: nat, r: Region, a: nat, o: nat) {
    o < 0x4000 &&
    match r
    case BBG => mst == 1 && a % 0x1_0000 in {0x8000 + o, 0xC000 + o}
    case BOBJ => mst == 2 && a % 0x4000 == o
    case BOBJExtPal => mst == 3 && a % 0x2000 == o
    case _ => false
  }

  lemma SlotInRegion(r: Region, a: nat)
    ensures SlotOf(r, a) == a % RegionSize(r) / SlotSize(r)
  {
    hide SlotSize, Slots;
    var d, n := SlotSize(r), Slots(r);
    MulMod(d, a / d, n, a % d);
    DivUnique(a % (d * n), d, a / d % n, a % d);
  }

  /** m slots of d bytes. */
  lemma SlotAt(x: nat, d: nat, m: nat)
    requires d > 0 && m > 0
    ensures d * m > 0 && x / d / m == x / (d * m) && x % (d * m) == d * (x / d % m) + x % d
  {
    assert x == d * (x / d) + x % d;
    MulMod(d, x / d, m, x % d);
  }

  lemma SeenByAB(mst: nat, ofs: nat, r: Region, a: nat, o: nat)
    requires r != LCDC && ofs < 4
    ensures CoversAB(mst, ofs, r, SlotOf(r, a)) && a % RegionSize(r) % 0x2_0000 == o <==>
      SeenAB(mst, ofs, r, a, o) && o < 0x2_0000
  {
    SlotInRegion(r, a);
    hide SlotOf;
    SlotAt(a % RegionSize(r), 0x4000, 8);
  }

  lemma SeenByCD(bank: nat, mst: nat, ofs: nat, r: Region, a: nat, o: nat)
    requires r != LCDC
    ensures CoversCD(bank, mst, ofs, r, SlotOf(r, a)) && a % RegionSize(r) % 0x2_0000 == o <==>
      SeenCD(bank, mst, ofs, r, a, o) && o < 0x2_0000
  {
    SlotInRegion(r, a);
    hide SlotOf;
    SlotAt(a % RegionSize(r), 0x4000, 8);
  }

  lemma SeenByE(mst: nat, r: Region, a: nat, o: nat)
    requires r != LCDC
    ensures CoversE(mst, r, SlotOf(r, a)) && a % RegionSize(r) % 0x1_0000 == o <==> SeenE(mst, r, a, o)
  {
    SlotInRegion(r, a);
    hide SlotOf;
    SlotAt(a % RegionSize(r), 0x4000, 4);
  }

  lemma ModOfMod(a: nat, m: nat, k: nat)
    requires m > 0 && k > 0
    ensures m * k > 0 && a % (m * k) % m == a % m
  {
    assert a == m * (a / m) + a % m;
    MulMod(m, a / m, k, a % m);
    DivUnique(a % (m * k), m, a / m % k, a % m);
  }

  lemma SeenByFG(mst: nat, ofs: nat, r: Region, a: nat, o: nat)
    requires r != LCDC
    ensures CoversFG(mst, ofs, r, SlotOf(r, a)) && a % RegionSize(r) % 0x4000 == o <==>
      SeenFG(mst, 0x4000 * (ofs % 2) + 0x1_0000 * (ofs / 2 % 2), r, a, o)
  {
    SlotInRegion(r, a);
    var x := a % RegionSize(r);
    var q := x / 0x4000;
    assert x == 0x4000 * q + x % 0x4000;
    match r {
      case ABG | AOBJ => FgTwice(ofs, q, x, o);
      case TexPal => FgOnce(ofs, q, x, o);
      case ABGExtPal => SlotAt(x, 0x2000, 2); FgPalette(ofs, x, o);
      case _ =>
    }
  }

  /** The two slots below eight in which F and G are seen. */
  lemma FgTwice(ofs: nat, q: nat, x: nat, o: nat)
    requires x == 0x4000 * q + x % 0x4000
    ensures var base := 0x4000 * (ofs % 2) + 0x1_0000 * (ofs / 2 % 2);
      SeenTwice(ofs, q) && x % 0x4000 == o <==> o < 0x4000 && (x == base + o || x == base + 0x8000 + o)
  {
    var k := ofs % 2 + 4 * (ofs / 2 % 2);
    assert SeenTwice(ofs, q) <==> q == k || q == k + 2;
    hide SeenTwice;
    AtSlot(x, k, o);
    AtSlot(x, k + 2, o);
  }

  lemma FgOnce(ofs: nat, q: nat, x: nat, o: nat)
    requires x == 0x4000 * q + x % 0x4000
    ensures var base := 0x4000 * (ofs % 2) + 0x1_0000 * (ofs / 2 % 2);
      SeenTwice(ofs, q) && q % 4 < 2 && x % 0x4000 == o <==> o < 0x4000 && x == base + o
  {
    var k := ofs % 2 + 4 * (ofs / 2 % 2);
    assert SeenTwice(ofs, q) && q % 4 < 2 <==> q == k;
    hide SeenTwice;
    AtSlot(x, k, o);
  }

  lemma FgPalette(ofs: nat, x: nat, o: nat)
    ensures var base := 0x4000 * (ofs % 2) + 0x1_0000 * (ofs / 2 % 2);
      x / 0x4000 == ofs % 2 && x % 0x4000 == o <==> o < 0x4000 && x == base % 0x8000 + o
  {
    AtSlot(x, ofs % 2, o);
  }

  lemma AtSlot(x: nat, k: nat, o: nat)
    ensures x / 0x4000 == k && x % 0x4000 == o <==> o < 0x4000 && x == 0x4000 * k + o
  {
  }

  lemma SeenByH(mst: nat, r: Region, a: nat, o: nat)
    requires r != LCDC
    ensures CoversH(mst, r, SlotOf(r, a)) && a % RegionSize(r) % 0x8000 == o <==> SeenH(mst, r, a, o)
  {
    SlotInRegion(r, a);
    if r == BBG {
      hide SlotOf;
      FourSlots(a);
      LowerHalf(a, o);
    }
  }

  lemma SeenByI(mst: nat, r: Region, a: nat, o: nat)
    requires r != LCDC
    ensures CoversI(mst, r, SlotOf(r, a)) && a % RegionSize(r) % 0x4000 == o <==> SeenI(mst, r, a, o)
  {
    SlotInRegion(r, a);
    if r == BBG {
      hide SlotOf;
      FourSlots(a);
      UpperHalf(a, o);
    } else if r == BOBJ {
      ModOfMod(a, 0x4000, 8);
    }
  }

  /** Eight slots of the B background are four, twice. */
  lemma FourSlots(a: nat)
    ensures var x, y := a % 0x2_0000, a % 0x1_0000;
      x / 0x4000 % 4 == y / 0x4000 && x % 0x8000 == y % 0x8000 && x % 0x4000 == y % 0x4000
  {
    var x, y := a % 0x2_0000, a % 0x1_0000;
    ModOfMod(a, 0x1_0000, 2);
    SlotAt(x, 0x4000, 4);
    DivUnique(y, 0x4000, x / 0x4000 % 4, x % 0x4000);
    ModOfMod(a, 0x8000, 4);
    ModOfMod(a, 0x8000, 2);
    ModOfMod(a, 0x4000, 8);
    ModOfMod(a, 0x4000, 4);
  }

  lemma LowerHalf(a: nat, o: nat)
    ensures var y := a % 0x1_0000; y / 0x4000 < 2 && y % 0x8000 == o <==> o < 0x8000 && y == o
  {
  }

  lemma UpperHalf(a: nat, o: nat)
    ensures var y := a % 0x1_0000;
      y / 0x4000 >= 2 && y % 0x4000 == o <==> o < 0x4000 && (y == 0x8000 + o || y == 0xC000 + o)
  {
  }

  /** The slots a control byte covers, and the offset in the bank, put each byte of the bank at
      these addresses and no others. */
  lemma SeenExactly(bank: nat, cnt: nat, r: Region, a: nat, o: nat)
    requires bank < BANKS && r != LCDC
    ensures Covers(bank, cnt, r, SlotOf(r, a)) && BankOffset(r, bank, a) == o <==> SeenAt(bank, cnt, r, a, o)
  {
    hide SlotOf, RegionSize, CoversAB, CoversCD, CoversE, CoversFG, CoversH, CoversI, SeenAB, SeenCD, SeenE, SeenFG;
    hide SeenH, SeenI;
    SeenByAB(cnt % 4, cnt / 8 % 4, r, a, o);
    SeenByCD(bank, cnt % 8, cnt / 8 % 8, r, a, o);
    SeenByE(cnt % 8, r, a, o);
    SeenByFG(cnt % 8, cnt / 8 % 8, r, a, o);
    SeenByH(cnt % 4, r, a, o);
    SeenByI(cnt % 4, r, a, o);
    SmallOffset(bank, cnt, r, a, o);
  }

  lemma SmallOffset(bank: nat, cnt: nat, r: Region, a: nat, o: nat)
    ensures BankOffset(r, bank, a) < BankSize(bank) <= 0x2_0000
    ensures cnt / 8 % 8 / 2 % 2 == cnt / 16 % 2 && cnt / 8 % 8 % 2 == cnt / 8 % 2
  {
  }

  // ---- the bits that are read

  /** The byte has a bit of m. */
  predicate Lit(x: Byte, m: Byte) { x & m != 0 }

  lemma OrMask(x: Byte, y: Byte, m: Byte)
    ensures Lit(Or(x, y), m) <==> Lit(x, m) || Lit(y, m)
    ensures !Lit(0, m)
  {
  }

  lemma {:induction false} OrAllMask(r: Region, mask: set<nat>, banks: seq<Memory>, a: nat, n: nat, m: Byte)
    requires n <= |banks|
    ensures Lit(OrAll(r, mask, banks, a, n), m) <==>
      exists b: nat :: b < n && b in mask && Lit(banks[b](BankOffset(r, b, a)), m)
  {
    hide Or, BankOffset, Lit;
    OrMask(0, 0, m);
    if n > 0 {
      OrAllMask(r, mask, banks, a, n - 1, m);
      var last := if n - 1 in mask then banks[n - 1](BankOffset(r, n - 1, a)) else 0;
      OrMask(OrAll(r, mask, banks, a, n - 1), last, m);
      if Lit(last, m) {
        assert n - 1 in mask && Lit(banks[n - 1](BankOffset(r, n - 1, a)), m);
      }
    }
  }

  /** Some bank shows a byte with a bit of m at address a of a region. */
  ghost predicate SomeBankShows(r: Region, cnts: seq<nat>, banks: seq<Memory>, a: nat, m: Byte)
    requires |cnts| == |banks| == BANKS
  {
    exists b: nat, o: nat | b < BANKS && SeenAt(b, cnts[b], r, a, o) :: Lit(banks[b](o), m)
  }

  predicate Given(bank: nat, cnts: seq<nat>, r: Region, a: nat)
    requires bank < |cnts|
  {
    SeenAt(bank, cnts[bank], r, a, a % 0x2000)
  }

  /** What a read finds of m: a bit of some bank that shows the address, but from the object palette
      of engine A the bits of bank G, if bank F is given to it. */
  ghost predicate ReadsBit(r: Region, cnts: seq<nat>, banks: seq<Memory>, a: nat, m: Byte)
    requires |cnts| == |banks| == BANKS
  {
    if r == AOBJExtPal then Given(5, cnts, r, a) && Lit(banks[6](a % 0x2000), m)
    else SomeBankShows(r, cnts, banks, a, m)
  }

  lemma OrAllShows(maps: Maps, cnts: seq<nat>, r: Region, banks: seq<Memory>, a: nat, m: Byte)
    requires ShapedMaps(maps) && |cnts| == |banks| == BANKS && FollowBytes(maps, cnts) && r != LCDC
    ensures Lit(OrAll(r, maps[r][SlotOf(r, a)], banks, a, BANKS), m) <==> SomeBankShows(r, cnts, banks, a, m)
  {
    hide OrAll, SeenAt, BankOffset, Covers, SlotOf, Lit;
    var s := SlotOf(r, a);
    OrAllMask(r, maps[r][s], banks, a, BANKS, m);
    forall b: nat | b < BANKS
      ensures b in maps[r][s] && Lit(banks[b](BankOffset(r, b, a)), m) <==>
        exists o: nat | SeenAt(b, cnts[b], r, a, o) :: Lit(banks[b](o), m)
    {
      assert Has(maps, r, s, b) <==> b in maps[r][s];
      SeenExactly(b, cnts[b], r, a, BankOffset(r, b, a));
      forall o: nat | SeenAt(b, cnts[b], r, a, o) ensures o == BankOffset(r, b, a) && Covers(b, cnts[b], r, s) {
        SeenExactly(b, cnts[b], r, a, o);
      }
    }
  }

  /** The byte a read composes has the bits that numbers alone say. */
  lemma ReadByteShows(maps: Maps, cnts: seq<nat>, r: Region, banks: seq<Memory>, a: nat, m: Byte)
    requires ShapedMaps(maps) && |cnts| == |banks| == BANKS && FollowBytes(maps, cnts) && r != LCDC
    ensures Lit(ReadByte(r, maps[r][SlotOf(r, a)], banks, a), m) <==> ReadsBit(r, cnts, banks, a, m)
  {
    hide Lit, SeenAt, ReadByte, SomeBankShows;
    OrMask(0, 0, m);
    if r == AOBJExtPal {
      PaletteByte(maps, cnts, banks, a);
    } else {
      assert ReadByte(r, maps[r][SlotOf(r, a)], banks, a) == OrAll(r, maps[r][SlotOf(r, a)], banks, a, BANKS) by {
        PlainRead(r, maps[r][SlotOf(r, a)], banks, a);
      }
      OrAllShows(maps, cnts, r, banks, a, m);
    }
  }

  lemma PlainRead(r: Region, mask: set<nat>, banks: seq<Memory>, a: nat)
    requires |banks| == BANKS && r != AOBJExtPal
    ensures ReadByte(r, mask, banks, a) == OrAll(r, mask, banks, a, BANKS)
  {
  }

  lemma PaletteByte(maps: Maps, cnts: seq<nat>, banks: seq<Memory>, a: nat)
    requires ShapedMaps(maps) && |cnts| == |banks| == BANKS && FollowBytes(maps, cnts)
    ensures ReadByte(AOBJExtPal, maps[AOBJExtPal][0], banks, a) ==
      if Given(5, cnts, AOBJExtPal, a) then banks[6](a % 0x2000) else 0
  {
    var mask := maps[AOBJExtPal][0];
    assert 4 !in mask by { assert Has(maps, AOBJExtPal, 0, 4) <==> 4 in mask; }
    assert Has(maps, AOBJExtPal, 0, 5) <==> 5 in mask;
    SeenExactly(5, cnts[5], AOBJExtPal, a, a % 0x2000);
    assert BankOffset(AOBJExtPal, 5, a) == BankOffset(AOBJExtPal, 6, a) == a % 0x2000;
    hide BankOffset, SeenAt, Covers;
    var t := ReadTests(AOBJExtPal);
    assert t[..1] == [(4, 5)];
    assert SlowByte(AOBJExtPal, t[..1], mask, banks, a) == 0;
  }

  predicate IsWidth(n: nat) { n in {1, 2, 4, 8} }

  lemma MulAtLeast(d: nat, e: nat)
    requires e > 0
    ensures d * e >= d
  {
  }

  lemma DivUnique(x: nat, d: nat, q: nat, r: nat)
    requires x == d * q + r && r < d
    ensures x / d == q && x % d == r
  {
    var q', r' := x / d, x % d;
    assert x == d * q' + r';
    assert d * (q - q') == d * q - d * q' && d * (q' - q) == d * q' - d * q;
    if q' > q {
      MulAtLeast(d, q' - q);
    } else if q' < q {
      MulAtLeast(d, q - q');
    }
  }

  lemma MulMod(n: nat, a: nat, m: nat, k: nat)
    requires m > 0 && k < n
    ensures n * m > 0 && (n * a + k) % (n * m) == n * (a % m) + k && (n * a + k) / (n * m) == a / m
  {
    var q, r := a / m, a % m;
    assert n * m > 0 by { MulAtLeast(n, m); }
    assert n * a == n * m * q + n * r by {
      assert a == m * q + r;
      assert n * (m * q + r) == n * (m * q) + n * r;
      assert n * (m * q) == n * m * q;
    }
    assert n * r + k < n * m by {
      assert n * m == n * r + n * (m - r);
      MulAtLeast(n, m - r);
    }
    DivUnique(n * a + k, n * m, q, n * r + k);
  }

  lemma AlignedMod(x: nat, n: nat, k: nat, size: nat)
    requires k < n && x % n == 0 && size > 0 && size % n == 0
    ensures (x + k) % size == x % size + k && x % size % n == 0
    ensures (x + k) / size == x / size
  {
    var m, a := size / n, x / n;
    assert x == n * a && size == n * m;
    AlignedMul(n, a, m, k);
  }

  lemma AlignedMul(n: nat, a: nat, m: nat, k: nat)
    requires k < n && n * m > 0
    ensures var x, size := n * a, n * m;
      (x + k) % size == x % size + k && x % size % n == 0 && (x + k) / size == x / size
  {
    MulMod(n, a, m, k);
    MulMod(n, a, m, 0);
    DivUnique(n * (a % m), n, a % m, 0);
  }

  /** All sizes are multiples of every access width. */
  lemma SizesAligned(r: Region, b: nat, n: nat)
    requires IsWidth(n) && r != LCDC
    ensures RegionSize(r) % n == 0 && BankSize(b) % n == 0 && SlotSize(r) % n == 0
  {
  }

  /** An access inside an aligned word stays in one slot and at consecutive bank offsets. */
  lemma AlignedOffset(r: Region, b: nat, addr: nat, n: nat, k: nat)
    requires r != LCDC && IsWidth(n) && k < n && addr % n == 0
    ensures BankOffset(r, b, addr + k) == BankOffset(r, b, addr) + k
    ensures SlotOf(r, addr + k) == SlotOf(r, addr)
    ensures BankOffset(r, b, addr) % n == 0
  {
    hide RegionSize, BankSize, SlotSize, Slots, IsWidth;
    SizesAligned(r, b, n);
    AlignedMod(addr, n, k, RegionSize(r));
    AlignedMod(addr % RegionSize(r), n, k, BankSize(b));
    AlignedMod(addr, n, k, SlotSize(r));
  }

  lemma TestsInRange(r: Region)
    ensures forall t | t in ReadTests(r) :: t.1 < BANKS && (r != AOBJExtPal ==> t.0 == t.1)
  {
  }

  /** The tests compose what a read is to return. */
  lemma TestsAnswer(m: Maps, cnts: seq<nat>, r: Region, s: nat, banks: seq<Memory>, addr: nat)
    requires ShapedMaps(m) && FollowBytes(m, cnts) && s < Slots(r) && r != LCDC && |banks| == BANKS
    ensures (forall t | t in ReadTests(r) :: t.1 < BANKS)
    ensures SlowByte(r, ReadTests(r), m[r][s], banks, addr) == ReadByte(r, m[r][s], banks, addr)
  {
    hide BankOffset, OrAll, SlowByte, Covers;
    TestsInRange(r);
    if r != AOBJExtPal {
      TestsAscend(r);
      hide ReadTests;
      forall b | b in m[r][s] && b < BANKS ensures InTests(ReadTests(r), b) {
        assert Has(m, r, s, b);
        MaskWithinTests(m, cnts, r, s, b);
      }
      SlowIsOr(r, ReadTests(r), m[r][s], banks, addr, BANKS);
    }
  }

  /** A pointer into the bank reaches the byte that the bank shows at the address. */
  lemma PointerOffset(r: Region, b: nat, addr: nat)
    requires HasPointers(r)
    ensures (0x4000 * SlotOf(r, addr)) % BankSize(b) + addr % 0x4000 == BankOffset(r, b, addr)
  {
    var page, s := addr / 0x4000, SlotOf(r, addr);
    var q := page / Slots(r);
    assert page == Slots(r) * q + s;
    DivUnique(addr, RegionSize(r), q, 0x4000 * s + addr % 0x4000) by {
      assert addr == 0x4000 * page + addr % 0x4000;
      assert 0x4000 * (Slots(r) * q) == RegionSize(r) * q;
    }
    PagedMod(s, addr % 0x4000, BankSize(b));
  }

  lemma PagedMod(s: nat, low: nat, size: nat)
    requires low < 0x4000 && size in {0x4000, 0x8000, 0x1_0000, 0x2_0000}
    ensures (0x4000 * s) % size + low == (0x4000 * s + low) % size
  {
    MulMod(0x4000, s, size / 0x4000, low);
    MulMod(0x4000, s, size / 0x4000, 0);
  }

  /** A bank after a store. */
  function Stored(m: Memory, offset: nat, bytes: seq<Byte>): Memory {
    (a: nat) => if offset <= a < offset + |bytes| then bytes[a - offset] else m(a)
  }

  /** The fixed places of the banks in the LCDC region, which repeats every 0x100000 bytes. */
  function LcdcBank(addr: nat): (p: Option<Pointer>)
    ensures p.Some? ==> p.value.bank < BANKS && p.value.offset == addr % BankSize(p.value.bank)
  {
    var page := addr % 0x10_0000 / 0x4000;
    if page < 0x20 then Some(Pointer(page / 8, addr % 0x2_0000))
    else if page < 0x24 then Some(Pointer(4, addr % 0x1_0000))
    else if page == 0x24 then Some(Pointer(5, addr % 0x4000))
    else if page == 0x25 then Some(Pointer(6, addr % 0x4000))
    else if page < 0x28 then Some(Pointer(7, addr % 0x8000))
    else if page == 0x28 then Some(Pointer(8, addr % 0x4000))
    else None
  }

  /** Where a bank begins in the LCDC region: A to D, then E, F, G, H and I one behind the other. */
  function LcdcBase(b: nat): nat {
    if b < 4 then 0x2_0000 * b
    else if b == 4 then 0x8_0000
    else if b < 7 then 0x9_0000 + 0x4000 * (b - 5)
    else 0x9_8000 + 0x8000 * (b - 7)
  }

  /** Every byte of every bank has one place in the region, and no two share one. */
  lemma LcdcPlaces(addr: nat, b: nat, o: nat)
    ensures LcdcBank(addr) == Some(Pointer(b, o)) <==>
      b < BANKS && o < BankSize(b) && addr % 0x10_0000 == LcdcBase(b) + o
  {
    hide LcdcBank;
    LcdcForward(addr);
    if b < BANKS && o < BankSize(b) && addr % 0x10_0000 == LcdcBase(b) + o {
      LcdcBackward(addr, b, o);
    }
  }

  lemma LcdcForward(addr: nat)
    ensures var p := LcdcBank(addr);
      p.Some? ==> p.value.offset < BankSize(p.value.bank) && addr % 0x10_0000 == LcdcBase(p.value.bank) + p.value.offset
  {
    hide LcdcBank, LcdcBase, BankSize;
    var a := addr % 0x10_0000;
    var page, low := a / 0x4000, a % 0x4000;
    LcdcOffset(addr, page, low, 8);
    LcdcOffset(addr, page, low, 4);
    LcdcOffset(addr, page, low, 2);
    LcdcOffset(addr, page, low, 1);
    LcdcForwardAt(addr, page, low);
  }

  lemma LcdcForwardAt(addr: nat, page: nat, low: nat)
    requires low < 0x4000 && page < 0x40 && addr % 0x10_0000 == 0x4000 * page + low
    requires addr % 0x2_0000 == 0x4000 * (page % 8) + low && addr % 0x1_0000 == 0x4000 * (page % 4) + low
    requires addr % 0x8000 == 0x4000 * (page % 2) + low && addr % 0x4000 == low
    ensures var p := LcdcBank(addr);
      p.Some? ==> p.value.offset < BankSize(p.value.bank) && addr % 0x10_0000 == LcdcBase(p.value.bank) + p.value.offset
  {
    assert addr % 0x10_0000 / 0x4000 == page;
  }

  lemma LcdcBackward(addr: nat, b: nat, o: nat)
    requires b < BANKS && o < BankSize(b) && addr % 0x10_0000 == LcdcBase(b) + o
    ensures LcdcBank(addr).Some? && LcdcBank(addr).value.bank == b
  {
  }

  lemma LcdcOffset(addr: nat, page: nat, low: nat, m: nat)
    requires m in {1, 2, 4, 8} && low < 0x4000 && addr % 0x10_0000 == 0x4000 * page + low
    ensures addr % (0x4000 * m) == 0x4000 * (page % m) + low
  {
    MulMod(0x4000, page, m, low);
    assert addr % (0x4000 * m) == addr % 0x10_0000 % (0x4000 * m) by {
      LcdcRepeats(addr, 0x4000 * m);
    }
  }

  lemma LcdcRepeats(addr: nat, size: nat)
    requires size in {0x4000, 0x8000, 0x1_0000, 0x2_0000}
    ensures addr % size == addr % 0x10_0000 % size
  {
  }

  /** An access inside an aligned word stays in one bank of the region, at consecutive offsets. */
  lemma LcdcAligned(addr: nat, n: nat, k: nat)
    requires IsWidth(n) && k < n && addr % n == 0
    ensures var p := LcdcBank(addr);
      LcdcBank(addr + k) == if p.None? then None else Some(Pointer(p.value.bank, p.value.offset + k))
  {
    AlignedMod(addr, n, k, 0x10_0000);
    AlignedMod(addr % 0x10_0000, n, k, 0x4000);
    AlignedMod(addr, n, k, 0x2_0000);
    AlignedMod(addr, n, k, 0x1_0000);
    AlignedMod(addr, n, k, 0x8000);
    AlignedMod(addr, n, k, 0x4000);
  }

  /** What the LCDC region shows for one byte: the bank with its fixed place there, if mapped. */
  function LcdcByte(mask: set<nat>, banks: seq<Memory>, addr: nat): Byte
    requires |banks| == BANKS
  {
    var p := LcdcBank(addr);
    if p.Some? && p.value.bank in mask then banks[p.value.bank](p.value.offset) else 0
  }

  /** The banks after a store to the LCDC region. */
  ghost predicate LcdcWritten(before: seq<Memory>, after: seq<Memory>, mask: set<nat>, addr: nat, bytes: seq<Byte>)
    requires |before| == BANKS
  {
    var p := LcdcBank(addr);
    after == if p.None? || p.value.bank !in mask then before
             else before[p.value.bank := Stored(before[p.value.bank], p.value.offset, bytes)]
  }

  /** What is read back after a store: the value where a bank is mapped, zero elsewhere. */
  lemma LcdcReadAfterWrite(before: seq<Memory>, after: seq<Memory>, mask: set<nat>, addr: nat, bytes: seq<Byte>, k: nat)
    requires |before| == BANKS && IsWidth(|bytes|) && addr % |bytes| == 0 && k < |bytes|
    requires LcdcWritten(before, after, mask, addr, bytes)
    ensures var p := LcdcBank(addr);
      LcdcByte(mask, after, addr + k) == if p.Some? && p.value.bank in mask then bytes[k] else 0
  {
    hide LcdcBank;
    LcdcAligned(addr, |bytes|, k);
  }

  lemma TestsAscend(r: Region)
    requires r != AOBJExtPal
    ensures forall t | t in ReadTests(r) :: t.0 == t.1 < BANKS
    ensures forall i, j | 0 <= i < j < |ReadTests(r)| :: ReadTests(r)[i].0 < ReadTests(r)[j].0
  {
    hide ReadTests;
    TestsInRange(r);
    TestsInOrder(r);
  }

  lemma TestsInOrder(r: Region)
    ensures forall i, j | 0 <= i < j < |ReadTests(r)| :: ReadTests(r)[i].0 < ReadTests(r)[j].0
  {
  }

  lemma NextTest(tests: seq<(nat, nat)>, i: nat)
    requires i < |tests| && (forall t | t in tests :: t.0 == t.1)
    requires forall i, j | 0 <= i < j < |tests| :: tests[i].0 < tests[j].0
    ensures !InTests(tests[..i], tests[i].1) && tests[i] in tests
    ensures forall b: nat :: InTests(tests[..i + 1], b) <==> InTests(tests[..i], b) || b == tests[i].1
  {
    assert tests[..i + 1] == tests[..i] + [tests[i]];
  }

  /** Marking granules keeps the banks of the ARM7 dirty all over. */
  lemma StillDirty(m: Maps, before: seq<set<nat>>, after: seq<set<nat>>, r: Region, written: set<nat>, addr: nat)
    requires DirtyForArm7(m, before) && DirtyMarked(before, after, r, written, addr)
    ensures DirtyForArm7(m, after)
  {
    forall b | 0 <= b < BANKS && before[b] == ALL_GRANULES ensures after[b] == ALL_GRANULES {
      assert BankOffset(r, b, addr) / GRANULE < 256;
    }
  }

  /** The named banks were written at their offsets of the address, the others kept. */
  ghost predicate BanksWritten(before: seq<Memory>, after: seq<Memory>, r: Region, written: set<nat>, addr: nat,
                               bytes: seq<Byte>) {
    && |before| == |after| == BANKS
    && forall b | 0 <= b < BANKS ::
         after[b] == (if b in written then Stored(before[b], BankOffset(r, b, addr), bytes) else before[b])
  }

  ghost predicate DirtyMarked(before: seq<set<nat>>, after: seq<set<nat>>, r: Region, written: set<nat>, addr: nat) {
    && |before| == |after| == BANKS
    && forall b | 0 <= b < BANKS ::
         after[b] == (if b in written then before[b] + {BankOffset(r, b, addr) / GRANULE} else before[b])
  }

  lemma NothingYet(banks: seq<Memory>, dirty: seq<set<nat>>, r: Region, tests: seq<(nat, nat)>, addr: nat,
                   bytes: seq<Byte>)
    requires |banks| == |dirty| == BANKS
    ensures BanksWritten(banks, banks, r, {}, addr, bytes) && DirtyMarked(dirty, dirty, r, {}, addr)
    ensures forall b: nat :: !InTests(tests[..0], b)
  {
  }

  lemma OneMoreBank(before: seq<Memory>, mid: seq<Memory>, r: Region, written: set<nat>, b: nat, addr: nat,
                    bytes: seq<Byte>)
    requires BanksWritten(before, mid, r, written, addr, bytes) && b !in written && b < BANKS
    ensures BanksWritten(before, mid[b := Stored(mid[b], BankOffset(r, b, addr), bytes)], r, written + {b}, addr, bytes)
  {
    hide BankOffset;
  }

  lemma OneMoreMark(before: seq<set<nat>>, mid: seq<set<nat>>, r: Region, written: set<nat>, b: nat, addr: nat)
    requires DirtyMarked(before, mid, r, written, addr) && b !in written && b < BANKS
    ensures DirtyMarked(before, mid[b := mid[b] + {BankOffset(r, b, addr) / GRANULE}], r, written + {b}, addr)
  {
    hide BankOffset;
  }

  /** What is read back after a write: the value, if any bank is mapped, although several banks
      may be written and ored together. */
  lemma ReadAfterWrite(before: seq<Memory>, after: seq<Memory>, r: Region, mask: set<nat>, addr: nat,
                       bytes: seq<Byte>, k: nat)
    requires r != LCDC && IsWidth(|bytes|) && addr % |bytes| == 0 && k < |bytes| && Below9(mask)
    requires BanksWritten(before, after, r, mask, addr, bytes)
    ensures OrAll(r, mask, after, addr + k, BANKS) == if mask == {} then 0 else bytes[k]
  {
    forall b | b in mask && b < BANKS ensures after[b](BankOffset(r, b, addr + k)) == bytes[k] {
      AlignedOffset(r, b, addr, |bytes|, k);
    }
    hide BankOffset;
    OrOfEqual(r, mask, after, addr + k, BANKS, bytes[k]);
    if mask != {} {
      var b :| b in mask;
      assert b < BANKS;
    }
  }

  lemma WroteMask(m: Maps, cnts: seq<nat>, r: Region, s: nat, done: set<nat>)
    requires ShapedMaps(m) && FollowBytes(m, cnts) && s < Slots(r) && r != LCDC && r != AOBJExtPal
    requires forall b :: b in done <==> b in m[r][s] && InTests(ReadTests(r), b)
    ensures done == m[r][s]
  {
    forall b | b in m[r][s] ensures b in done {
      assert Has(m, r, s, b);
      MaskWithinTests(m, cnts, r, s, b);
    }
  }

  class Vram {
    var vramcnt: seq<nat>
    var maps: map<Region, seq<set<nat>>>
    var ptrs: map<Region, seq<Option<Pointer>>>
    var banks: seq<Memory>
    var dirty: seq<set<nat>>
    var vramstat: set<nat>

    ghost predicate Shaped()
      reads this`vramcnt, this`banks, this`dirty
    {
      |vramcnt| == |banks| == |dirty| == BANKS
    }

    ghost predicate PointersValid()
      reads this`maps, this`ptrs
    {
      && ShapedMaps(maps) && (forall r: Region :: r in ptrs && |ptrs[r]| == Slots(r))
      && forall r: Region, s | HasPointers(r) && 0 <= s < Slots(r) ::
        ptrs[r][s] == GetUniqueBankPtr(maps[r][s], 0x4000 * s)
    }

    ghost predicate Valid()
      reads this
    {
      Shaped() && FollowBytes(maps, vramcnt) && PointersValid() && DirtyForArm7(maps, dirty)
    }

    /** The state after Reset. */
    constructor ()
      ensures Valid() && banks == ZEROED && (forall b | 0 <= b < BANKS :: vramcnt[b] == 0 && dirty[b] == {})
    {
      vramcnt := seq(BANKS, _ => 0);
      maps := map r: Region | true :: seq(Slots(r), _ => {});
      ptrs := map r: Region | true :: seq(Slots(r), _ => None);
      banks := ZEROED;
      dirty := seq(BANKS, _ => {});
      vramstat := {};
    }

    // ---- mapping

    method SetSlot(r: Region, s: nat, bank: nat, on: bool)
      requires PointersValid() && s < Slots(r) && bank < BANKS
      modifies this`maps, this`ptrs
      ensures PointersValid()
      ensures Changed(old(maps), maps, r, s, 1, bank, on)
    {
      SetMask(r, s, bank, on);
      if HasPointers(r) {
        SetPointer(r, s);
      }
    }

    method SetMask(r: Region, s: nat, bank: nat, on: bool)
      requires ShapedMaps(maps) && s < Slots(r) && bank < BANKS
      modifies this`maps
      ensures ShapedMaps(maps) && Changed(old(maps), maps, r, s, 1, bank, on)
      ensures forall r', s' | 0 <= s' < Slots(r') && (r' != r || s' != s) :: maps[r'][s'] == old(maps[r'][s'])
    {
      hide Slots, Below9, Changed, Has;
      OneMaskChanged(maps, r, s, bank, on);
      maps := maps[r := maps[r][s := MaskWith(maps[r][s], bank, on)]];
    }

    method SetPointer(r: Region, s: nat)
      requires ShapedMaps(maps) && (forall r: Region :: r in ptrs && |ptrs[r]| == Slots(r)) && HasPointers(r) &&
        s < Slots(r)
      requires forall r', s' | HasPointers(r') && 0 <= s' < Slots(r') && (r' != r || s' != s) ::
        ptrs[r'][s'] == GetUniqueBankPtr(maps[r'][s'], 0x4000 * s')
      modifies this`ptrs
      ensures PointersValid()
    {
      hide GetUniqueBankPtr, Slots, Below9;
      ptrs := ptrs[r := ptrs[r][s := GetUniqueBankPtr(maps[r][s], 0x4000 * s)]];
    }

    /** MAP_RANGE and UNMAP_RANGE, for regions with and without pointers. */
    method SetRange(r: Region, base: nat, n: nat, bank: nat, on: bool)
      requires PointersValid() && base + n <= Slots(r) && bank < BANKS
      modifies this`maps, this`ptrs
      ensures PointersValid()
      ensures Changed(old(maps), maps, r, base, n, bank, on)
    {
      for i := 0 to n
        invariant PointersValid()
        invariant Changed(old(maps), maps, r, base, i, bank, on)
      {
        SetSlot(r, base + i, bank, on);
      }
    }

    /** Mapping statements written out slot by slot. */
    method SetEach(r: Region, slots: seq<nat>, bank: nat, on: bool)
      requires PointersValid() && (forall s | s in slots :: s < Slots(r)) && bank < BANKS
      modifies this`maps, this`ptrs
      ensures PointersValid()
      ensures ChangedEach(old(maps), maps, r, slots, bank, on)
    {
      hide Has, GetUniqueBankPtr, Vram.PointersValid;
      for i := 0 to |slots|
        invariant PointersValid()
        invariant ChangedEach(old(maps), maps, r, slots[..i], bank, on)
      {
        assert slots[..i + 1] == slots[..i] + [slots[i]] && slots[i] in slots;
        SetSlot(r, slots[i], bank, on);
      }
      assert slots[..|slots|] == slots;
    }

    /** The switch statements of MapVRAM_AB: for the old byte they unmap, for the new one they map. */
    method SwitchAB(bank: nat, cnt: nat, on: bool)
      requires PointersValid() && bank in {0, 1} && cnt < 0x100
      modifies this`maps, this`ptrs
      ensures PointersValid() && Switched(old(maps), maps, bank, cnt, on)
    {
      hide Has, GetUniqueBankPtr, Vram.PointersValid;
      var ofs := (cnt / 8) % 4;
      if cnt / 0x80 == 1 {
        match cnt % 4 {
          case 0 => SetSlot(LCDC, 0, bank, on);
          case 1 => SetRange(ABG, 8 * ofs, 8, bank, on);
          case 2 => SetRange(AOBJ, 8 * (ofs % 2), 8, bank, on);
          case _ => SetSlot(Texture, ofs, bank, on);
        }
      }
    }

    method SwitchE(cnt: nat, on: bool)
      requires PointersValid() && cnt < 0x100
      modifies this`maps, this`ptrs
      ensures PointersValid() && Switched(old(maps), maps, 4, cnt, on)
    {
      hide Has, GetUniqueBankPtr, Vram.PointersValid;
      if cnt / 0x80 == 1 {
        match cnt % 8 {
          case 0 => SetSlot(LCDC, 0, 4, on);
          case 1 => SetRange(ABG, 0, 4, 4, on);
          case 2 => SetRange(AOBJ, 0, 4, 4, on);
          case 3 => SetRange(TexPal, 0, 4, 4, on);
          case 4 => SetRange(ABGExtPal, 0, 4, 4, on);
          case _ =>
        }
      }
    }

    method SwitchFG(bank: nat, cnt: nat, on: bool)
      requires PointersValid() && bank in {5, 6} && cnt < 0x100
      modifies this`maps, this`ptrs
      ensures PointersValid() && Switched(old(maps), maps, bank, cnt, on)
    {
      hide CoversFG, Has, GetUniqueBankPtr, Vram.PointersValid;
      var ofs := (cnt / 8) % 8;
      var base := ofs % 2 + 4 * (ofs / 2 % 2);
      SlotsFG(cnt % 8, ofs, base);
      if cnt / 0x80 == 1 {
        match cnt % 8 {
          case 0 => SetSlot(LCDC, 0, bank, on);
          case 1 => SetEach(ABG, [base, base + 2], bank, on);
          case 2 => SetEach(AOBJ, [base, base + 2], bank, on);
          case 3 => SetSlot(TexPal, base, bank, on);
          case 4 => SetEach(ABGExtPal, [2 * (ofs % 2), 2 * (ofs % 2) + 1], bank, on);
          case 5 => SetSlot(AOBJExtPal, 0, bank, on);
          case _ =>
        }
      }
    }

    method SwitchH(cnt: nat, on: bool)
      requires PointersValid() && cnt < 0x100
      modifies this`maps, this`ptrs
      ensures PointersValid() && Switched(old(maps), maps, 7, cnt, on)
    {
      hide Has, GetUniqueBankPtr, Vram.PointersValid;
      if cnt / 0x80 == 1 {
        match cnt % 4 {
          case 0 => SetSlot(LCDC, 0, 7, on);
          case 1 => SetEach(BBG, [0, 1, 4, 5], 7, on);
          case 2 => SetRange(BBGExtPal, 0, 4, 7, on);
          case _ =>
        }
      }
    }

    method SwitchI(cnt: nat, on: bool)
      requires PointersValid() && cnt < 0x100
      modifies this`maps, this`ptrs
      ensures PointersValid() && Switched(old(maps), maps, 8, cnt, on)
    {
      hide Has, GetUniqueBankPtr, Vram.PointersValid;
      if cnt / 0x80 == 1 {
        match cnt % 4 {
          case 0 => SetSlot(LCDC, 0, 8, on);
          case 1 => SetEach(BBG, [2, 3, 6, 7], 8, on);
          case 2 => SetRange(BOBJ, 0, 8, 8, on);
          case _ => SetSlot(BOBJExtPal, 0, 8, on);
        }
      }
    }

    method GiveToArm7(bank: nat)
      requires Shaped() && bank in {2, 3}
      modifies this`dirty, this`vramstat
      ensures dirty == old(dirty)[bank := ALL_GRANULES] && vramstat == old(vramstat) + {bank - 2}
    {
      dirty := dirty[bank := ALL_GRANULES];
      vramstat := vramstat + {bank - 2};
    }

    method SwitchCD(bank: nat, cnt: nat, on: bool)
      requires Shaped() && PointersValid() && bank in {2, 3} && Writable(bank, cnt)
      modifies this`maps, this`ptrs, this`dirty, this`vramstat
      ensures PointersValid() && Switched(old(maps), maps, bank, cnt, on)
      ensures var arm7 := on && GivesArm7(bank, cnt);
        && dirty == (if arm7 then old(dirty)[bank := ALL_GRANULES] else old(dirty))
        && vramstat == (if arm7 then old(vramstat) + {bank - 2} else old(vramstat))
    {
      hide CoversCD, Has, GetUniqueBankPtr, Vram.PointersValid;
      var ofs := (cnt / 8) % 8;
      SlotsCD(bank, cnt % 8, ofs);
      if cnt / 0x80 == 1 {
        match cnt % 8 {
          case 0 => SetSlot(LCDC, 0, bank, on);
          case 1 => SetRange(ABG, 8 * ofs, 8, bank, on);
          case 2 =>
            SetSlot(ARM7, ofs % 2, bank, on);
            if on {
              GiveToArm7(bank);
            }
          case 3 => SetSlot(Texture, ofs, bank, on);
          case 4 => SetRange(if bank == 2 then BBG else BOBJ, 0, 8, bank, on);
          case _ =>
        }
      }
    }

    // ---- control bytes

    method MapVRAMAB(bank: nat, cnt: nat)
      requires Valid() && bank in {0, 1} && cnt < 0x100
      modifies this`vramcnt, this`maps, this`ptrs
      ensures Valid() && vramcnt == old(vramcnt)[bank := cnt]
    {
      hide Covers, Has, Switched, GetUniqueBankPtr, Vram.PointersValid;
      var oldcnt := vramcnt[bank];
      ghost var cnts, m, dirty0 := vramcnt, maps, dirty;
      vramcnt := vramcnt[bank := cnt];
      if oldcnt == cnt {
        return;
      }
      SwitchAB(bank, oldcnt, false);
      ghost var m1 := maps;
      SwitchAB(bank, cnt, true);
      ByteChanged(m, m1, maps, cnts, bank, cnt);
      StaysDirtyForArm7(m, m1, maps, dirty0, dirty, bank, oldcnt, cnt);
    }

    method MapVRAMCD(bank: nat, cnt: nat)
      requires Valid() && bank in {2, 3} && Writable(bank, cnt)
      modifies this`vramcnt, this`maps, this`ptrs, this`dirty, this`vramstat
      ensures Valid() && vramcnt == old(vramcnt)[bank := cnt]
      ensures dirty ==
        if old(vramcnt[bank]) != cnt && GivesArm7(bank, cnt) then old(dirty)[bank := ALL_GRANULES] else old(dirty)
      ensures vramstat == if old(vramcnt[bank]) != cnt && GivesArm7(bank, cnt) then old(vramstat) + {bank - 2}
                          else old(vramstat) - {bank - 2}
    {
      hide Covers, Has, Switched, GetUniqueBankPtr, Vram.PointersValid;
      var oldcnt := vramcnt[bank];
      ghost var cnts, m, dirty0 := vramcnt, maps, dirty;
      vramcnt := vramcnt[bank := cnt];
      vramstat := vramstat - {bank - 2};
      if oldcnt == cnt {
        return;
      }
      SwitchCD(bank, oldcnt, false);
      ghost var m1 := maps;
      SwitchCD(bank, cnt, true);
      ByteChanged(m, m1, maps, cnts, bank, cnt);
      StaysDirtyForArm7(m, m1, maps, dirty0, dirty, bank, oldcnt, cnt);
    }

    method MapVRAME(cnt: nat)
      requires Valid() && cnt < 0x100
      modifies this`vramcnt, this`maps, this`ptrs
      ensures Valid() && vramcnt == old(vramcnt)[4 := cnt]
    {
      hide Covers, Has, Switched, GetUniqueBankPtr, Vram.PointersValid;
      var oldcnt := vramcnt[4];
      ghost var cnts, m, dirty0 := vramcnt, maps, dirty;
      vramcnt := vramcnt[4 := cnt];
      if oldcnt == cnt {
        return;
      }
      SwitchE(oldcnt, false);
      ghost var m1 := maps;
      SwitchE(cnt, true);
      ByteChanged(m, m1, maps, cnts, 4, cnt);
      StaysDirtyForArm7(m, m1, maps, dirty0, dirty, 4, oldcnt, cnt);
    }

    method MapVRAMFG(bank: nat, cnt: nat)
      requires Valid() && bank in {5, 6} && cnt < 0x100
      modifies this`vramcnt, this`maps, this`ptrs
      ensures Valid() && vramcnt == old(vramcnt)[bank := cnt]
    {
      hide Covers, Has, Switched, GetUniqueBankPtr, Vram.PointersValid;
      var oldcnt := vramcnt[bank];
      ghost var cnts, m, dirty0 := vramcnt, maps, dirty;
      vramcnt := vramcnt[bank := cnt];
      if oldcnt == cnt {
        return;
      }
      SwitchFG(bank, oldcnt, false);
      ghost var m1 := maps;
      SwitchFG(bank, cnt, true);
      ByteChanged(m, m1, maps, cnts, bank, cnt);
      StaysDirtyForArm7(m, m1, maps, dirty0, dirty, bank, oldcnt, cnt);
    }

    method MapVRAMH(cnt: nat)
      requires Valid() && cnt < 0x100
      modifies this`vramcnt, this`maps, this`ptrs
      ensures Valid() && vramcnt == old(vramcnt)[7 := cnt]
    {
      hide Covers, Has, Switched, GetUniqueBankPtr, Vram.PointersValid;
      var oldcnt := vramcnt[7];
      ghost var cnts, m, dirty0 := vramcnt, maps, dirty;
      vramcnt := vramcnt[7 := cnt];
      if oldcnt == cnt {
        return;
      }
      SwitchH(oldcnt, false);
      ghost var m1 := maps;
      SwitchH(cnt, true);
      ByteChanged(m, m1, maps, cnts, 7, cnt);
      StaysDirtyForArm7(m, m1, maps, dirty0, dirty, 7, oldcnt, cnt);
    }

    method MapVRAMI(cnt: nat)
      requires Valid() && cnt < 0x100
      modifies this`vramcnt, this`maps, this`ptrs
      ensures Valid() && vramcnt == old(vramcnt)[8 := cnt]
    {
      hide Covers, Has, Switched, GetUniqueBankPtr, Vram.PointersValid;
      var oldcnt := vramcnt[8];
      ghost var cnts, m, dirty0 := vramcnt, maps, dirty;
      vramcnt := vramcnt[8 := cnt];
      if oldcnt == cnt {
        return;
      }
      SwitchI(oldcnt, false);
      ghost var m1 := maps;
      SwitchI(cnt, true);
      ByteChanged(m, m1, maps, cnts, 8, cnt);
      StaysDirtyForArm7(m, m1, maps, dirty0, dirty, 8, oldcnt, cnt);
    }

    /** A write to one of the nine control bytes. */
    method WriteVRAMCNT(bank: nat, cnt: nat)
      requires Valid() && Writable(bank, cnt)
      modifies this`vramcnt, this`maps, this`ptrs, this`dirty, this`vramstat
      ensures Valid() && vramcnt == old(vramcnt)[bank := cnt]
      ensures dirty ==
        if old(vramcnt[bank]) != cnt && GivesArm7(bank, cnt) then old(dirty)[bank := ALL_GRANULES] else old(dirty)
    {
      match bank {
        case 0 | 1 => MapVRAMAB(bank, cnt);
        case 2 | 3 => MapVRAMCD(bank, cnt);
        case 4 => MapVRAME(cnt);
        case 5 | 6 => MapVRAMFG(bank, cnt);
        case 7 => MapVRAMH(cnt);
        case _ => MapVRAMI(cnt);
      }
    }

    // ---- reads and writes

    /** ReadVRAM for a region with maps: through the pointer where there is one, else by tests. */
    method Read(r: Region, addr: nat, n: nat) returns (v: seq<Byte>)
      requires Valid() && r != LCDC && IsWidth(n) && addr % n == 0
      ensures |v| == n
      ensures forall k | 0 <= k < n :: v[k] == ReadByte(r, maps[r][SlotOf(r, addr)], banks, addr + k)
      ensures forall k, m: Byte | 0 <= k < n :: Lit(v[k], m) <==> ReadsBit(r, vramcnt, banks, addr + k, m)
    {
      hide Lit, ReadsBit, FollowBytes, DirtyForArm7;
      var s := SlotOf(r, addr);
      if HasPointers(r) && ptrs[r][s].Some? {
        var p := ptrs[r][s].value;
        v := ReadThrough(r, addr, n, p);
      } else {
        v := ReadSlowly(r, addr, n);
      }
      forall k, m: Byte | 0 <= k < n ensures Lit(v[k], m) <==> ReadsBit(r, vramcnt, banks, addr + k, m) {
        AlignedOffset(r, 0, addr, n, k);
        ReadByteShows(maps, vramcnt, r, banks, addr + k, m);
      }
    }

    method ReadThrough(r: Region, addr: nat, n: nat, p: Pointer) returns (v: seq<Byte>)
      requires Shaped() && HasPointers(r) && IsWidth(n) && addr % n == 0
      requires p.bank < BANKS && p.offset == 0x4000 * SlotOf(r, addr) % BankSize(p.bank)
      ensures |v| == n
      ensures forall k | 0 <= k < n :: v[k] == OrAll(r, {p.bank}, banks, addr + k, BANKS)
    {
      var bank := banks[p.bank];
      v := seq(n, k requires 0 <= k < n => bank(p.offset + addr % 0x4000 + k));
      PointerOffset(r, p.bank, addr);
      forall k | 0 <= k < n ensures v[k] == OrAll(r, {p.bank}, banks, addr + k, BANKS) {
        AlignedOffset(r, p.bank, addr, n, k);
        hide BankOffset;
        OrOfEqual(r, {p.bank}, banks, addr + k, BANKS, v[k]);
      }
    }

    method ReadSlowly(r: Region, addr: nat, n: nat) returns (v: seq<Byte>)
      requires Valid()
      ensures |v| == n
      ensures r != LCDC ==> forall k | 0 <= k < n :: v[k] == ReadByte(r, maps[r][SlotOf(r, addr)], banks, addr + k)
    {
      hide BankOffset, OrAll, SlowByte, ReadByte, ReadTests, FollowBytes, GetUniqueBankPtr;
      var mask, bs := maps[r][SlotOf(r, addr)], banks;
      TestsInRange(r);
      v := seq(n, k requires 0 <= k < n => SlowByte(r, ReadTests(r), mask, bs, addr + k));
      if r != LCDC {
        forall k | 0 <= k < n ensures v[k] == ReadByte(r, mask, banks, addr + k) {
          TestsAnswer(maps, vramcnt, r, SlotOf(r, addr), banks, addr + k);
        }
      }
    }

    method WriteBank(b: nat, offset: nat, bytes: seq<Byte>, track: bool)
      requires Shaped() && b < BANKS
      modifies this`banks, this`dirty
      ensures Shaped()
      ensures banks == old(banks)[b := Stored(old(banks)[b], offset, bytes)]
      ensures dirty == if track then old(dirty)[b := old(dirty)[b] + {offset / GRANULE}] else old(dirty)
    {
      if track {
        dirty := dirty[b := dirty[b] + {offset / GRANULE}];
      }
      banks := banks[b := Stored(banks[b], offset, bytes)];
    }

    /** WriteVRAM for a region the processors can write: to every mapped bank. Writes of the
        ARM7 are not tracked. */
    method Write(r: Region, addr: nat, bytes: seq<Byte>)
      requires Valid() && r in {ABG, AOBJ, BBG, BOBJ, ARM7} && IsWidth(|bytes|) && addr % |bytes| == 0
      modifies this`banks, this`dirty
      ensures Valid()
      ensures BanksWritten(old(banks), banks, r, maps[r][SlotOf(r, addr)], addr, bytes)
      ensures DirtyMarked(old(dirty), dirty, r, if r == ARM7 then {} else maps[r][SlotOf(r, addr)], addr)
    {
      hide BankOffset, ReadTests, BanksWritten, DirtyMarked;
      ghost var done := WriteTested(r, addr, bytes, maps[r][SlotOf(r, addr)]);
      WroteMask(maps, vramcnt, r, SlotOf(r, addr), done);
      StillDirty(maps, old(dirty), dirty, r, if r == ARM7 then {} else done, addr);
    }

    method WriteTested(r: Region, addr: nat, bytes: seq<Byte>, mask: set<nat>) returns (ghost done: set<nat>)
      requires Shaped() && r != AOBJExtPal
      modifies this`banks, this`dirty
      ensures Shaped()
      ensures forall b :: b in done <==> b in mask && InTests(ReadTests(r), b)
      ensures BanksWritten(old(banks), banks, r, done, addr, bytes)
      ensures DirtyMarked(old(dirty), dirty, r, if r == ARM7 then {} else done, addr)
    {
      var tests := ReadTests(r);
      hide BankOffset, ReadTests, InTests, BanksWritten, DirtyMarked, Stored;
      done := {};
      ghost var marked: set<nat> := {};
      TestsAscend(r);
      NothingYet(banks, dirty, r, tests, addr, bytes);
      for i := 0 to |tests|
        invariant Shaped()
        invariant forall b :: b in done <==> b in mask && InTests(tests[..i], b)
        invariant marked == if r == ARM7 then {} else done
        invariant BanksWritten(old(banks), banks, r, done, addr, bytes) &&
          DirtyMarked(old(dirty), dirty, r, marked, addr)
      {
        var b := tests[i].1;
        NextTest(tests, i);
        if b in mask {
          OneMoreBank(old(banks), banks, r, done, b, addr, bytes);
          if r != ARM7 {
            OneMoreMark(old(dirty), dirty, r, marked, b, addr);
            marked := marked + {b};
          }
          WriteBank(b, BankOffset(r, b, addr), bytes, r != ARM7);
          done := done + {b};
        }
      }
      assert tests[..|tests|] == tests;
    }

    /** ReadVRAM_LCDC: from the bank at the address, or nothing. */
    method ReadLCDC(addr: nat, n: nat) returns (v: seq<Byte>)
      requires Valid() && IsWidth(n) && addr % n == 0
      ensures |v| == n
      ensures forall k | 0 <= k < n :: v[k] == LcdcByte(maps[LCDC][0], banks, addr + k)
    {
      hide LcdcBank, FollowBytes, DirtyForArm7;
      var p := LcdcBank(addr);
      v := seq(n, _ => 0);
      if p.Some? && p.value.bank in maps[LCDC][0] {
        var bank := banks[p.value.bank];
        v := seq(n, k requires 0 <= k < n => bank(p.value.offset + k));
      }
      forall k | 0 <= k < n ensures v[k] == LcdcByte(maps[LCDC][0], banks, addr + k) {
        LcdcAligned(addr, n, k);
      }
    }

    /** WriteVRAM_LCDC. */
    method WriteLCDC(addr: nat, bytes: seq<Byte>)
      requires Valid() && IsWidth(|bytes|) && addr % |bytes| == 0
      modifies this`banks, this`dirty
      ensures Valid() && LcdcWritten(old(banks), banks, maps[LCDC][0], addr, bytes)
      ensures var p := LcdcBank(addr);
        dirty == if p.None? || p.value.bank !in maps[LCDC][0] then old(dirty)
                 else old(dirty)[p.value.bank := old(dirty)[p.value.bank] + {p.value.offset / GRANULE}]
    {
      var p := LcdcBank(addr);
      if p.Some? && p.value.bank in maps[LCDC][0] {
        WriteBank(p.value.bank, p.value.offset, bytes, true);
      }
    }
  }
}
