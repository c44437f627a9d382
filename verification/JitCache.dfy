/** The translation cache of one CPU under a fixed address map: the block map, the fast
    lookup slots, the per-range block lists with their code bitmaps, the pool of retired
    blocks and the write protection of 4 KiB pages. */
module JitCache {
  import opened CodeCoverage
  import opened Options

  const RANGES_PER_PAGE: nat := 8

  /** A compiled block never changes after CompileBlock has filled it in. `entry` is the
      address of the generated code. `trace`, what the block was compiled from, is not kept
      by the emulator: it only keeps the two hashes. */
  datatype JitBlock = JitBlock(entry: nat, startAddr: nat, startLocal: nat,
                               ranges: seq<nat>, masks: seq<set<nat>>, literals: seq<nat>,
                               instrHash: seq<seq<Byte>>, literalHash: seq<seq<Byte>>, trace: seq<Access>)

  /** The fields of a block are those of its trace. */
  ghost predicate Described(b: JitBlock) {
    && WellPlaced(b.trace)
    && Coverage(b.ranges, b.masks) == Cover(b.trace)
    && b.literals == LiteralAddrs(b.trace)
    && b.instrHash == Values(b.trace, false)
    && b.literalHash == Values(b.trace, true)
  }

  ghost predicate AllDescribed<K>(m: map<K, JitBlock>) {
    forall b {:trigger b in m.Values} | b in m.Values :: Described(b)
  }

  lemma DescribedAt<K>(m: map<K, JitBlock>, k: K)
    requires AllDescribed(m) && k in m
    ensures Described(m[k]) && Exact(Coverage(m[k].ranges, m[k].masks), m[k].trace)
  {
    assert m[k] in m.Values;
    CoverExact(m[k].trace);
  }

  lemma DescribedUpdate<K>(m: map<K, JitBlock>, k: K, b: JitBlock)
    requires AllDescribed(m) && Described(b)
    ensures AllDescribed(m[k := b])
  {
    forall c | c in m[k := b].Values ensures Described(c) {
      assert c == b || c in m.Values;
    }
  }

  lemma DescribedRemove<K>(m: map<K, JitBlock>, ks: set<K>)
    requires AllDescribed(m)
    ensures AllDescribed(m - ks)
  {
    forall c | c in (m - ks).Values ensures Described(c) {
      assert c in m.Values;
    }
  }

  datatype FastEntry = FastEntry(addr: nat, entry: nat)

  /** The comparison CompileBlock makes before it reuses a retired block. */
  predicate MayRestore(prev: JitBlock, startAddr: nat, trace: seq<Access>) {
    && prev.instrHash == Values(trace, false)
    && prev.startAddr == startAddr
    && prev.literalHash == Values(trace, true)
    && Coverage(prev.ranges, prev.masks) == Cover(trace)
  }

  /** Every byte the first trace read was also read, with the same value, by the second. */
  ghost predicate BytesWithin(old_: seq<Access>, new_: seq<Access>) {
    forall i, k | 0 <= i < |old_| && 0 <= k < |old_[i].bytes| ::
      HasByte(new_, old_[i].addr + k, old_[i].bytes[k])
  }

  ghost predicate HasByte(trace: seq<Access>, addr: nat, b: Byte) {
    exists i | 0 <= i < |trace| && trace[i].addr <= addr < trace[i].addr + |trace[i].bytes| ::
      trace[i].bytes[addr - trace[i].addr] == b
  }

  predicate InMap(b: JitBlock, blocks: map<nat, JitBlock>) {
    b.startAddr in blocks && blocks[b.startAddr] == b
  }

  /** Blocks only disappear, and only blocks that cover range r. */
  ghost predicate BlocksAfter(now: map<nat, JitBlock>, before: map<nat, JitBlock>, r: nat) {
    && (forall a :: a in now ==> a in before && now[a] == before[a])
    && (forall a :: a in before && r !in before[a].ranges ==> a in now)
  }

  /** The pool only grows or changes by blocks that were live, cover the range of the
      written address and did not load a literal from exactly that address. */
  ghost predicate PoolAfter(now: map<seq<seq<Byte>>, JitBlock>, before: map<seq<seq<Byte>>, JitBlock>,
                            blocks: map<nat, JitBlock>, localAddr: nat) {
    && before.Keys <= now.Keys
    && forall h | h in now ::
      || (h in before && now[h] == before[h])
      || (&& InMap(now[h], blocks) && now[h].instrHash == h
          && RangeOf(localAddr) in now[h].ranges && localAddr !in now[h].literals)
  }

  lemma WriteElsewhere(trace: seq<Access>, mem: Memory, addr: nat, bytes: seq<Byte>)
    requires WellPlaced(trace) && InOneGranule(addr, |bytes|) && ReadsFrom(trace, mem)
    requires !Touches(trace, RangeOf(addr), GranuleOf(addr))
    ensures ReadsFrom(trace, WriteBytes(mem, addr, bytes))
  {
    var mem' := WriteBytes(mem, addr, bytes);
    forall i, k | 0 <= i < |trace| && 0 <= k < |trace[i].bytes|
      ensures mem'(trace[i].addr + k) == trace[i].bytes[k]
    {
      OtherGranule(trace[i], addr, |bytes|, k);
    }
  }

  lemma OtherGranule(a: Access, addr: nat, size: nat, k: nat)
    requires InOneGranule(a.addr, |a.bytes|) && InOneGranule(addr, size) && k < |a.bytes|
    requires !(RangeOf(a.addr) == RangeOf(addr) && GranuleOf(a.addr) == GranuleOf(addr))
    ensures !(addr <= a.addr + k < addr + size)
  {
    if addr <= a.addr + k < addr + size {
      SameGranule(addr, size, a.addr + k);
      SameGranule(a.addr, |a.bytes|, a.addr + k);
    }
  }

  lemma SameGranule(addr: nat, size: nat, a: nat)
    requires InOneGranule(addr, size) && addr <= a < addr + size
    ensures RangeOf(a) == RangeOf(addr) && GranuleOf(a) == GranuleOf(addr)
  {
    assert a / GRANULE_SIZE == addr / GRANULE_SIZE;
    GranuleParts(a);
    GranuleParts(addr);
  }

  lemma GranuleParts(a: nat)
    ensures RangeOf(a) == (a / GRANULE_SIZE) / 32 && GranuleOf(a) == (a / GRANULE_SIZE) % 32
  {
  }

  /** For every block that went away, unless it was freed for its literal, the pool holds it or
      another one with the same hash that was live before. */
  ghost predicate Retired(pool: map<seq<seq<Byte>>, JitBlock>, now: map<nat, JitBlock>, before: map<nat, JitBlock>,
                          localAddr: nat) {
    forall a | a in before && a !in now && localAddr !in before[a].literals ::
      before[a].instrHash in pool && InMap(pool[before[a].instrHash], before)
  }

  /** TinyVector::Remove: the last element takes the place of the removed one. */
  function SwapRemove<T>(s: seq<T>, i: nat): (t: seq<T>)
    requires i < |s|
  {
    s[i := s[|s| - 1]][..|s| - 1]
  }

  lemma SwapRemoveContents<T>(s: seq<T>, i: nat)
    requires i < |s| && Distinct(s)
    ensures Distinct(SwapRemove(s, i))
    ensures forall x :: x in SwapRemove(s, i) <==> x in s && x != s[i]
  {
    var t, n := SwapRemove(s, i), |s| - 1;
    forall x | x in s && x != s[i] ensures x in t {
      var j :| 0 <= j < |s| && s[j] == x;
      assert if j == n then t[i] == x else t[j] == x;
    }
    forall x | x in t ensures x in s && x != s[i] {
      var j :| 0 <= j < |t| && t[j] == x;
      assert x == if j == i then s[n] else s[j];
    }
  }

  function WriteBytes(mem: Memory, addr: nat, bytes: seq<Byte>): Memory {
    (a: nat) => if addr <= a < addr + |bytes| then bytes[a - addr] else mem(a)
  }

  // ---- the state as far as coherence is concerned

  datatype Snapshot = Snapshot(blocks: map<nat, JitBlock>, pool: map<seq<seq<Byte>>, JitBlock>, mem: Memory)

  ghost predicate Sound(s: Snapshot) {
    AllDescribed(s.blocks) && AllDescribed(s.pool)
  }

  /** Every live block was compiled from the bytes that are in memory. */
  ghost predicate AgreesWithMemory(s: Snapshot) {
    forall a | a in s.blocks :: ReadsFrom(s.blocks[a].trace, s.mem)
  }

  /** Compiling at addr after fetching a trace takes a block out of the pool. */
  predicate Restores(s: Snapshot, addr: nat, trace: seq<Access>) {
    var h := Values(trace, false);
    addr !in s.blocks && h in s.pool && MayRestore(s.pool[h], addr, trace)
  }

  /** What compiling does: it finds the block, restores it or makes a new one. */
  ghost predicate AfterCompile(s: Snapshot, addr: nat, trace: seq<Access>, entry: nat, bufferFull: bool, t: Snapshot) {
    var h := Values(trace, false);
    t.mem == s.mem &&
    if addr in s.blocks then t == s
    else if Restores(s, addr, trace) then
      t.blocks == s.blocks[addr := s.pool[h]] && t.pool == s.pool - {h}
    else
      && addr in t.blocks && Described(t.blocks[addr])
      && t.blocks[addr].trace == trace && t.blocks[addr].entry == entry && t.blocks[addr].startAddr == addr
      && t.blocks == (if bufferFull then map[] else s.blocks)[addr := t.blocks[addr]]
      && t.pool == if bufferFull then map[] else s.pool - {h}
  }

  /** What a store does: blocks that read the written granule go, some others may, and what
      goes can be found in the pool. */
  ghost predicate AfterWrite(s: Snapshot, localAddr: nat, bytes: seq<Byte>, t: Snapshot) {
    && t.mem == WriteBytes(s.mem, localAddr, bytes)
    && BlocksAfter(t.blocks, s.blocks, RangeOf(localAddr))
    && PoolAfter(t.pool, s.pool, s.blocks, localAddr)
    && Retired(t.pool, t.blocks, s.blocks, localAddr)
    && forall a | a in t.blocks :: !Touches(t.blocks[a].trace, RangeOf(localAddr), GranuleOf(localAddr))
  }

  lemma CompileKeepsCoherence(s: Snapshot, addr: nat, trace: seq<Access>, entry: nat, bufferFull: bool, t: Snapshot)
    requires AgreesWithMemory(s) && ReadsFrom(trace, s.mem) && AfterCompile(s, addr, trace, entry, bufferFull, t)
    requires Restores(s, addr, trace) ==> BytesWithin(s.pool[Values(trace, false)].trace, trace)
    ensures AgreesWithMemory(t)
  {
    if Restores(s, addr, trace) {
      WithinReads(s.pool[Values(trace, false)].trace, trace, s.mem);
    }
  }

  lemma WriteKeepsCoherence(s: Snapshot, localAddr: nat, bytes: seq<Byte>, t: Snapshot)
    requires Sound(s) && AgreesWithMemory(s) && InOneGranule(localAddr, |bytes|) && AfterWrite(s, localAddr, bytes, t)
    ensures AgreesWithMemory(t)
  {
    forall a | a in t.blocks ensures ReadsFrom(t.blocks[a].trace, t.mem) {
      assert t.blocks[a] == s.blocks[a];
      DescribedAt(s.blocks, a);
      WriteElsewhere(t.blocks[a].trace, s.mem, localAddr, bytes);
    }
  }

  class Cache {
    const localise: nat -> nat
    var blocks: map<nat, JitBlock>
    var fast: map<nat, FastEntry>
    var lists: map<nat, seq<JitBlock>>
    var code: map<nat, set<nat>>
    var pool: map<seq<seq<Byte>>, JitBlock>
    var protectedPages: set<nat>
    var mem: Memory

    // ---- what the fields mean

    function Listed(r: nat): seq<JitBlock>
      reads this`lists
    {
      if r in lists then lists[r] else []
    }

    function CodeOf(r: nat): set<nat>
      reads this`code
    {
      if r in code then code[r] else {}
    }

    predicate Live(b: JitBlock)
      reads this`blocks
    {
      InMap(b, blocks)
    }

    predicate PageHasCode(page: nat)
      reads this`lists
    {
      exists r: nat | RANGES_PER_PAGE * page <= r < RANGES_PER_PAGE * (page + 1) :: Listed(r) != []
    }

    ghost predicate BlocksValid()
      reads this`blocks
    {
      forall a | a in blocks :: blocks[a].startAddr == a && blocks[a].startLocal == localise(a)
    }

    ghost predicate PoolValid()
      reads this`pool
    {
      forall h | h in pool ::
        pool[h].instrHash == h && pool[h].startLocal == localise(pool[h].startAddr)
    }

    ghost predicate TracesValid()
      reads this`blocks, this`pool
    {
      AllDescribed(blocks) && AllDescribed(pool)
    }

    ghost predicate FastValid()
      reads this`fast, this`blocks
    {
      forall s | s in fast ::
        && localise(fast[s].addr) / 2 == s
        && fast[s].addr in blocks
        && blocks[fast[s].addr].entry == fast[s].entry
    }

    ghost predicate ListedOnce(r: nat)
      reads this`lists
    {
      Distinct(Listed(r))
    }

    /** A range lists exactly the live blocks that cover it, each once. */
    ghost predicate ListsValid()
      reads this`lists, this`blocks
    {
      && (forall r :: ListedOnce(r))
      && (forall r, b {:trigger b in Listed(r)} :: b in Listed(r) <==> Live(b) && r in b.ranges)
    }

    /** The bitmap of a range flags every granule of every listed block. */
    ghost predicate CodeCovers(r: nat)
      reads this`lists, this`code
    {
      && (forall b, j | b in Listed(r) && 0 <= j < |b.ranges| && j < |b.masks| && b.ranges[j] == r ::
            b.masks[j] <= CodeOf(r))
      && (Listed(r) == [] ==> CodeOf(r) == {})
    }

    ghost predicate CodeValid()
      reads this`lists, this`code
    {
      forall r :: CodeCovers(r)
    }

    /** A page is write protected exactly when one of its eight ranges lists a block. */
    ghost predicate ProtectionValid()
      reads this`lists, this`protectedPages
    {
      forall page: nat :: page in protectedPages <==> PageHasCode(page)
    }

    ghost predicate Valid()
      reads this
    {
      BlocksValid() && PoolValid() && TracesValid() && FastValid() && ListsValid() && CodeValid() && ProtectionValid()
    }

    function Now(): Snapshot
      reads this`blocks, this`pool, this`mem
    {
      Snapshot(blocks, pool, mem)
    }

    /** Every live block was compiled from the bytes that are in memory now. */
    ghost predicate Coherent()
      reads this`blocks, this`pool, this`mem
    {
      AgreesWithMemory(Now())
    }

    constructor (localise: nat -> nat, mem: Memory)
      ensures Valid() && Coherent()
      ensures this.localise == localise && this.mem == mem && blocks == map[] && pool == map[]
    {
      this.localise := localise;
      this.mem := mem;
      blocks, fast, lists, code, pool, protectedPages := map[], map[], map[], map[], map[], {};
    }

    // ---- helpers shared by compilation and invalidation

    method PageContainsCode(page: nat) returns (found: bool)
      ensures found == PageHasCode(page)
      ensures found <==> exists r: nat | 8 * page <= r < 8 * (page + 1) :: Listed(r) != []
    {
      for i := 0 to RANGES_PER_PAGE
        invariant forall r: nat | RANGES_PER_PAGE * page <= r < RANGES_PER_PAGE * page + i :: Listed(r) == []
      {
        if |Listed(RANGES_PER_PAGE * page + i)| > 0 {
          return true;
        }
      }
      return false;
    }

    /** Calls for one page alternate: protecting a protected page, or unprotecting an
        unprotected one, is never requested. */
    method SetCodeProtection(page: nat, on: bool)
      requires (page in protectedPages) != on
      modifies this`protectedPages
      ensures protectedPages == if on then old(protectedPages) + {page} else old(protectedPages) - {page}
    {
      protectedPages := if on then protectedPages + {page} else protectedPages - {page};
    }

    lemma PageOf(r: nat)
      requires Listed(r) != []
      ensures PageHasCode(r / RANGES_PER_PAGE)
    {
    }

    twostate lemma OtherPagesSame(r: nat)
      requires forall r': nat | r' != r :: Listed(r') == old(Listed(r'))
      ensures forall p: nat | p != r / RANGES_PER_PAGE :: PageHasCode(p) == old(PageHasCode(p))
    {
      forall p: nat | p != r / RANGES_PER_PAGE ensures PageHasCode(p) == old(PageHasCode(p)) {
        assert forall r': nat | RANGES_PER_PAGE * p <= r' < RANGES_PER_PAGE * (p + 1) :: Listed(r') == old(Listed(r'));
      }
    }

    /** Takes the block at position i off the list of range r and drops the write
        protection of the page when that was its last block. */
    method Unlist(r: nat, i: nat)
      requires i < |Listed(r)| && Distinct(Listed(r))
      requires ProtectionValid()
      modifies this`lists, this`protectedPages
      ensures Listed(r) == SwapRemove(old(Listed(r)), i)
      ensures forall r' | r' != r :: Listed(r') == old(Listed(r'))
      ensures ProtectionValid()
    {
      PageOf(r);
      var page := r / RANGES_PER_PAGE;
      lists := lists[r := SwapRemove(Listed(r), i)];
      OtherPagesSame(r);
      if |Listed(r)| == 0 {
        var any := PageContainsCode(page);
        if !any {
          SetCodeProtection(page, false);
        }
      } else {
        PageOf(r);
      }
    }

    /** Puts a block on the list of range r, protecting the page first when it held no code. */
    method Enlist(r: nat, b: JitBlock)
      requires ProtectionValid()
      modifies this`lists, this`protectedPages
      ensures Listed(r) == old(Listed(r)) + [b]
      ensures forall r' | r' != r :: Listed(r') == old(Listed(r'))
      ensures ProtectionValid()
    {
      var page := r / RANGES_PER_PAGE;
      var any := PageContainsCode(page);
      if !any {
        SetCodeProtection(page, true);
      }
      lists := lists[r := Listed(r) + [b]];
      PageOf(r);
      OtherPagesSame(r);
    }

    /** Keeps a dead block for later reuse; an older one with the same hash is freed. */
    method RetireJitBlock(b: JitBlock)
      requires PoolValid() && TracesValid() && Described(b) && b.startLocal == localise(b.startAddr)
      modifies this`pool
      ensures PoolValid() && TracesValid() && pool == old(pool)[b.instrHash := b]
    {
      DescribedUpdate(pool, b.instrHash, b);
      pool := pool[b.instrHash := b];
    }

    /** TinyVector::Find. */
    method IndexOf(r: nat, b: JitBlock) returns (i: nat)
      requires b in Listed(r)
      ensures i < |Listed(r)| && Listed(r)[i] == b
    {
      i := 0;
      while Listed(r)[i] != b
        invariant i < |Listed(r)| && b in Listed(r)[i..]
        decreases |Listed(r)| - i
      {
        i := i + 1;
      }
    }

    /** The live blocks are listed by their ranges, except b by the ranges in `gone`. */
    ghost predicate ListsValidBut(b: JitBlock, gone: set<nat>)
      reads this`lists, this`blocks
    {
      && (forall r :: ListedOnce(r))
      && (forall r, b' {:trigger b' in Listed(r)} :: b' in Listed(r) <==>
        Live(b') && r in b'.ranges && !(b' == b && r in gone))
    }

    /** Takes b off the list of one more of its ranges; a range that lists nothing any more
        gets its bitmap cleared. */
    method UnlistOther(b: JitBlock, other: nat, ghost gone: set<nat>)
      requires Live(b) && other in b.ranges && other !in gone
      requires ListsValidBut(b, gone) && ProtectionValid() && CodeCovers(other)
      modifies this`lists, this`protectedPages, this`code
      ensures ListsValidBut(b, gone + {other}) && ProtectionValid() && CodeCovers(other)
      ensures forall r | r != other :: Listed(r) == old(Listed(r)) && CodeOf(r) == old(CodeOf(r))
    {
      var i := IndexOf(other, b);
      assert ListedOnce(other);
      SwapRemoveContents(Listed(other), i);
      Unlist(other, i);
      assert forall r :: ListedOnce(r) by {
        assert forall r | r != other :: old(ListedOnce(r)) ==> ListedOnce(r);
      }
      if |Listed(other)| == 0 {
        code := code[other := {}];
      }
    }

    /** The second half of dropping a block: take it off the lists of its other ranges. */
    method UnlistElsewhere(b: JitBlock, r: nat)
      requires Live(b) && r in b.ranges && Distinct(b.ranges)
      requires ListsValidBut(b, {r}) && ProtectionValid()
      requires forall r' | r' != r :: CodeCovers(r')
      modifies this`lists, this`protectedPages, this`code
      ensures ListsValidBut(b, set r' | r' in b.ranges) && ProtectionValid()
      ensures forall r' | r' != r :: CodeCovers(r')
      ensures CodeOf(r) == old(CodeOf(r))
    {
      ghost var gone := {r};
      for j := 0 to |b.ranges|
        invariant forall x :: x in gone <==> x == r || x in b.ranges[..j]
        invariant ListsValidBut(b, gone) && ProtectionValid()
        invariant forall r' | r' != r :: CodeCovers(r')
        invariant CodeOf(r) == old(CodeOf(r))
      {
        var other := b.ranges[j];
        if other != r {
          label before:
          UnlistOther(b, other, gone);
          forall r' | r' != r && r' != other ensures CodeCovers(r') {
            assert old@before(CodeCovers(r'));
          }
        }
        gone := gone + {other};
      }
      assert gone == set r' | r' in b.ranges;
    }

    /** What holds between two blocks being dropped while the bitmap of r is cleared. */
    ghost predicate ValidDuring(r: nat)
      reads this
    {
      && BlocksValid() && PoolValid() && TracesValid() && FastValid() && ListsValid() && ProtectionValid()
      && CodeOf(r) == {} && (forall r' | r' != r :: CodeCovers(r'))
    }

    /** Drops the first block listed by the range of localAddr from every structure. A block
        that loaded a literal from exactly this address is freed, the others are kept for
        restoring. */
    method DropFirst(localAddr: nat) returns (block: JitBlock)
      requires ValidDuring(RangeOf(localAddr)) && Listed(RangeOf(localAddr)) != []
      modifies this`blocks, this`fast, this`lists, this`code, this`pool, this`protectedPages
      ensures ValidDuring(RangeOf(localAddr))
      ensures InMap(block, old(blocks)) && RangeOf(localAddr) in block.ranges
      ensures blocks == old(blocks) - {block.startAddr}
      ensures pool == if localAddr in block.literals then old(pool) else old(pool)[block.instrHash := block]
    {
      hide Described, Distinct, RangeOf, ProtectionValid, ListedOnce, CodeCovers;
      block := UnlistFirst(RangeOf(localAddr));
      assert Distinct(block.ranges) by {
        DescribedAt(blocks, block.startAddr);
        RangesDistinct(block);
      }
      var literalInvalidation := LoadsLiteral(block, localAddr);
      UnlistElsewhere(block, RangeOf(localAddr));
      assert AllDescribed(blocks);
      label before:
      Forget(block);
      if !literalInvalidation {
        assert Described(block) by {
          DescribedAt(old@before(blocks), block.startAddr);
        }
        RetireJitBlock(block);
      }
    }

    method UnlistFirst(r: nat) returns (block: JitBlock)
      requires ListsValid() && ProtectionValid() && Listed(r) != []
      modifies this`lists, this`protectedPages
      ensures Live(block) && r in block.ranges
      ensures ListsValidBut(block, {r}) && ProtectionValid()
      ensures forall r' | r' != r :: Listed(r') == old(Listed(r'))
      ensures forall r' | r' != r && old(CodeCovers(r')) :: CodeCovers(r')
    {
      block := Listed(r)[0];
      assert block in Listed(r);
      assert ListedOnce(r);
      SwapRemoveContents(Listed(r), 0);
      Unlist(r, 0);
      assert forall r' | r' != r :: old(ListedOnce(r')) ==> ListedOnce(r');
    }

    method LoadsLiteral(b: JitBlock, localAddr: nat) returns (found: bool)
      ensures found == (localAddr in b.literals)
    {
      for j := 0 to |b.literals|
        invariant localAddr !in b.literals[..j]
      {
        if b.literals[j] == localAddr {
          return true;
        }
      }
      return false;
    }

    /** Erases b from the fast slots and the block map. */
    method Forget(b: JitBlock)
      requires Live(b) && ListsValidBut(b, set r' | r' in b.ranges)
      requires BlocksValid() && FastValid() && TracesValid()
      modifies this`blocks, this`fast
      ensures blocks == old(blocks) - {b.startAddr}
      ensures BlocksValid() && FastValid() && ListsValid() && TracesValid()
    {
      DescribedRemove(blocks, {b.startAddr});
      fast := fast - {b.startLocal / 2};
      blocks := blocks - {b.startAddr};
      forall r, b' ensures b' in Listed(r) <==> Live(b') && r in b'.ranges {
        if old(Live(b')) && b' != b {
          assert b'.startAddr != b.startAddr;
        }
      }
    }

    /** Drops every block listed by the range of localAddr. The bitmap test inside the loop
        compares a block's mask with itself, so it spares none of them. */
    method InvalidateByAddr(localAddr: nat)
      requires Valid()
      modifies this`blocks, this`fast, this`lists, this`code, this`pool, this`protectedPages
      ensures Valid()
      ensures BlocksAfter(blocks, old(blocks), RangeOf(localAddr))
      ensures forall a | a in blocks :: RangeOf(localAddr) !in blocks[a].ranges
      ensures PoolAfter(pool, old(pool), old(blocks), localAddr)
      ensures Retired(pool, blocks, old(blocks), localAddr)
    {
      var r := RangeOf(localAddr);
      code := code[r := {}];
      forall r' | r' != r ensures CodeCovers(r') {
        assert old(CodeCovers(r'));
      }
      while |Listed(r)| > 0
        invariant ValidDuring(r)
        invariant BlocksAfter(blocks, old(blocks), r)
        invariant PoolAfter(pool, old(pool), old(blocks), localAddr)
        invariant Retired(pool, blocks, old(blocks), localAddr)
        decreases |blocks|
      {
        var block := DropFirst(localAddr);
      }
      EmptyListMeansGone(r);
    }

    lemma EmptyListMeansGone(r: nat)
      requires ListsValid() && Listed(r) == []
      requires BlocksValid()
      ensures forall a | a in blocks :: r !in blocks[a].ranges
    {
      forall a | a in blocks ensures r !in blocks[a].ranges {
        assert blocks[a] !in Listed(r);
      }
    }

    /** A granule that some live block read from is flagged in the bitmap of its range. */
    lemma TouchedIsFlagged(a: nat, r: nat, g: nat)
      requires Valid() && a in blocks && Touches(blocks[a].trace, r, g)
      ensures r in blocks[a].ranges && g in CodeOf(r)
    {
      var b := blocks[a];
      DescribedAt(blocks, a);
      assert r in b.ranges;
      var j :| 0 <= j < |b.ranges| && b.ranges[j] == r;
      assert Coverage(b.ranges, b.masks).ranges[j] == r && g in Coverage(b.ranges, b.masks).masks[j];
      assert b in Listed(r);
      assert CodeCovers(r);
    }

    /** A guest store. Every block that was built from a byte of the written granule is
        gone afterwards, so what remains still agrees with memory. */
    method GuestWrite(localAddr: nat, bytes: seq<Byte>)
      requires Valid() && InOneGranule(localAddr, |bytes|)
      modifies this
      ensures Valid() && AfterWrite(old(Now()), localAddr, bytes, Now())
      ensures old(Coherent()) ==> Coherent()
    {
      var r, g := RangeOf(localAddr), GranuleOf(localAddr);
      if g in CodeOf(r) {
        InvalidateByAddr(localAddr);
      }
      forall a | a in blocks ensures !Touches(blocks[a].trace, r, g) {
        if Touches(blocks[a].trace, r, g) {
          TouchedIsFlagged(a, r, g);
        }
      }
      mem := WriteBytes(mem, localAddr, bytes);
      if old(Coherent()) {
        WriteKeepsCoherence(old(Now()), localAddr, bytes, Now());
      }
    }

    /** The dispatcher's lookup: only a block of this address is ever returned. */
    method LookUpBlock(addr: nat) returns (entry: Option<nat>)
      requires Valid()
      ensures entry.Some? ==> addr in blocks && blocks[addr].entry == entry.value
      ensures entry.Some? <==> localise(addr) / 2 in fast && fast[localise(addr) / 2].addr == addr
      ensures entry.Some? && Coherent() ==> ReadsFrom(blocks[addr].trace, mem)
    {
      var slot := localise(addr) / 2;
      if slot in fast && fast[slot].addr == addr {
        return Some(fast[slot].entry);
      }
      return None;
    }

    method ClearRanges(b: JitBlock)
      modifies this`lists, this`code
      ensures forall r :: Listed(r) == (if r in b.ranges then [] else old(Listed(r)))
      ensures forall r :: CodeOf(r) == (if r in b.ranges then {} else old(CodeOf(r)))
    {
      for j := 0 to |b.ranges|
        invariant forall r :: Listed(r) == (if r in b.ranges[..j] then [] else old(Listed(r)))
        invariant forall r :: CodeOf(r) == (if r in b.ranges[..j] then {} else old(CodeOf(r)))
      {
        lists := lists[b.ranges[j] := []];
        code := code[b.ranges[j] := {}];
      }
    }

    /** Empties the lists and bitmaps of every range some live block covers, which are all
        the ranges that list anything. */
    method ClearAllRanges()
      requires ListsValid() && CodeValid()
      modifies this`lists, this`code
      ensures forall r :: Listed(r) == [] && CodeOf(r) == {}
    {
      forall r ensures Listed(r) == [] ==> CodeOf(r) == {} {
        assert CodeCovers(r);
      }
      var todo := blocks;
      while todo.Keys != {}
        invariant forall r, b {:trigger b in Listed(r)} | b in Listed(r) :: InMap(b, todo) && r in b.ranges
        invariant forall r :: Listed(r) == [] ==> CodeOf(r) == {}
        decreases |todo|
      {
        var a :| a in todo;
        ClearRanges(todo[a]);
        todo := todo - {a};
      }
      forall r ensures Listed(r) == [] {
        NonEmptyHasElement(Listed(r));
      }
    }

    method ResetBlockCache()
      requires Valid()
      modifies this
      ensures Valid() && mem == old(mem)
      ensures blocks == map[] && pool == map[] && fast == map[]
    {
      protectedPages := {};
      fast := map[];
      pool := map[];
      ClearAllRanges();
      blocks := map[];
    }

    // ---- compilation

    /** The live blocks are listed by their ranges, and b already by the ranges in `done`. */
    ghost predicate ListsValidPlus(b: JitBlock, done: set<nat>)
      reads this`lists, this`blocks
    {
      && (forall r :: ListedOnce(r))
      && (forall r, b' {:trigger b' in Listed(r)} ::
            b' in Listed(r) <==> (Live(b') && r in b'.ranges) || (b' == b && r in done))
    }

    method EnlistOne(b: JitBlock, j: nat, ghost done: set<nat>)
      requires j < |b.ranges| == |b.masks| && Distinct(b.ranges)
      requires !Live(b) && b.ranges[j] !in done
      requires ListsValidPlus(b, done) && ProtectionValid() && CodeCovers(b.ranges[j])
      modifies this`lists, this`protectedPages, this`code
      ensures ListsValidPlus(b, done + {b.ranges[j]}) && ProtectionValid() && CodeCovers(b.ranges[j])
      ensures forall r | r != b.ranges[j] :: Listed(r) == old(Listed(r)) && CodeOf(r) == old(CodeOf(r))
    {
      var r := b.ranges[j];
      assert ListedOnce(r) && b !in Listed(r);
      Enlist(r, b);
      code := code[r := CodeOf(r) + b.masks[j]];
      assert forall r' | r' != r :: old(ListedOnce(r')) ==> ListedOnce(r');
      forall b', k | b' in Listed(r) && 0 <= k < |b'.ranges| && k < |b'.masks| && b'.ranges[k] == r
        ensures b'.masks[k] <= CodeOf(r)
      {
        if b' == b {
          assert k == j;
        } else {
          assert b' in old(Listed(r));
        }
      }
    }

    /** Lists b in every range it covers and flags its granules. */
    method EnlistEverywhere(b: JitBlock)
      requires |b.ranges| == |b.masks| && Distinct(b.ranges) && !Live(b)
      requires ListsValid() && ProtectionValid() && CodeValid()
      modifies this`lists, this`protectedPages, this`code
      ensures ListsValidPlus(b, set r | r in b.ranges) && ProtectionValid() && CodeValid()
    {
      ghost var done := {};
      for j := 0 to |b.ranges|
        invariant forall r :: r in done <==> r in b.ranges[..j]
        invariant ListsValidPlus(b, done) && ProtectionValid() && CodeValid()
      {
        label before:
        assert CodeCovers(b.ranges[j]);
        EnlistOne(b, j, done);
        forall r ensures CodeCovers(r) {
          if r != b.ranges[j] {
            assert old@before(CodeCovers(r));
          }
        }
        done := done + {b.ranges[j]};
      }
      assert done == set r | r in b.ranges;
    }

    lemma RangesDistinct(b: JitBlock)
      requires Described(b)
      ensures |b.ranges| == |b.masks| && Distinct(b.ranges)
    {
      CoverExact(b.trace);
    }

    /** Makes a block that is not in the map reachable: lists, bitmaps, map and fast slot. */
    method Register(b: JitBlock)
      requires Valid() && b.startAddr !in blocks && b.startLocal == localise(b.startAddr)
      requires Described(b)
      modifies this`lists, this`protectedPages, this`code, this`blocks, this`fast
      ensures Valid()
      ensures blocks == old(blocks)[b.startAddr := b]
      ensures fast == old(fast)[b.startLocal / 2 := FastEntry(b.startAddr, b.entry)]
    {
      hide Described, Distinct, Cache.ListedOnce, Cache.CodeCovers, Cover;
      RangesDistinct(b);
      EnlistEverywhere(b);
      DescribedUpdate(blocks, b.startAddr, b);
      blocks := blocks[b.startAddr := b];
      fast := fast[b.startLocal / 2 := FastEntry(b.startAddr, b.entry)];
    }

    /** CompileBlock after its fetch loop: `trace` is what the loop has just read. The block
        map is consulted first, then the pool; `bufferFull` is the case in which generating
        code resets the whole cache. */
    method CompileBlock(blockAddr: nat, trace: seq<Access>, entry: nat, bufferFull: bool) returns (restored: bool)
      requires Valid() && WellPlaced(trace) && ReadsFrom(trace, mem)
      modifies this
      ensures Valid() && AfterCompile(old(Now()), blockAddr, trace, entry, bufferFull, Now())
      ensures restored <==> Restores(old(Now()), blockAddr, trace)
      ensures fast == (if !restored && bufferFull && blockAddr !in old(blocks) then map[] else old(fast))
        [localise(blockAddr) / 2 := FastEntry(blockAddr, blocks[blockAddr].entry)]
      ensures old(Coherent()) && (restored ==> BytesWithin(old(pool)[Values(trace, false)].trace, trace)) ==> Coherent()
    {
      hide Described, BlocksValid, PoolValid, TracesValid, FastValid, ListsValid, CodeValid, ProtectionValid, Values;
      restored := false;
      if blockAddr in blocks {
        SwitchOut(blockAddr);
      } else {
        var block := NewBlock(blockAddr, trace, entry);
        var prev := TakeCandidate(block);
        restored := prev.Some?;
        if restored {
          Register(prev.value);
        } else {
          RegisterNew(block, bufferFull);
        }
      }
      if old(Coherent()) && (restored ==> BytesWithin(old(pool)[Values(trace, false)].trace, trace)) {
        CompileKeepsCoherence(old(Now()), blockAddr, trace, entry, bufferFull, Now());
      }
    }

    /** The block is there, but the fast slot is another mirror's. */
    method SwitchOut(blockAddr: nat)
      requires Valid() && blockAddr in blocks
      modifies this`fast
      ensures Valid()
      ensures fast == old(fast)[localise(blockAddr) / 2 := FastEntry(blockAddr, blocks[blockAddr].entry)]
    {
      fast := fast[localise(blockAddr) / 2 := FastEntry(blockAddr, blocks[blockAddr].entry)];
    }

    /** What was fetched, with its table and hashes. */
    method NewBlock(blockAddr: nat, trace: seq<Access>, entry: nat) returns (block: JitBlock)
      requires WellPlaced(trace)
      ensures Described(block) && block.trace == trace && block.entry == entry
      ensures block.startAddr == blockAddr && block.startLocal == localise(blockAddr)
    {
      var ranges, masks := BuildCoverage(trace);
      block := JitBlock(entry, blockAddr, localise(blockAddr), ranges, masks, LiteralAddrs(trace),
                        Values(trace, false), Values(trace, true), trace);
    }

    /** A block for which code was generated. */
    method RegisterNew(block: JitBlock, bufferFull: bool)
      requires Valid() && block.startAddr !in blocks && block.startLocal == localise(block.startAddr) &&
        Described(block)
      modifies this
      ensures Valid() && mem == old(mem)
      ensures blocks == (if bufferFull then map[] else old(blocks))[block.startAddr := block]
      ensures fast ==
        (if bufferFull then map[] else old(fast))[block.startLocal / 2 := FastEntry(block.startAddr, block.entry)]
      ensures pool == if bufferFull then map[] else old(pool)
    {
      if bufferFull {
        ResetBlockCache();
      }
      Register(block);
    }

    /** Takes the retired block with the hash of `wanted` out of the pool, and returns it
        when start address, literal hash and coverage table agree as well. */
    method TakeCandidate(wanted: JitBlock) returns (prev: Option<JitBlock>)
      requires PoolValid() && TracesValid() && Described(wanted)
      modifies this`pool
      ensures PoolValid() && TracesValid()
      ensures pool == old(pool) - {wanted.instrHash}
      ensures prev.Some? <==>
        (wanted.instrHash in old(pool) && MayRestore(old(pool)[wanted.instrHash], wanted.startAddr, wanted.trace))
      ensures prev.Some? ==> prev.value == old(pool)[wanted.instrHash]
      ensures prev.Some? ==> Described(prev.value) && prev.value.startLocal == localise(wanted.startAddr)
    {
      prev := None;
      if wanted.instrHash in pool {
        var candidate := pool[wanted.instrHash];
        assert Described(candidate) by { DescribedAt(pool, wanted.instrHash); }
        DescribedRemove(pool, {wanted.instrHash});
        pool := pool - {wanted.instrHash};
        if candidate.startAddr == wanted.startAddr && candidate.literalHash == wanted.literalHash
            && candidate.ranges == wanted.ranges && candidate.masks == wanted.masks {
          prev := Some(candidate);
        }
      } else {
        assert pool - {wanted.instrHash} == pool;
      }
    }
  }

  lemma NonEmptyHasElement<T>(s: seq<T>)
    ensures s != [] ==> exists x :: x in s
  {
    if s != [] {
      assert s[0] in s;
    }
  }

  lemma HasByteAt(trace: seq<Access>, i: nat, k: nat)
    requires i < |trace| && k < |trace[i].bytes|
    ensures HasByte(trace, trace[i].addr + k, trace[i].bytes[k])
  {
    assert trace[i].bytes[trace[i].addr + k - trace[i].addr] == trace[i].bytes[k];
  }

  lemma WithinReads(old_: seq<Access>, new_: seq<Access>, mem: Memory)
    requires BytesWithin(old_, new_) && ReadsFrom(new_, mem)
    ensures ReadsFrom(old_, mem)
  {
    forall i, k | 0 <= i < |old_| && 0 <= k < |old_[i].bytes|
      ensures mem(old_[i].addr + k) == old_[i].bytes[k]
    {
      var a := old_[i].addr + k;
      assert HasByte(new_, a, old_[i].bytes[k]);
      var n :| 0 <= n < |new_| && new_[n].addr <= a < new_[n].addr + |new_[n].bytes|
        && new_[n].bytes[a - new_[n].addr] == old_[i].bytes[k];
      assert mem(new_[n].addr + (a - new_[n].addr)) == new_[n].bytes[a - new_[n].addr];
    }
  }

  // ---- when restoring is safe

  /** Restoring a block is right for every memory that returns what was just fetched if and
      only if all bytes of the old block are among the fetched ones. The comparison the
      code makes, MayRestore, does not imply it: it never compares addresses. */
  lemma RestoreSafeExactly(old_: seq<Access>, new_: seq<Access>, mem: Memory)
    requires ReadsFrom(new_, mem)
    ensures (forall m: Memory :: ReadsFrom(new_, m) ==> ReadsFrom(old_, m)) <==> BytesWithin(old_, new_)
  {
    if BytesWithin(old_, new_) {
      forall m: Memory | ReadsFrom(new_, m) ensures ReadsFrom(old_, m) {
        WithinReads(old_, new_, m);
      }
    } else {
      var i, k :| 0 <= i < |old_| && 0 <= k < |old_[i].bytes| && !HasByte(new_, old_[i].addr + k, old_[i].bytes[k]);
      var a, v := old_[i].addr + k, old_[i].bytes[k];
      var m := OtherMemory(new_, mem, a, v);
      assert !ReadsFrom(old_, m) by {
        assert m(old_[i].addr + k) != old_[i].bytes[k];
      }
    }
  }

  lemma OtherMemory(trace: seq<Access>, mem: Memory, a: nat, v: Byte) returns (m: Memory)
    requires ReadsFrom(trace, mem) && !HasByte(trace, a, v)
    ensures ReadsFrom(trace, m) && m(a) != v
  {
    if mem(a) != v {
      return mem;
    }
    m := WriteBytes(mem, a, [if v == 0 then 1 else 0]);
    forall i, k | 0 <= i < |trace| && 0 <= k < |trace[i].bytes|
      ensures m(trace[i].addr + k) == trace[i].bytes[k]
    {
      assert mem(trace[i].addr + k) == trace[i].bytes[k];
      HasByteAt(trace, i, k);
    }
  }

  // ---- all runs

  /** What interpreting an instruction while it was fetched has done: whether it jumped, and
      whether it halted the CPU or left it with an interrupt to take. */
  datatype Outcome = Outcome(branched: bool, stops: bool)

  /** The CPU a compilation starts from: its instruction set and the outcome of each instruction
      of the block, in the order of fetching. */
  datatype Cpu = Cpu(thumb: bool, outcome: nat -> Outcome)

  /** What one compilation reads: a function of the address, of memory and of the CPU. */
  type FrontEnd = (nat, Memory, Cpu) -> seq<Place>

  /** The compilations that can happen: with which CPU an address is compiled. */
  type Program = (nat, Cpu) -> bool

  function Fetched(fe: FrontEnd, addr: nat, mem: Memory, cpu: Cpu): seq<Access> {
    ReadAll(fe(addr, mem, cpu), mem)
  }

  /** In a program the places read follow from the address and the instructions fetched. */
  ghost predicate AddressDetermined(fe: FrontEnd, program: Program) {
    forall addr, m, m': Memory, s, s' | program(addr, s) && program(addr, s') ::
      Values(Fetched(fe, addr, m, s), false) == Values(Fetched(fe, addr, m', s'), false) ==>
      fe(addr, m, s) == fe(addr, m', s')
  }

  ghost predicate Produced(fe: FrontEnd, program: Program, b: JitBlock) {
    exists m, s :: program(b.startAddr, s) && b.trace == Fetched(fe, b.startAddr, m, s)
  }

  lemma {:induction false} TraceFromValues(t: seq<Access>, u: seq<Access>)
    requires PlacesOf(t) == PlacesOf(u)
    requires Values(t, false) == Values(u, false) && Values(t, true) == Values(u, true)
    ensures t == u
  {
    if t == [] {
    } else {
      assert PlacesOf(t)[0] == PlacesOf(u)[0];
      assert PlacesOf(t[1..]) == PlacesOf(t)[1..] && PlacesOf(u[1..]) == PlacesOf(u)[1..];
      var k, x, y := t[0].isLiteral, AsWord(t[0].bytes), AsWord(u[0].bytes);
      assert Values(t, k) == [x] + Values(t[1..], k) && Values(u, k) == [y] + Values(u[1..], k);
      assert Values(t, k)[0] == x && Values(u, k)[0] == y;
      assert t[0].bytes == x[..|t[0].bytes|] == y[..|u[0].bytes|] == u[0].bytes;
      assert Values(t, k)[1..] == Values(t[1..], k) && Values(u, k)[1..] == Values(u[1..], k);
      assert Values(t, !k) == Values(t[1..], !k) && Values(u, !k) == Values(u[1..], !k);
      TraceFromValues(t[1..], u[1..]);
    }
  }

  /** With such a front end every block the code restores was built from the very reads
      that were just made. */
  lemma DeterminedRestoreIsSafe(fe: FrontEnd, program: Program, b: JitBlock, mem: Memory, cpu: Cpu)
    requires AddressDetermined(fe, program) && Produced(fe, program, b) && program(b.startAddr, cpu)
    requires MayRestore(b, b.startAddr, Fetched(fe, b.startAddr, mem, cpu)) && Described(b)
    ensures b.trace == Fetched(fe, b.startAddr, mem, cpu)
    ensures BytesWithin(b.trace, b.trace)
  {
    var t := Fetched(fe, b.startAddr, mem, cpu);
    var m, s :| program(b.startAddr, s) && b.trace == Fetched(fe, b.startAddr, m, s);
    assert fe(b.startAddr, m, s) == fe(b.startAddr, mem, cpu);
    assert PlacesOf(t) == fe(b.startAddr, mem, cpu) == PlacesOf(b.trace);
    TraceFromValues(b.trace, t);
    AllWithin(t);
  }

  lemma AllWithin(t: seq<Access>)
    ensures BytesWithin(t, t)
  {
    forall i, k | 0 <= i < |t| && 0 <= k < |t[i].bytes| ensures HasByte(t, t[i].addr + k, t[i].bytes[k]) {
      HasByteAt(t, i, k);
    }
  }

  datatype Step =
    | Compile(addr: nat, cpu: Cpu, entry: nat, bufferFull: bool)
    | Write(localAddr: nat, bytes: seq<Byte>)
    | Reset

  ghost predicate WellFormedFrontEnd(fe: FrontEnd) {
    forall addr, m: Memory, s :: WellPlaced(Fetched(fe, addr, m, s))
  }

  predicate WellFormedStep(step: Step) {
    step.Write? ==> InOneGranule(step.localAddr, |step.bytes|)
  }

  ghost predicate WellFormedSteps(steps: seq<Step>) {
    forall i | 0 <= i < |steps| :: WellFormedStep(steps[i])
  }

  predicate StepOf(program: Program, step: Step) {
    step.Compile? ==> program(step.addr, step.cpu)
  }

  ghost predicate StepsOf(program: Program, steps: seq<Step>) {
    forall i | 0 <= i < |steps| :: StepOf(program, steps[i])
  }

  ghost predicate AllProduced<K>(fe: FrontEnd, program: Program, m: map<K, JitBlock>) {
    forall k | k in m :: Produced(fe, program, m[k])
  }

  ghost predicate ProducedBy(fe: FrontEnd, program: Program, s: Snapshot) {
    AllProduced(fe, program, s.blocks) && AllProduced(fe, program, s.pool)
  }

  ghost predicate Next(fe: FrontEnd, s: Snapshot, step: Step, t: Snapshot) {
    match step
    case Compile(addr, cpu, entry, bufferFull) =>
      AfterCompile(s, addr, Fetched(fe, addr, s.mem, cpu), entry, bufferFull, t)
    case Write(localAddr, bytes) => AfterWrite(s, localAddr, bytes, t)
    case Reset => t == Snapshot(map[], map[], s.mem)
  }

  /** A run: the state before each step and the state after the last. */
  ghost predicate IsRun(fe: FrontEnd, states: seq<Snapshot>, steps: seq<Step>) {
    |states| == |steps| + 1 && forall i | 0 <= i < |steps| :: Next(fe, states[i], steps[i], states[i + 1])
  }

  /** A block that the step restores was compiled from bytes that it has just fetched. */
  ghost predicate SafeStep(fe: FrontEnd, s: Snapshot, step: Step) {
    step.Compile? ==>
      var trace := Fetched(fe, step.addr, s.mem, step.cpu);
      Restores(s, step.addr, trace) ==> BytesWithin(s.pool[Values(trace, false)].trace, trace)
  }

  ghost predicate SafeRun(fe: FrontEnd, states: seq<Snapshot>, steps: seq<Step>)
    requires |states| == |steps| + 1
  {
    forall i | 0 <= i < |steps| :: SafeStep(fe, states[i], steps[i])
  }

  lemma CompileStaysSound(s: Snapshot, addr: nat, trace: seq<Access>, entry: nat, bufferFull: bool, t: Snapshot)
    requires Sound(s) && AfterCompile(s, addr, trace, entry, bufferFull, t)
    ensures Sound(t)
  {
    hide Described, MayRestore, Values;
    var h := Values(trace, false);
    DescribedRemove(s.pool, {h});
    if addr !in s.blocks {
      if Restores(s, addr, trace) {
        assert s.pool[h] in s.pool.Values;
        DescribedUpdate(s.blocks, addr, s.pool[h]);
      } else {
        DescribedUpdate(s.blocks, addr, t.blocks[addr]);
        DescribedUpdate(map[], addr, t.blocks[addr]);
      }
    }
  }

  lemma WriteStaysSound(s: Snapshot, localAddr: nat, bytes: seq<Byte>, t: Snapshot)
    requires Sound(s) && AfterWrite(s, localAddr, bytes, t)
    ensures Sound(t)
  {
    hide Described, Touches;
    forall b | b in t.blocks.Values ensures Described(b) {
      assert b in s.blocks.Values;
    }
    forall b | b in t.pool.Values ensures Described(b) {
      assert b in s.blocks.Values || b in s.pool.Values;
    }
  }

  lemma StaysSound(fe: FrontEnd, s: Snapshot, step: Step, t: Snapshot)
    requires Sound(s) && Next(fe, s, step, t)
    ensures Sound(t)
  {
    match step {
      case Compile(addr, cpu, entry, bufferFull) =>
        CompileStaysSound(s, addr, Fetched(fe, addr, s.mem, cpu), entry, bufferFull, t);
      case Write(localAddr, bytes) =>
        WriteStaysSound(s, localAddr, bytes, t);
      case Reset =>
    }
  }

  lemma SafeStepKeepsCoherence(fe: FrontEnd, s: Snapshot, step: Step, t: Snapshot)
    requires Sound(s) && AgreesWithMemory(s) && Next(fe, s, step, t) && WellFormedStep(step) && SafeStep(fe, s, step)
    ensures AgreesWithMemory(t)
  {
    match step {
      case Compile(addr, cpu, entry, bufferFull) =>
        CompileKeepsCoherence(s, addr, Fetched(fe, addr, s.mem, cpu), entry, bufferFull, t);
      case Write(localAddr, bytes) =>
        WriteKeepsCoherence(s, localAddr, bytes, t);
      case Reset =>
    }
  }

  /** Over every run of compilations, stores and resets whose restores are safe, every block
      that can be reached agrees with memory after every step. */
  lemma {:induction false} SafeRunIsCoherent(fe: FrontEnd, states: seq<Snapshot>, steps: seq<Step>)
    requires IsRun(fe, states, steps) && SafeRun(fe, states, steps) && WellFormedSteps(steps)
    requires Sound(states[0]) && AgreesWithMemory(states[0])
    ensures forall i | 0 <= i < |states| :: Sound(states[i]) && AgreesWithMemory(states[i])
  {
    if steps != [] {
      var n := |steps| - 1;
      SafeRunIsCoherent(fe, states[..n + 1], steps[..n]);
      assert Sound(states[..n + 1][n]) && AgreesWithMemory(states[..n + 1][n]);
      assert Next(fe, states[n], steps[n], states[n + 1]) && SafeStep(fe, states[n], steps[n]) &&
        WellFormedStep(steps[n]);
      StaysSound(fe, states[n], steps[n], states[n + 1]);
      SafeStepKeepsCoherence(fe, states[n], steps[n], states[n + 1]);
      forall i | 0 <= i < |states| ensures Sound(states[i]) && AgreesWithMemory(states[i]) {
        assert i <= n ==> states[i] == states[..n + 1][i];
      }
    }
  }

  lemma StaysProduced(fe: FrontEnd, program: Program, s: Snapshot, step: Step, t: Snapshot)
    requires ProducedBy(fe, program, s) && Next(fe, s, step, t) && StepOf(program, step)
    ensures ProducedBy(fe, program, t)
  {
    match step {
      case Compile(addr, cpu, entry, bufferFull) =>
        forall a | a in t.blocks ensures Produced(fe, program, t.blocks[a]) {
          assert a != addr ==> t.blocks[a] == s.blocks[a];
        }
      case Write(localAddr, bytes) =>
      case Reset =>
    }
  }

  lemma DeterminedStepIsSafe(fe: FrontEnd, program: Program, s: Snapshot, step: Step)
    requires AddressDetermined(fe, program) && ProducedBy(fe, program, s) && Sound(s) && StepOf(program, step)
    ensures SafeStep(fe, s, step)
  {
    if step.Compile? {
      var trace := Fetched(fe, step.addr, s.mem, step.cpu);
      if Restores(s, step.addr, trace) {
        var h := Values(trace, false);
        DescribedAt(s.pool, h);
        DeterminedRestoreIsSafe(fe, program, s.pool[h], s.mem, step.cpu);
      }
    }
  }

  /** A program with determined addresses makes every run safe. */
  lemma {:induction false} DeterminedRunIsSafe(fe: FrontEnd, program: Program, states: seq<Snapshot>, steps: seq<Step>)
    requires AddressDetermined(fe, program) && IsRun(fe, states, steps) && StepsOf(program, steps)
    requires Sound(states[0]) && ProducedBy(fe, program, states[0])
    ensures SafeRun(fe, states, steps)
    ensures Sound(states[|steps|]) && ProducedBy(fe, program, states[|steps|])
  {
    if steps != [] {
      var n := |steps| - 1;
      DeterminedRunIsSafe(fe, program, states[..n + 1], steps[..n]);
      assert Next(fe, states[n], steps[n], states[n + 1]) && StepOf(program, steps[n]);
      StaysSound(fe, states[n], steps[n], states[n + 1]);
      StaysProduced(fe, program, states[n], steps[n], states[n + 1]);
      DeterminedStepIsSafe(fe, program, states[n], steps[n]);
      forall i | 0 <= i < |steps| ensures SafeStep(fe, states[i], steps[i]) {
        assert i < n ==> SafeStep(fe, states[..n + 1][i], steps[..n][i]);
      }
    }
  }

  /** The cache makes such a run of any sequence of compilations, guest stores and resets. */
  method Run(c: Cache, fe: FrontEnd, ghost program: Program, steps: seq<Step>) returns (ghost states: seq<Snapshot>)
    requires c.Valid() && WellFormedFrontEnd(fe) && WellFormedSteps(steps)
    modifies c
    ensures c.Valid() && IsRun(fe, states, steps) && states[0] == old(c.Now()) && states[|steps|] == c.Now()
    ensures old(c.Coherent()) && SafeRun(fe, states, steps) ==> c.Coherent()
    ensures old(c.Coherent()) && AddressDetermined(fe, program) && StepsOf(program, steps) ==>
      old(ProducedBy(fe, program, c.Now())) ==> c.Coherent()
  {
    hide Cache.BlocksValid, Cache.PoolValid, Cache.FastValid, Cache.ListsValid, Cache.CodeValid, Cache.ProtectionValid;
    hide AfterCompile, AfterWrite, AgreesWithMemory, SafeRun, ProducedBy, AddressDetermined, StepsOf, WellPlaced;
    hide ReadsFrom;
    states := [c.Now()];
    for n := 0 to |steps|
      invariant c.Valid() && IsRun(fe, states, steps[..n]) && states[0] == old(c.Now()) && states[n] == c.Now()
    {
      Perform(c, fe, steps[n]);
      assert steps[..n + 1][..n] == steps[..n];
      states := states + [c.Now()];
    }
    assert steps[..|steps|] == steps;
    if old(c.Coherent()) && (SafeRun(fe, states, steps) ||
                             (AddressDetermined(fe, program) && StepsOf(program, steps) &&
                              ProducedBy(fe, program, states[0]))) {
      if !SafeRun(fe, states, steps) {
        DeterminedRunIsSafe(fe, program, states, steps);
      }
      SafeRunIsCoherent(fe, states, steps);
    }
  }

  method Perform(c: Cache, fe: FrontEnd, step: Step)
    requires c.Valid() && WellFormedFrontEnd(fe) && WellFormedStep(step)
    modifies c
    ensures c.Valid() && Next(fe, old(c.Now()), step, c.Now())
  {
    hide Cache.Valid, AfterCompile, AfterWrite;
    match step {
      case Compile(addr, cpu, entry, bufferFull) =>
        var trace := Fetched(fe, addr, c.mem, cpu);
        var restored := c.CompileBlock(addr, trace, entry, bufferFull);
      case Write(localAddr, bytes) =>
        c.GuestWrite(localAddr, bytes);
      case Reset =>
        c.ResetBlockCache();
    }
  }
}
