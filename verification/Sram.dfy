/** The Blackfin on-chip SRAM allocator (src/blackfin_sram.c): a fixed table of
    slots, each NULL, FREE or ALLOCATED, with first-fit allocation, splitting
    and coalescing.  NULL slots keep the address they last described. */
module Sram {
  import opened Wrappers

  datatype Flag = Null | Free | Allocated

  datatype Piece = Piece(paddr: int, size: int, flag: Flag) {
    predicate Live() { flag != Null }
    function End(): int { paddr + size }
    predicate Covers(a: int) { Live() && paddr <= a < End() }
  }

  const SIZE_T_RANGE := 0x1_0000_0000

  /** The source's (size + 3) & ~3 on a 32-bit size_t. */
  function AlignUp(size: nat): nat {
    (size + 3) % SIZE_T_RANGE / 4 * 4
  }

  lemma AlignUpExact(size: nat)
    requires 0 < size < SIZE_T_RANGE
    ensures size <= AlignUp(size) <==> size + 3 < SIZE_T_RANGE
    ensures size <= AlignUp(size) ==> AlignUp(size) < size + 4 && AlignUp(size) % 4 == 0
    ensures !(size <= AlignUp(size)) ==> AlignUp(size) == 0
  {
    if size + 3 >= SIZE_T_RANGE {
      assert (size + 3) % SIZE_T_RANGE == size + 3 - SIZE_T_RANGE;
    }
  }

  // ---------- Slot searches ----------

  datatype Query = Fits(z: int) | Empty | At(addr: int) | FreeAt(addr: int) | FreeEndingAt(addr: int)

  predicate Matches(q: Query, p: Piece) {
    match q
    case Fits(z) => p.flag == Free && p.size >= z
    case Empty => p.flag == Null
    case At(addr) => p.paddr == addr
    case FreeAt(addr) => p.paddr == addr && p.flag == Free
    case FreeEndingAt(addr) => p.End() == addr && p.flag == Free
  }

  function FirstFrom(s: seq<Piece>, q: Query, i: nat): (k: nat)
    requires i <= |s|
    ensures i <= k <= |s|
    ensures k < |s| ==> Matches(q, s[k])
    ensures forall j | i <= j < k :: !Matches(q, s[j])
    decreases |s| - i
  {
    if i == |s| || Matches(q, s[i]) then i else FirstFrom(s, q, i + 1)
  }

  /** The lowest slot index that matches, or |s|. */
  function First(s: seq<Piece>, q: Query): (k: nat)
    ensures k <= |s|
    ensures k < |s| ==> Matches(q, s[k])
    ensures forall j | 0 <= j < k :: !Matches(q, s[j])
  {
    FirstFrom(s, q, 0)
  }

  // ---------- Value model of the three operations ----------

  function Mark(s: seq<Piece>, i: nat, f: Flag): seq<Piece>
    requires i < |s|
  {
    s[i := s[i].(flag := f)]
  }

  /** Slot k becomes the FREE tail of slot i, which keeps its first z bytes. */
  function Split(s: seq<Piece>, i: nat, k: nat, z: int): seq<Piece>
    requires i < |s| && k < |s|
  {
    s[k := Piece(s[i].paddr + z, s[i].size - z, Free)][i := s[i].(size := z)]
  }

  /** Slot i absorbs slot k, whose address and size stay behind as stale data. */
  function Absorb(s: seq<Piece>, i: nat, k: nat): seq<Piece>
    requires i < |s| && k < |s|
  {
    s[k := s[k].(flag := Null)][i := s[i].(size := s[i].size + s[k].size)]
  }

  function Alloc(s: seq<Piece>, size: nat): (seq<Piece>, Option<int>) {
    if size == 0 then (s, None) else AllocAligned(s, AlignUp(size))
  }

  function AllocAligned(s: seq<Piece>, z: int): (seq<Piece>, Option<int>) {
    var i := First(s, Fits(z));
    if i == |s| then (s, None)
    else
      var t := Mark(s, i, Allocated);
      var k := First(t, Empty);
      (if t[i].size > z && k < |t| then Split(t, i, k, z) else t, Some(s[i].paddr))
  }

  /** The first FREE slot of greatest size, or -1. */
  function Largest(s: seq<Piece>): (k: int)
    ensures -1 <= k < |s|
    ensures k >= 0 ==> s[k].flag == Free && s[k].size > 0
    ensures forall j | 0 <= j < |s| && s[j].flag == Free && s[j].size > 0 :: k >= 0 && s[j].size <= s[k].size
    ensures forall j | 0 <= j < k && s[j].flag == Free :: s[j].size < s[k].size
  {
    if s == [] then -1
    else
      var n := |s| - 1;
      var k := Largest(s[..n]);
      if s[n].flag == Free && s[n].size > (if k < 0 then 0 else s[k].size) then n else k
  }

  function AllocMax(s: seq<Piece>): (seq<Piece>, Option<(int, int)>) {
    var i := Largest(s);
    if i < 0 then (s, None) else (Mark(s, i, Allocated), Some((s[i].paddr, s[i].size)))
  }

  function MergeNext(s: seq<Piece>, i: nat): (t: seq<Piece>)
    requires i < |s|
    ensures |t| == |s|
  {
    var k := First(s, FreeAt(s[i].End()));
    if k < |s| then Absorb(s, i, k) else s
  }

  function MergePrev(s: seq<Piece>, i: nat): (t: seq<Piece>)
    requires i < |s|
    ensures |t| == |s|
  {
    var k := First(s, FreeEndingAt(s[i].paddr));
    if k < |s| then Absorb(s, k, i) else s
  }

  function Release(s: seq<Piece>, addr: int): (seq<Piece>, int) {
    var i := First(s, At(addr));
    if i == |s| || s[i].flag != Allocated then (s, -1)
    else (MergePrev(MergeNext(Mark(s, i, Free), i), i), 0)
  }

  // ---------- The run invariant ----------

  function Weight(p: Piece): int { if p.Live() then p.size else 0 }

  function TotalSize(s: seq<Piece>): int {
    if s == [] then 0 else Weight(s[0]) + TotalSize(s[1..])
  }

  /** The live pieces tile [base, base + len): positive sizes, no overlap, no
      gap, and sizes that add up to len. */
  ghost predicate Tiled(s: seq<Piece>, base: int, len: int) {
    && (forall i | 0 <= i < |s| && s[i].Live() :: s[i].size > 0 && base <= s[i].paddr && s[i].End() <= base + len)
    && Disjoint(s)
    && (forall a | base <= a < base + len :: Covered(s, a))
    && TotalSize(s) == len
  }

  ghost predicate Disjoint(s: seq<Piece>) {
    forall i, j | 0 <= i < |s| && 0 <= j < |s| && i != j && s[i].Live() && s[j].Live() ::
      s[i].End() <= s[j].paddr || s[j].End() <= s[i].paddr
  }

  ghost predicate Covered(s: seq<Piece>, a: int) {
    exists i :: 0 <= i < |s| && s[i].Covers(a)
  }

  ghost predicate Coalesced(s: seq<Piece>) {
    forall i, j | 0 <= i < |s| && 0 <= j < |s| && s[i].flag == Free && s[j].flag == Free ::
      s[i].End() != s[j].paddr
  }

  /** No NULL slot below a live slot still holds that live slot's address. */
  ghost predicate NoStaleBelow(s: seq<Piece>) {
    forall i, j | 0 <= i < j < |s| && s[i].flag == Null && s[j].Live() :: s[i].paddr != s[j].paddr
  }

  ghost predicate Inv(s: seq<Piece>, base: int, len: int) {
    && Tiled(s, base, len)
    && Coalesced(s)
    && NoStaleBelow(s)
  }

  // ---------- How the primitive table updates act on the invariant ----------

  lemma {:induction false} TotalSizeUpdate(s: seq<Piece>, i: nat, p: Piece)
    requires i < |s|
    ensures TotalSize(s[i := p]) == TotalSize(s) - Weight(s[i]) + Weight(p)
  {
    if i == 0 {
      assert s[i := p][1..] == s[1..];
    } else {
      assert s[i := p][1..] == s[1..][i - 1 := p];
      TotalSizeUpdate(s[1..], i - 1, p);
    }
  }

  lemma MarkTiled(s: seq<Piece>, i: nat, f: Flag, base: int, len: int)
    requires Tiled(s, base, len) && i < |s| && s[i].Live() && f != Null
    ensures Tiled(Mark(s, i, f), base, len)
  {
    var t := Mark(s, i, f);
    TotalSizeUpdate(s, i, t[i]);
    forall a | base <= a < base + len ensures Covered(t, a) {
      assert Covered(s, a);
      var k :| 0 <= k < |s| && s[k].Covers(a);
      assert t[k].Covers(a);
    }
  }

  lemma SplitTiled(s: seq<Piece>, i: nat, k: nat, z: int, base: int, len: int)
    requires Tiled(s, base, len) && i < |s| && k < |s|
    requires s[i].Live() && s[k].flag == Null && 0 < z < s[i].size
    ensures Tiled(Split(s, i, k, z), base, len)
  {
    var t := Split(s, i, k, z);
    SplitTotal(s, i, k, z);
    SplitDisjoint(s, i, k, z);
    forall a | base <= a < base + len ensures Covered(t, a) {
      SplitCovers(s, i, k, z, a);
    }
  }

  lemma SplitDisjoint(s: seq<Piece>, i: nat, k: nat, z: int)
    requires Disjoint(s) && i < |s| && k < |s|
    requires s[i].Live() && s[k].flag == Null && 0 < z < s[i].size
    ensures Disjoint(Split(s, i, k, z))
  {
    var t := Split(s, i, k, z);
    forall a, b | 0 <= a < |t| && 0 <= b < |t| && a != b && t[a].Live() && t[b].Live()
      ensures t[a].End() <= t[b].paddr || t[b].End() <= t[a].paddr
    {
      var a', b' := if a == k then i else a, if b == k then i else b;
      assert s[a'].Live() && s[b'].Live();
    }
  }

  lemma SplitTotal(s: seq<Piece>, i: nat, k: nat, z: int)
    requires i < |s| && k < |s| && s[i].Live() && s[k].flag == Null
    ensures TotalSize(Split(s, i, k, z)) == TotalSize(s)
  {
    var t := Split(s, i, k, z);
    TotalSizeUpdate(s, k, t[k]);
    TotalSizeUpdate(s[k := t[k]], i, t[i]);
  }

  lemma SplitCovers(s: seq<Piece>, i: nat, k: nat, z: int, a: int)
    requires Covered(s, a) && i < |s| && k < |s|
    requires s[i].Live() && s[k].flag == Null && 0 < z < s[i].size
    ensures Covered(Split(s, i, k, z), a)
  {
    var t := Split(s, i, k, z);
    var j :| 0 <= j < |s| && s[j].Covers(a);
    assert t[if j == i && a >= t[k].paddr then k else j].Covers(a);
  }

  lemma AbsorbTiled(s: seq<Piece>, i: nat, k: nat, base: int, len: int)
    requires Tiled(s, base, len) && i < |s| && k < |s| && i != k
    requires s[i].Live() && s[k].Live() && s[i].End() == s[k].paddr
    ensures Tiled(Absorb(s, i, k), base, len)
  {
    var t := Absorb(s, i, k);
    TotalSizeUpdate(s, k, t[k]);
    TotalSizeUpdate(s[k := t[k]], i, t[i]);
    forall a | base <= a < base + len ensures Covered(t, a) {
      AbsorbCovers(s, i, k, a);
    }
  }

  lemma AbsorbCovers(s: seq<Piece>, i: nat, k: nat, a: int)
    requires Covered(s, a) && i < |s| && k < |s| && i != k
    requires s[i].Live() && s[k].Live() && s[i].End() == s[k].paddr
    requires s[i].size > 0 && s[k].size > 0
    ensures Covered(Absorb(s, i, k), a)
  {
    var j :| 0 <= j < |s| && s[j].Covers(a);
    assert Absorb(s, i, k)[if j == k then i else j].Covers(a);
  }

  /** The table that l1sram_init leaves behind. */
  function Init(base: int, len: int, count: nat): seq<Piece>
    requires count > 0
  {
    [Piece(base, len, Free)] + seq(count - 1, _ => Piece(0, 0, Null))
  }

  lemma {:induction false} NoWeight(s: seq<Piece>)
    requires forall p | p in s :: p.flag == Null
    ensures TotalSize(s) == 0
  {
    if s != [] {
      assert s[0] in s;
      NoWeight(s[1..]);
    }
  }

  lemma InitInv(base: int, len: int, count: nat)
    requires len > 0 && count > 0
    ensures Inv(Init(base, len, count), base, len)
  {
    var s := Init(base, len, count);
    NoWeight(s[1..]);
    forall a | base <= a < base + len ensures Covered(s, a) { assert s[0].Covers(a); }
  }

  // ---------- Allocation ----------

  lemma MarkAllocatedInv(s: seq<Piece>, i: nat, base: int, len: int)
    requires Inv(s, base, len) && i < |s| && s[i].flag == Free
    ensures Inv(Mark(s, i, Allocated), base, len)
  {
    MarkTiled(s, i, Allocated, base, len);
  }

  /** Splitting an allocated slot into the lowest NULL slot: the new FREE tail
      ends where nothing FREE starts, and no NULL slot lies below it. */
  lemma SplitInv(s: seq<Piece>, i: nat, k: nat, z: int, base: int, len: int)
    requires Inv(s, base, len) && i < |s| && s[i].flag == Allocated && 0 < z < s[i].size
    requires k == First(s, Empty) < |s|
    requires forall b | 0 <= b < |s| && s[b].flag == Free :: s[i].End() != s[b].paddr
    ensures Inv(Split(s, i, k, z), base, len)
  {
    SplitTiled(s, i, k, z, base, len);
    var t := Split(s, i, k, z);
    assert NoStaleBelow(t) by {
      forall a, b | 0 <= a < b < |t| && t[a].flag == Null && t[b].Live() ensures t[a].paddr != t[b].paddr {
        assert t[a] == s[a] && Matches(Empty, s[a]);
        assert k < a;
      }
    }
    assert Coalesced(t) by {
      forall a, b | 0 <= a < |t| && 0 <= b < |t| && t[a].flag == Free && t[b].flag == Free
        ensures t[a].End() != t[b].paddr
      {
        if a == k { assert t[a].End() == s[i].End(); }
        else if b == k { assert s[a] == t[a]; }
      }
    }
  }

  /** What an allocation of z bytes from slot i does to the table. */
  ghost predicate AllocatedAt(s: seq<Piece>, t: seq<Piece>, i: nat, z: int, addr: int) {
    && i < |s| == |t|
    && s[i].flag == Free && s[i].paddr == addr
    // first fit
    && (forall j | 0 <= j < i :: s[j].flag == Free ==> s[j].size < z)
    && t[i].flag == Allocated && t[i].paddr == addr && z <= t[i].size <= s[i].size
    // more than asked for only when there was no NULL slot for the tail
    && (t[i].size != z ==> t[i].size == s[i].size && forall p | p in s :: p.Live())
    && (forall j | 0 <= j < |s| && j != i :: s[j].flag == Allocated || t[j].flag == Allocated ==> t[j] == s[j])
  }

  lemma AllocAlignedInv(s: seq<Piece>, z: int, base: int, len: int)
    requires Inv(s, base, len) && 0 < z
    ensures Inv(AllocAligned(s, z).0, base, len)
  {
    var i := First(s, Fits(z));
    if i < |s| {
      var m := Mark(s, i, Allocated);
      MarkAllocatedInv(s, i, base, len);
      var k := First(m, Empty);
      if m[i].size > z && k < |m| {
        assert forall b | 0 <= b < |m| && m[b].flag == Free :: m[b] == s[b];
        SplitInv(m, i, k, z, base, len);
      }
    }
  }

  lemma AllocAlignedAt(s: seq<Piece>, z: int)
    requires First(s, Fits(z)) < |s|
    ensures var i, (t, r) := First(s, Fits(z)), AllocAligned(s, z);
      r == Some(s[i].paddr) && AllocatedAt(s, t, i, z, s[i].paddr)
  {
    var i := First(s, Fits(z));
    forall j | 0 <= j < i ensures s[j].flag == Free ==> s[j].size < z { assert !Matches(Fits(z), s[j]); }
    var m := Mark(s, i, Allocated);
    var k := First(m, Empty);
    if k < |m| {
      assert m[k].flag == Null && k != i;
    } else {
      forall p | p in s ensures p.Live() {
        var j :| 0 <= j < |s| && s[j] == p;
        assert !Matches(Empty, m[j]);
      }
    }
  }

  lemma FirstFails(s: seq<Piece>, z: int)
    ensures First(s, Fits(z)) == |s| <==> forall p | p in s && p.flag == Free :: p.size < z
  {
    var i := First(s, Fits(z));
    if i < |s| {
      assert s[i] in s;
    } else {
      forall p | p in s && p.flag == Free ensures p.size < z {
        var j :| 0 <= j < |s| && s[j] == p;
        assert !Matches(Fits(z), s[j]);
      }
    }
  }

  /** Allocation fails exactly when no FREE piece is large enough, and then
      changes nothing; otherwise the block is at least as large as asked, lies
      in what was one FREE piece and every other allocation stays as it was.
      The invariant makes it disjoint from them. */
  lemma AllocCorrect(s: seq<Piece>, size: nat, base: int, len: int)
    requires Inv(s, base, len) && size + 3 < SIZE_T_RANGE
    ensures var (t, r) := Alloc(s, size);
      && |t| == |s|
      && Inv(t, base, len)
      && (r == None <==> size == 0 || forall p | p in s && p.flag == Free :: p.size < AlignUp(size))
      && (r == None ==> t == s)
      && (r.Some? ==> size <= AlignUp(size) && exists i :: AllocatedAt(s, t, i, AlignUp(size), r.value))
  {
    if size != 0 {
      AlignUpExact(size);
      var z := AlignUp(size);
      FirstFails(s, z);
      AllocAlignedInv(s, z, base, len);
      if First(s, Fits(z)) < |s| {
        AllocAlignedAt(s, z);
      }
    }
  }

  /** The invariant survives every size but the last three of a size_t, where
      size + 3 wraps to a request for no bytes; those break it exactly when some
      piece is FREE and a NULL slot is there to split into. */
  lemma AllocKeepsInvIff(s: seq<Piece>, size: nat, base: int, len: int)
    requires Inv(s, base, len) && size < SIZE_T_RANGE
    ensures Inv(Alloc(s, size).0, base, len) <==>
      size + 3 < SIZE_T_RANGE || (forall p | p in s :: p.flag != Free) || (forall p | p in s :: p.Live())
  {
    if size + 3 < SIZE_T_RANGE {
      AllocCorrect(s, size, base, len);
    } else {
      AlignUpExact(size);
      WrappedAlloc(s, base, len);
    }
  }

  /** The failure at a real table: a fresh one of sixteen bytes and two slots. */
  lemma WrappedAllocExample(base: int)
    ensures Inv(Init(base, 16, 2), base, 16) && !Inv(Alloc(Init(base, 16, 2), 0xFFFF_FFFF).0, base, 16)
  {
    InitInv(base, 16, 2);
    var s := Init(base, 16, 2);
    AllocKeepsInvIff(s, 0xFFFF_FFFF, base, 16);
    assert s[0] in s && s[1] in s;
  }

  lemma WrappedAlloc(s: seq<Piece>, base: int, len: int)
    requires Inv(s, base, len)
    ensures Inv(AllocAligned(s, 0).0, base, len) <==>
      (forall p | p in s :: p.flag != Free) || (forall p | p in s :: p.Live())
  {
    FirstFails(s, 0);
    var i := First(s, Fits(0));
    if i < |s| {
      assert s[i] in s;
      AllocAlignedAt(s, 0);
      MarkAllocatedInv(s, i, base, len);
      var m := Mark(s, i, Allocated);
      var k := First(m, Empty);
      if k < |m| {
        assert s[k] in s && k != i;
        assert AllocAligned(s, 0).0[i].size == 0;
      }
    }
  }

  /** What Tiled means for a block that is handed out. */
  lemma AllocationsDisjoint(s: seq<Piece>, i: nat, j: nat, a: int, base: int, len: int)
    requires Inv(s, base, len) && i < |s| && j < |s| && i != j
    requires s[i].flag == Allocated && s[j].Live() && s[i].Covers(a)
    ensures !s[j].Covers(a) && base <= a < base + len
  {
  }

  /** alloc_max takes a FREE piece than which no FREE piece is larger, whole,
      and fails exactly when nothing is FREE. */
  lemma AllocMaxCorrect(s: seq<Piece>, base: int, len: int)
    requires Inv(s, base, len)
    ensures var (t, r) := AllocMax(s);
      && |t| == |s|
      && Inv(t, base, len)
      && (r == None <==> forall p | p in s :: p.flag != Free)
      && (r == None ==> t == s)
      && (r.Some? ==> forall p | p in s && p.flag == Free :: p.size <= r.value.1)
      && (r.Some? ==> exists i :: 0 <= i < |s| && s[i] == Piece(r.value.0, r.value.1, Free) && t == Mark(s, i, Allocated)
                               && forall j | 0 <= j < i && s[j].flag == Free :: s[j].size < s[i].size)
  {
    var i := Largest(s);
    if i >= 0 {
      MarkAllocatedInv(s, i, base, len);
      assert s[i] in s;
      assert s[i] == Piece(s[i].paddr, s[i].size, Free);
    } else {
      forall p | p in s ensures p.flag != Free {
        var j :| 0 <= j < |s| && s[j] == p;
      }
    }
  }

  // ---------- Release ----------

  /** The slot search by address meets an allocated block at its own slot: no
      stale NULL slot and no other live slot can come first. */
  lemma FirstAtIsOwner(s: seq<Piece>, j: nat, base: int, len: int)
    requires Inv(s, base, len) && j < |s| && s[j].flag == Allocated
    ensures First(s, At(s[j].paddr)) == j
  {
    var i := First(s, At(s[j].paddr));
    assert Matches(At(s[j].paddr), s[j]);
  }

  ghost predicate IsAllocated(s: seq<Piece>, addr: int) {
    exists j :: 0 <= j < |s| && s[j].flag == Allocated && s[j].paddr == addr
  }

  /** Coalesced, but for the pieces that end where slot i starts. */
  ghost predicate CoalescedAround(s: seq<Piece>, i: nat) {
    forall a, b | 0 <= a < |s| && 0 <= b < |s| && a != i && b != i && s[a].flag == Free && s[b].flag == Free ::
      s[a].End() != s[b].paddr
  }

  ghost predicate CoalescedBut(s: seq<Piece>, i: nat) {
    forall a, b | 0 <= a < |s| && 0 <= b < |s| && b != i && s[a].flag == Free && s[b].flag == Free ::
      s[a].End() != s[b].paddr
  }

  /** The slots that were allocated still are, unchanged, and no others. */
  ghost predicate SameAllocated(s: seq<Piece>, t: seq<Piece>) {
    && |s| == |t|
    && forall j | 0 <= j < |s| :: s[j].flag == Allocated || t[j].flag == Allocated ==> t[j] == s[j]
  }

  lemma AbsorbNoStale(s: seq<Piece>, i: nat, k: nat, base: int, len: int)
    requires Tiled(s, base, len) && NoStaleBelow(s) && i < |s| && k < |s| && i != k
    requires s[i].flag == Free && s[k].flag == Free && s[i].End() == s[k].paddr
    ensures NoStaleBelow(Absorb(s, i, k)) && SameAllocated(s, Absorb(s, i, k))
  {
    var t := Absorb(s, i, k);
    forall a, b | 0 <= a < b < |t| && t[a].flag == Null && t[b].Live() ensures t[a].paddr != t[b].paddr {
      assert t[b].paddr == s[b].paddr && t[a].paddr == s[a].paddr && s[b].Live();
      if a == k { assert s[k].Live() && b != k; } else { assert s[a] == t[a]; }
    }
  }

  lemma MergeNextInv(s: seq<Piece>, i: nat, base: int, len: int)
    requires Tiled(s, base, len) && NoStaleBelow(s) && i < |s| && s[i].flag == Free
    requires CoalescedAround(s, i)
    ensures var t := MergeNext(s, i);
      && Tiled(t, base, len) && NoStaleBelow(t) && CoalescedBut(t, i)
      && t[i].flag == Free && t[i].paddr == s[i].paddr && SameAllocated(s, t)
  {
    var k := First(s, FreeAt(s[i].End()));
    if k < |s| {
      assert s[k].flag == Free && s[k].paddr == s[i].End() && k != i;
      AbsorbTiled(s, i, k, base, len);
      AbsorbNoStale(s, i, k, base, len);
      var t := Absorb(s, i, k);
      forall a, b | 0 <= a < |t| && 0 <= b < |t| && b != i && t[a].flag == Free && t[b].flag == Free
        ensures t[a].End() != t[b].paddr
      {
        assert s[b] == t[b];
        if a == i { assert t[a].End() == s[k].End(); } else { assert s[a] == t[a]; }
      }
    } else {
      forall b | 0 <= b < |s| && s[b].flag == Free ensures s[i].End() != s[b].paddr {
        assert !Matches(FreeAt(s[i].End()), s[b]);
      }
    }
  }

  lemma AbsorbCoalesced(s: seq<Piece>, k: nat, i: nat)
    requires CoalescedBut(s, i) && i < |s| && k < |s| && k != i && s[k].End() == s[i].paddr
    requires s[i].flag == Free && s[k].flag == Free
    ensures Coalesced(Absorb(s, k, i))
  {
    var t := Absorb(s, k, i);
    forall a, b | 0 <= a < |t| && 0 <= b < |t| && t[a].flag == Free && t[b].flag == Free
      ensures t[a].End() != t[b].paddr
    {
      assert s[b].paddr == t[b].paddr && s[b].flag == Free && b != i;
      if a == k { assert t[a].End() == s[i].End(); } else { assert s[a] == t[a]; }
    }
  }

  lemma MergePrevInv(s: seq<Piece>, i: nat, base: int, len: int)
    requires Tiled(s, base, len) && NoStaleBelow(s) && CoalescedBut(s, i) && i < |s| && s[i].flag == Free
    ensures Inv(MergePrev(s, i), base, len) && SameAllocated(s, MergePrev(s, i))
  {
    var k := First(s, FreeEndingAt(s[i].paddr));
    if k < |s| {
      assert s[k].flag == Free && s[k].End() == s[i].paddr && k != i;
      AbsorbTiled(s, k, i, base, len);
      AbsorbNoStale(s, k, i, base, len);
      AbsorbCoalesced(s, k, i);
    } else {
      forall a | 0 <= a < |s| && s[a].flag == Free ensures s[a].End() != s[i].paddr {
        assert !Matches(FreeEndingAt(s[i].paddr), s[a]);
      }
    }
  }

  lemma MarkFree(s: seq<Piece>, j: nat, base: int, len: int)
    requires Inv(s, base, len) && j < |s| && s[j].flag == Allocated
    ensures var m := Mark(s, j, Free); Tiled(m, base, len) && NoStaleBelow(m) && CoalescedAround(m, j)
  {
    MarkTiled(s, j, Free, base, len);
  }

  lemma ReleaseStep(s: seq<Piece>, j: nat, base: int, len: int)
    requires Inv(s, base, len) && j < |s| && s[j].flag == Allocated
    ensures Release(s, s[j].paddr).1 == 0
    ensures Inv(Release(s, s[j].paddr).0, base, len)
    ensures SameAllocated(Mark(s, j, Free), Release(s, s[j].paddr).0)
  {
    FirstAtIsOwner(s, j, base, len);
    MarkFree(s, j, base, len);
    var m := Mark(s, j, Free);
    MergeNextInv(m, j, base, len);
    var n := MergeNext(m, j);
    MergePrevInv(n, j, base, len);
  }

  /** Release succeeds exactly on addresses that are handed out, and then that
      one block stops being allocated and all others stay as they were.  Any
      other address leaves the whole table alone. */
  lemma ReleaseCorrect(s: seq<Piece>, addr: int, base: int, len: int)
    requires Inv(s, base, len)
    ensures var (t, rc) := Release(s, addr);
      && |t| == |s|
      && Inv(t, base, len)
      && (rc == 0 <==> IsAllocated(s, addr))
      && (rc != 0 ==> rc == -1 && t == s)
      && (rc == 0 ==> exists j :: 0 <= j < |s| && s[j].flag == Allocated && s[j].paddr == addr && SameAllocated(Mark(s, j, Free), t))
  {
    if IsAllocated(s, addr) {
      var j :| 0 <= j < |s| && s[j].flag == Allocated && s[j].paddr == addr;
      ReleaseStep(s, j, base, len);
    }
  }

  /** The bytes of a released block, and no others, become free. */
  lemma ReleaseFreesBlock(s: seq<Piece>, j: nat, a: int, base: int, len: int)
    requires Inv(s, base, len) && j < |s| && s[j].flag == Allocated && base <= a < base + len
    ensures InFree(Release(s, s[j].paddr).0, a) <==> InFree(s, a) || s[j].Covers(a)
  {
    ReleaseStep(s, j, base, len);
    FreedBytes(s, Release(s, s[j].paddr).0, j, a, base, len);
  }

  lemma FreedBytes(s: seq<Piece>, t: seq<Piece>, j: nat, a: int, base: int, len: int)
    requires Tiled(s, base, len) && Tiled(t, base, len) && base <= a < base + len
    requires j < |s| && s[j].flag == Allocated && SameAllocated(Mark(s, j, Free), t)
    ensures InFree(t, a) <==> InFree(s, a) || s[j].Covers(a)
  {
    FreeOrAllocated(s, a, base, len);
    FreeOrAllocated(t, a, base, len);
    var m := Mark(s, j, Free);
    assert forall i | 0 <= i < |s| && i != j :: m[i] == s[i];
    if InAllocated(t, a) {
      var i :| 0 <= i < |t| && t[i].flag == Allocated && t[i].Covers(a);
      assert m[i] == t[i];
    }
  }

  ghost predicate InFree(s: seq<Piece>, a: int) {
    exists i :: 0 <= i < |s| && s[i].flag == Free && s[i].Covers(a)
  }

  ghost predicate InAllocated(s: seq<Piece>, a: int) {
    exists i :: 0 <= i < |s| && s[i].flag == Allocated && s[i].Covers(a)
  }

  lemma FreeOrAllocated(s: seq<Piece>, a: int, base: int, len: int)
    requires Tiled(s, base, len) && base <= a < base + len
    ensures InFree(s, a) <==> !InAllocated(s, a)
  {
    assert Covered(s, a);
  }

  // ---------- Whole runs ----------

  function LivePieces(s: seq<Piece>): set<Piece> {
    set p | p in s && p.Live()
  }

  lemma SameLive(s: seq<Piece>, t: seq<Piece>)
    requires |s| == |t| && forall j | 0 <= j < |s| :: s[j] == t[j] || (s[j].flag == Null && t[j].flag == Null)
    ensures LivePieces(s) == LivePieces(t)
  {
    forall p ensures p in LivePieces(t) <==> p in LivePieces(s) {
      if p in LivePieces(t) { var j :| 0 <= j < |t| && t[j] == p; assert s[j] == p; }
      if p in LivePieces(s) { var j :| 0 <= j < |s| && s[j] == p; assert t[j] == p; }
    }
  }

  /** Freeing slot i of a table in which only its FREE tail k was cut off. */
  lemma MergeUndoesSplit(s: seq<Piece>, i: nat, k: nat, z: int, base: int, len: int)
    requires Inv(s, base, len) && i < |s| && s[i].flag == Free && 0 < z < s[i].size
    requires k < |s| && s[k].flag == Null
    ensures var n := MergeNext(Split(s, i, k, z), i);
      n[i] == s[i] && n[k].flag == Null && forall j | 0 <= j < |s| && j != i && j != k :: n[j] == s[j]
  {
    SplitTiled(s, i, k, z, base, len);
    var m := Split(s, i, k, z);
    assert Matches(FreeAt(m[i].End()), m[k]);
    var f := First(m, FreeAt(m[i].End()));
    assert m[f].paddr == m[k].paddr && m[f].flag == Free;
    assert f == k;
  }

  /** Where s is coalesced, a table with the same FREE pieces has none to merge. */
  lemma NothingToMerge(s: seq<Piece>, n: seq<Piece>, i: nat)
    requires Coalesced(s) && |n| == |s| && i < |s| && s[i].flag == Free && n[i] == s[i]
    requires forall j | 0 <= j < |s| && n[j].flag == Free :: n[j] == s[j]
    ensures MergeNext(n, i) == n && MergePrev(n, i) == n
  {
    var f := First(n, FreeAt(n[i].End()));
    if f < |n| { assert false; }
    var g := First(n, FreeEndingAt(n[i].paddr));
    if g < |n| { assert false; }
  }

  /** Allocating and at once releasing the result restores the live pieces, with
      or without a NULL slot to split into. */
  lemma AllocReleaseRoundTrip(s: seq<Piece>, size: nat, base: int, len: int)
    requires Inv(s, base, len) && size + 3 < SIZE_T_RANGE && Alloc(s, size).1.Some?
    ensures var (t, r) := Alloc(s, size);
      Release(t, r.value).1 == 0 && LivePieces(Release(t, r.value).0) == LivePieces(s)
  {
    AlignUpExact(size);
    var z := AlignUp(size);
    AllocAlignedInv(s, z, base, len);
    AllocAlignedAt(s, z);
    var i := First(s, Fits(z));
    var t := AllocAligned(s, z).0;
    FirstAtIsOwner(t, i, base, len);
    MergeRestores(s, z, base, len);
  }

  lemma MergeRestores(s: seq<Piece>, z: int, base: int, len: int)
    requires Inv(s, base, len) && 0 < z && First(s, Fits(z)) < |s|
    ensures var i, t := First(s, Fits(z)), AllocAligned(s, z).0;
      |t| == |s| && LivePieces(MergePrev(MergeNext(Mark(t, i, Free), i), i)) == LivePieces(s)
  {
    var i := First(s, Fits(z));
    var k := First(Mark(s, i, Allocated), Empty);
    var m := Mark(AllocAligned(s, z).0, i, Free);
    if s[i].size > z && k < |s| {
      assert m == Split(s, i, k, z);
      MergeUndoesSplit(s, i, k, z, base, len);
    } else {
      assert m == s;
      NothingToMerge(s, s, i);
    }
    NothingToMerge(s, MergeNext(m, i), i);
    SameLive(s, MergeNext(m, i));
  }

  datatype Op = DoAlloc(size: nat) | DoAllocMax | DoRelease(addr: int)

  function Step(s: seq<Piece>, op: Op): seq<Piece> {
    match op
    case DoAlloc(size) => Alloc(s, size).0
    case DoAllocMax => AllocMax(s).0
    case DoRelease(addr) => Release(s, addr).0
  }

  function Run(s: seq<Piece>, ops: seq<Op>): seq<Piece>
    decreases |ops|
  {
    if ops == [] then s else Run(Step(s, ops[0]), ops[1..])
  }

  /** The invariant holds in every state reachable by any operations. */
  lemma {:induction false} RunInv(s: seq<Piece>, ops: seq<Op>, base: int, len: int)
    requires Inv(s, base, len)
    requires forall op | op in ops && op.DoAlloc? :: op.size + 3 < SIZE_T_RANGE
    ensures Inv(Run(s, ops), base, len) && |Run(s, ops)| == |s|
    decreases |ops|
  {
    if ops != [] {
      match ops[0] {
        case DoAlloc(size) => assert ops[0] in ops; AllocCorrect(s, size, base, len);
        case DoAllocMax => AllocMaxCorrect(s, base, len);
        case DoRelease(addr) => ReleaseCorrect(s, addr, base, len);
      }
      RunInv(Step(s, ops[0]), ops[1..], base, len);
    }
  }

  /** What follows a FREE piece is the end of the region or an allocated block. */
  lemma AfterFree(s: seq<Piece>, i: nat, base: int, len: int)
    requires Inv(s, base, len) && i < |s| && s[i].flag == Free
    ensures s[i].End() == base + len || IsAllocated(s, s[i].End())
  {
    if s[i].End() < base + len {
      assert Covered(s, s[i].End());
      var j :| 0 <= j < |s| && s[j].Covers(s[i].End());
      assert i != j && s[j].paddr == s[i].End();
    }
  }

  ghost predicate NothingAllocated(s: seq<Piece>) {
    forall j | 0 <= j < |s| :: s[j].flag != Allocated
  }

  /** When nothing is allocated, one FREE piece spans the whole region. */
  lemma AllFreeIsWhole(s: seq<Piece>, base: int, len: int)
    requires Inv(s, base, len) && len > 0 && NothingAllocated(s)
    ensures LivePieces(s) == {Piece(base, len, Free)}
  {
    assert Covered(s, base);
    var i :| 0 <= i < |s| && s[i].Covers(base);
    AfterFree(s, i, base, len);
    assert s[i] == Piece(base, len, Free);
    forall p | p in LivePieces(s) ensures p == s[i] {
      var j :| 0 <= j < |s| && s[j] == p;
    }
  }

  /** From initialisation, after any run that leaves nothing allocated the
      original region is whole again. */
  lemma RunThenAllFreeIsWhole(base: int, len: int, count: nat, ops: seq<Op>)
    requires len > 0 && count > 0
    requires forall op | op in ops && op.DoAlloc? :: op.size + 3 < SIZE_T_RANGE
    requires NothingAllocated(Run(Init(base, len, count), ops))
    ensures LivePieces(Run(Init(base, len, count), ops)) == {Piece(base, len, Free)}
  {
    InitInv(base, len, count);
    RunInv(Init(base, len, count), ops, base, len);
    AllFreeIsWhole(Run(Init(base, len, count), ops), base, len);
  }

  // ---------- The operations in place ----------

  method SramInit(pfree: array<Piece>, base: int, len: int)
    requires pfree.Length > 0
    modifies pfree
    ensures pfree[..] == Init(base, len, pfree.Length)
  {
    for i := 0 to pfree.Length
      invariant forall j | 0 <= j < i :: pfree[j] == Piece(0, 0, Null)
    {
      pfree[i] := Piece(0, 0, Null);
    }
    pfree[0] := Piece(base, len, Free);
  }

  method SramAlloc(size: nat, pfree: array<Piece>) returns (addr: Option<int>)
    requires size < SIZE_T_RANGE
    modifies pfree
    ensures (pfree[..], addr) == Alloc(old(pfree[..]), size)
  {
    ghost var s := pfree[..];
    if size == 0 {
      return None;
    }
    var z := AlignUp(size);
    var i := 0;
    while i < pfree.Length && !(pfree[i].flag == Free && pfree[i].size >= z)
      invariant 0 <= i <= pfree.Length
      invariant forall j | 0 <= j < i :: !Matches(Fits(z), s[j])
    {
      i := i + 1;
    }
    assert i == First(s, Fits(z));
    if i >= pfree.Length {
      return None;
    }
    addr := Some(pfree[i].paddr);
    pfree[i] := pfree[i].(flag := Allocated);
    var index := i;
    ghost var t := pfree[..];
    assert t == Mark(s, index, Allocated);
    if pfree[index].size > z {
      i := 0;
      while i < pfree.Length && pfree[i].flag != Null
        invariant 0 <= i <= pfree.Length
        invariant forall j | 0 <= j < i :: !Matches(Empty, t[j])
      {
        i := i + 1;
      }
      assert i == First(t, Empty);
      if i < pfree.Length {
        pfree[i] := Piece(addr.value + z, pfree[index].size - z, Free);
        pfree[index] := pfree[index].(size := z);
        assert pfree[..] == Split(t, index, i, z);
      }
    }
  }

  method SramAllocMax(pfree: array<Piece>) returns (r: Option<(int, int)>)
    modifies pfree
    ensures (pfree[..], r) == AllocMax(old(pfree[..]))
  {
    var best, index := 0, -1;
    for i := 0 to pfree.Length
      invariant index == Largest(pfree[..i])
      invariant best == if index < 0 then 0 else pfree[index].size
    {
      assert pfree[..i + 1][..i] == pfree[..i];
      if pfree[i].flag == Free && pfree[i].size > best {
        index, best := i, pfree[i].size;
      }
    }
    assert pfree[..pfree.Length] == pfree[..];
    if index < 0 {
      return None;
    }
    r := Some((pfree[index].paddr, best));
    pfree[index] := pfree[index].(flag := Allocated);
  }

  method SramFree(addr: int, pfree: array<Piece>) returns (rc: int)
    modifies pfree
    ensures (pfree[..], rc) == Release(old(pfree[..]), addr)
  {
    ghost var s := pfree[..];
    var i := 0;
    while i < pfree.Length && pfree[i].paddr != addr
      invariant 0 <= i <= pfree.Length
      invariant forall j | 0 <= j < i :: !Matches(At(addr), s[j])
    {
      i := i + 1;
    }
    assert i == First(s, At(addr));
    if i >= pfree.Length || pfree[i].flag != Allocated {
      return -1;
    }
    var index := i;
    pfree[index] := pfree[index].(flag := Free);
    assert pfree[..] == Mark(s, index, Free);
    LinkNext(pfree, index);
    LinkLast(pfree, index);
    rc := 0;
  }

  method LinkNext(pfree: array<Piece>, index: nat)
    requires index < pfree.Length
    modifies pfree
    ensures pfree[..] == MergeNext(old(pfree[..]), index)
  {
    ghost var s := pfree[..];
    var i, end := 0, pfree[index].End();
    while i < pfree.Length && !(end == pfree[i].paddr && pfree[i].flag == Free)
      invariant 0 <= i <= pfree.Length
      invariant forall j | 0 <= j < i :: !Matches(FreeAt(end), s[j])
    {
      i := i + 1;
    }
    assert i == First(s, FreeAt(end));
    if i < pfree.Length {
      var grown := pfree[index].(size := pfree[index].size + pfree[i].size);
      pfree[i] := pfree[i].(flag := Null);
      pfree[index] := grown;
      assert pfree[..] == Absorb(s, index, i);
    }
  }

  method LinkLast(pfree: array<Piece>, index: nat)
    requires index < pfree.Length
    modifies pfree
    ensures pfree[..] == MergePrev(old(pfree[..]), index)
  {
    ghost var s := pfree[..];
    var i := 0;
    while i < pfree.Length && !(pfree[i].End() == pfree[index].paddr && pfree[i].flag == Free)
      invariant 0 <= i <= pfree.Length
      invariant forall j | 0 <= j < i :: !Matches(FreeEndingAt(s[index].paddr), s[j])
    {
      i := i + 1;
    }
    assert i == First(s, FreeEndingAt(s[index].paddr));
    if i < pfree.Length {
      var grown := pfree[i].(size := pfree[i].size + pfree[index].size);
      pfree[index] := pfree[index].(flag := Null);
      pfree[i] := grown;
      assert pfree[..] == Absorb(s, i, index);
    }
  }
}
