/** Range operations on the shadow MMU: what a walk over the reverse maps of the slots does to the entries. */
module SlotRanges {
  import opened ShadowState
  import opened Protection
  import opened ShadowMmus
  import Accounts
  import opened MemSlots
  import opened SlotRmapWalk

  /** The reverse map behind a head: the array of a slot starts at the block of its first frame. */
  function BucketAt(h: Head): Bucket {
    var block := h.visit.index + Block(h.visit.level, h.slot.base);
    Bucket(h.visit.level, if block < 0 then 0 else block)
  }

  /** No leaf entry is listed in this reverse map. */
  ghost predicate NoLeafIn(pages: Pages, spt: Spt, b: Bucket) {
    forall r | r in spt && spt[r].Leaf? && r.page in pages :: BucketOf(pages[r.page].level, spt[r].gfn) != b
  }

  /** No entry, of any size, maps the frame. */
  ghost predicate Unmapped(pages: Pages, spt: Spt, gfn: Gfn) {
    forall r | r in spt && r.page in pages :: !Covers(pages[r.page].level, spt[r], gfn)
  }

  lemma EmptyChain(pages: Pages, spt: Spt, rmap: Rmap, b: Bucket)
    requires Mapped(pages, spt, rmap) && Chain(rmap, b) == {}
    ensures NoLeafIn(pages, spt, b)
  {
  }

  lemma ChainCovers(pages: Pages, spt: Spt, rmap: Rmap, h: Head, wanted: (Slot, nat) -> bool, r: SpteRef)
    returns (gfn: Gfn)
    requires Mapped(pages, spt, rmap) && Called(h, wanted) && r in Chain(rmap, BucketAt(h))
    ensures wanted(h.slot, gfn) && r in spt && r.page in pages && Covers(pages[r.page].level, spt[r], gfn)
  {
    gfn :| wanted(h.slot, gfn) && GfnToIndex(gfn, h.slot.base, h.visit.level) == h.visit.index;
  }

  /** If the reverse maps of all wanted heads are empty, no entry maps a wanted frame. */
  lemma HandledIsUnmapped(pages: Pages, spt: Spt, parents: Parents, rmap: Rmap, heads: seq<Head>, slots: seq<Slot>,
                          wanted: (Slot, nat) -> bool, j: nat, gfn: Gfn)
    requires Graph(pages, spt, parents) && Mapped(pages, spt, rmap) && Handles(heads, slots, wanted)
    requires forall n | 0 <= n < |heads| :: NoLeafIn(pages, spt, BucketAt(heads[n]))
    requires j < |slots| && wanted(slots[j], gfn)
    ensures Unmapped(pages, spt, gfn)
  {
    forall l: nat | PAGE_TABLE_LEVEL <= l <= MAX_HUGEPAGE_LEVEL
      ensures NoLeafIn(pages, spt, BucketOf(l, gfn))
    {
      assert Handled(heads, slots[j], l, GfnToIndex(gfn, slots[j].base, l));
      var n :| 0 <= n < |heads| && heads[n].slot == slots[j] && heads[n].visit.level == l
               && heads[n].visit.index == GfnToIndex(gfn, slots[j].base, l);
      assert BucketAt(heads[n]) == BucketOf(l, gfn);
    }
    forall r | r in spt && r.page in pages
      ensures !Covers(pages[r.page].level, spt[r], gfn)
    {
      var l := pages[r.page].level;
      PageFacts(pages, spt, parents, r.page);
      assert EntryFits(pages, l, spt[r]);
      assert l <= MAX_HUGEPAGE_LEVEL ==> NoLeafIn(pages, spt, BucketOf(l, gfn));
    }
  }

  lemma ChainShrinks(pages: Pages, spt: Spt, rmap: Rmap, spt': Spt, rmap': Rmap, b: Bucket)
    requires Mapped(pages, spt, rmap) && Mapped(pages, spt', rmap')
    requires forall r | r in spt' :: r in spt && spt'[r] == spt[r]
    ensures Chain(rmap', b) <= Chain(rmap, b)
  {
    forall r | r in Chain(rmap', b)
      ensures r in Chain(rmap, b)
    {
      assert r in spt' && BucketOf(pages[r.page].level, spt[r].gfn) == b;
    }
  }

  lemma StillNoLeaf(pages: Pages, spt: Spt, spt': Spt, heads: seq<Head>, i: nat)
    requires i <= |heads| && forall n | 0 <= n < i :: NoLeafIn(pages, spt, BucketAt(heads[n]))
    requires forall r | r in spt' :: r in spt && spt'[r] == spt[r]
    ensures forall n | 0 <= n < i :: NoLeafIn(pages, spt', BucketAt(heads[n]))
  {
  }

  /** vmrun_zap_rmapp on every head. */
  method ZapHeads(mmu: ShadowMmu, heads: seq<Head>)
    requires mmu.Sound({})
    modifies mmu`spt, mmu`rmap
    ensures mmu.Sound({})
    ensures forall n | 0 <= n < |heads| :: NoLeafIn(mmu.pages, mmu.spt, BucketAt(heads[n]))
    ensures forall r | r in mmu.spt :: r in old(mmu.spt) && mmu.spt[r] == old(mmu.spt)[r]
    ensures forall r | r in old(mmu.spt) && r !in mmu.spt ::
              exists n | 0 <= n < |heads| :: r in old(Chain(mmu.rmap, BucketAt(heads[n])))
  {
    hide ShadowMmu.Core, Mapped, NoLeafIn, BucketAt;
    for i := 0 to |heads|
      invariant mmu.Sound({})
      invariant forall n | 0 <= n < i :: NoLeafIn(mmu.pages, mmu.spt, BucketAt(heads[n]))
      invariant forall r | r in mmu.spt :: r in old(mmu.spt) && mmu.spt[r] == old(mmu.spt)[r]
      invariant forall r | r in old(mmu.spt) && r !in mmu.spt ::
                  exists n | 0 <= n < i :: r in old(Chain(mmu.rmap, BucketAt(heads[n])))
    {
      ghost var spt := mmu.spt;
      ChainShrinks(mmu.pages, old(mmu.spt), old(mmu.rmap), spt, mmu.rmap, BucketAt(heads[i]));
      var flush := mmu.ZapRmap(BucketAt(heads[i]));
      StillNoLeaf(mmu.pages, spt, mmu.spt, heads, i);
      EmptyChain(mmu.pages, mmu.spt, mmu.rmap, BucketAt(heads[i]));
    }
  }

  /** The entry maps a wanted frame of one of the slots. */
  ghost predicate MapsWanted(pages: Pages, spt: Spt, r: SpteRef, slots: seq<Slot>, wanted: (Slot, nat) -> bool)
    requires r in spt
  {
    && r.page in pages
    && exists slot, gfn | slot in slots :: wanted(slot, gfn) && Covers(pages[r.page].level, spt[r], gfn)
  }

  /** Exactly the entries that map a wanted frame of one of the slots are gone, and the others are as they were. */
  ghost predicate ExactlyWanted(pages: Pages, spt: Spt, spt': Spt, slots: seq<Slot>, wanted: (Slot, nat) -> bool) {
    && (forall r | r in spt' :: r in spt && spt'[r] == spt[r])
    && (forall r | r in spt :: r !in spt' <==> MapsWanted(pages, spt, r, slots, wanted))
  }

  lemma ZappedExactly(pages: Pages, spt: Spt, rmap: Rmap, spt': Spt, parents: Parents, rmap': Rmap, heads: seq<Head>,
                      slots: seq<Slot>, wanted: (Slot, nat) -> bool)
    requires Mapped(pages, spt, rmap) && Graph(pages, spt', parents) && Mapped(pages, spt', rmap')
    requires Handles(heads, slots, wanted)
    requires forall n | 0 <= n < |heads| :: NoLeafIn(pages, spt', BucketAt(heads[n]))
    requires forall r | r in spt && r !in spt' :: exists n | 0 <= n < |heads| :: r in Chain(rmap, BucketAt(heads[n]))
    requires forall r | r in spt' :: r in spt && spt'[r] == spt[r]
    ensures forall j, gfn | 0 <= j < |slots| && wanted(slots[j], gfn) :: Unmapped(pages, spt', gfn)
    ensures ExactlyWanted(pages, spt, spt', slots, wanted)
  {
    forall j, gfn | 0 <= j < |slots| && wanted(slots[j], gfn)
      ensures Unmapped(pages, spt', gfn)
    {
      HandledIsUnmapped(pages, spt', parents, rmap', heads, slots, wanted, j, gfn);
    }
    forall r | r in spt && r !in spt'
      ensures MapsWanted(pages, spt, r, slots, wanted)
    {
      var n :| 0 <= n < |heads| && r in Chain(rmap, BucketAt(heads[n]));
      var gfn := ChainCovers(pages, spt, rmap, heads[n], wanted, r);
      assert heads[n].slot in slots;
    }
    forall r | r in spt'
      ensures !MapsWanted(pages, spt, r, slots, wanted)
    {
      forall slot, gfn | slot in slots && wanted(slot, gfn)
        ensures Unmapped(pages, spt', gfn)
      {
        var j :| 0 <= j < |slots| && slots[j] == slot;
        assert wanted(slots[j], gfn);
      }
    }
  }

  /** vmrun_zap_gfn_range: afterwards no entry, of any size, maps a frame of the range that a slot of the table holds;
    and exactly the entries that did are gone. */
  method ZapFrames(mmu: ShadowMmu, slots: seq<Slot>, ghost used: nat, start: nat, end: nat)
    requires mmu.Sound({}) && Packed(slots, used)
    modifies mmu`spt, mmu`rmap
    ensures mmu.Sound({})
    ensures forall j, gfn | 0 <= j < |slots| && Within(slots[j], gfn, start, end) :: Unmapped(mmu.pages, mmu.spt, gfn)
    ensures ExactlyWanted(mmu.pages, old(mmu.spt), mmu.spt, slots,
                          (slot: Slot, gfn: nat) => Within(slot, gfn, start, end))
  {
    hide Graph, Mapped, Marks, Accounts.Balanced, Guarded, Backed, ShadowMmu.Listed, NoLeafIn, BucketAt, Unmapped,
         ExactlyWanted, Handles;
    var heads := ZapGfnRange(slots, used, start, end);
    ghost var wanted := (slot: Slot, gfn: nat) => Within(slot, gfn, start, end);
    ZapHeads(mmu, heads);
    ZappedExactly(mmu.pages, old(mmu.spt), old(mmu.rmap), mmu.spt, mmu.parents, mmu.rmap, heads, slots, wanted);
    assert forall j, gfn | 0 <= j < |slots| && Within(slots[j], gfn, start, end) :: wanted(slots[j], gfn);
  }

  /** vmrun_unmap_hva_range: afterwards no entry maps a frame of a slot of the table whose page meets the address range;
    and exactly the entries that did are gone. */
  method UnmapAddresses(mmu: ShadowMmu, slots: seq<Slot>, ghost used: nat, start: nat, end: nat)
    requires mmu.Sound({}) && Packed(slots, used)
    modifies mmu`spt, mmu`rmap
    ensures mmu.Sound({})
    ensures forall j, gfn | 0 <= j < |slots| && Meets(slots[j], gfn, start, end) :: Unmapped(mmu.pages, mmu.spt, gfn)
    ensures ExactlyWanted(mmu.pages, old(mmu.spt), mmu.spt, slots,
                          (slot: Slot, gfn: nat) => Meets(slot, gfn, start, end))
  {
    hide Graph, Mapped, Marks, Accounts.Balanced, Guarded, Backed, ShadowMmu.Listed, NoLeafIn, BucketAt, Unmapped,
         ExactlyWanted, Handles;
    var heads := HandleHvaRange(slots, used, start, end);
    ghost var wanted := (slot: Slot, gfn: nat) => Meets(slot, gfn, start, end);
    ZapHeads(mmu, heads);
    ZappedExactly(mmu.pages, old(mmu.spt), old(mmu.rmap), mmu.spt, mmu.parents, mmu.rmap, heads, slots, wanted);
    assert forall j, gfn | 0 <= j < |slots| && Meets(slots[j], gfn, start, end) :: wanted(slots[j], gfn);
  }

  /** The mapping of the frame is not writable right now; a fast fault may make it so again, and is logged. */
  ghost predicate ReadOnly(pages: Pages, spt: Spt, gfn: Gfn) {
    forall r | r in spt && r.page in pages && Covers(pages[r.page].level, spt[r], gfn) :: !spt[r].w
  }

  lemma AllReadOnly(pages: Pages, spt: Spt, parents: Parents, rmap: Rmap, slot: Slot, rows: seq<Visit>, gfn: Gfn)
    requires Graph(pages, spt, parents) && Mapped(pages, spt, rmap) && slot.npages > 0 && InSlot(slot, gfn)
    requires rows == Rows(slot, PAGE_TABLE_LEVEL, MAX_HUGEPAGE_LEVEL, slot.base, slot.base + slot.npages - 1)
    requires forall n, r | 0 <= n < |rows| && r in Chain(rmap, BucketAt(Head(slot, rows[n]))) ::
               r in spt && spt[r].Leaf? && !spt[r].w
    ensures ReadOnly(pages, spt, gfn)
  {
    hide Rows;
    forall r | r in spt && r.page in pages && Covers(pages[r.page].level, spt[r], gfn)
      ensures !spt[r].w
    {
      var l := pages[r.page].level;
      PageFacts(pages, spt, parents, r.page);
      assert EntryFits(pages, l, spt[r]);
      var last := slot.base + slot.npages - 1;
      var n := MissesNothing(slot, PAGE_TABLE_LEVEL, MAX_HUGEPAGE_LEVEL, slot.base, last, gfn, l);
      assert BucketAt(Head(slot, rows[n])) == BucketOf(l, gfn) == BucketOf(l, spt[r].gfn);
      assert r in Chain(rmap, BucketOf(l, spt[r].gfn));
    }
  }

  /** An entry that lost W stays changed. */
  lemma StillChanged(spt0: Spt, spt: Spt, spt': Spt, chain: set<SpteRef>)
    requires spt0.Keys == spt.Keys == spt'.Keys
    requires forall r | r in spt && spt[r] != spt0[r] :: spt0[r].Leaf? && spt[r] == spt0[r].(w := false)
    requires forall r | r in chain :: r in spt && spt[r].Leaf? && spt'[r] == WriteProtected(spt[r], false)
    requires forall r | r in spt && r !in chain :: spt'[r] == spt[r]
    ensures spt' != spt0 <==> spt != spt0 || spt' != spt
  {
    if spt != spt0 {
      var r :| r in spt0 && spt[r] != spt0[r];
      assert spt'[r] == spt[r];
    }
  }

  /** The entry maps a frame of the slot. */
  ghost predicate MapsSlot(pages: Pages, spt: Spt, r: SpteRef, slot: Slot)
    requires r in spt
  {
    r.page in pages && exists gfn | InSlot(slot, gfn) :: Covers(pages[r.page].level, spt[r], gfn)
  }

  lemma ChainMapsSlot(pages: Pages, spt: Spt, rmap: Rmap, slot: Slot, v: Visit, r: SpteRef)
    requires Mapped(pages, spt, rmap) && slot.npages > 0 && r in Chain(rmap, BucketAt(Head(slot, v)))
    requires v in Rows(slot, PAGE_TABLE_LEVEL, MAX_HUGEPAGE_LEVEL, slot.base, slot.base + slot.npages - 1)
    ensures r in spt && MapsSlot(pages, spt, r, slot)
  {
    hide Rows, Mapped, Chain;
    var wanted := (s: Slot, gfn: nat) => InSlot(s, gfn);
    assert Interval(slot, wanted, slot.base, slot.base + slot.npages - 1);
    RowCalled(slot, slot.base, slot.base + slot.npages - 1, wanted, v);
    var gfn := ChainCovers(pages, spt, rmap, Head(slot, v), wanted, r);
  }

  lemma SlotStep(pages: Pages, spt: Spt, spt': Spt, rmap: Rmap, slot: Slot, v: Visit)
    requires Mapped(pages, spt', rmap) && slot.npages > 0 && spt'.Keys == spt.Keys
    requires v in Rows(slot, PAGE_TABLE_LEVEL, MAX_HUGEPAGE_LEVEL, slot.base, slot.base + slot.npages - 1)
    requires forall r | r in spt && r !in Chain(rmap, BucketAt(Head(slot, v))) :: spt'[r] == spt[r]
    ensures forall r | r in spt && spt'[r] != spt[r] :: MapsSlot(pages, spt', r, slot)
    ensures forall r | r in spt && spt'[r] == spt[r] ::
              MapsSlot(pages, spt, r, slot) <==> MapsSlot(pages, spt', r, slot)
  {
    hide Rows, Mapped, Chain, BucketAt;
    forall r | r in spt && spt'[r] != spt[r]
      ensures MapsSlot(pages, spt', r, slot)
    {
      ChainMapsSlot(pages, spt', rmap, slot, v, r);
    }
  }

  /** vmrun_mmu_slot_remove_write_access: exactly the entries that map a frame of the slot lose W and nothing else
    changes; so no frame of the slot is mapped with W set, and a flush is done if and only if some entry changed. */
  method RemoveWriteAccess(mmu: ShadowMmu, slot: Slot) returns (flush: bool)
    requires mmu.Sound({}) && slot.npages > 0
    modifies mmu`spt
    ensures mmu.Sound({}) && mmu.spt.Keys == old(mmu.spt).Keys
    ensures forall gfn | InSlot(slot, gfn) :: ReadOnly(mmu.pages, mmu.spt, gfn)
    ensures forall r | r in mmu.spt && mmu.spt[r] != old(mmu.spt)[r] ::
              && old(mmu.spt)[r].Leaf? && mmu.spt[r] == old(mmu.spt)[r].(w := false)
              && MapsSlot(mmu.pages, mmu.spt, r, slot)
    ensures flush <==> mmu.spt != old(mmu.spt)
  {
    hide Graph, Mapped, Marks, Accounts.Balanced, Guarded, Backed, ShadowMmu.Listed, BucketAt, ReadOnly, Rows, MapsSlot;
    var visited, f;
    ghost var owed;
    visited, f, owed := HandleLevelRange(slot, PAGE_TABLE_LEVEL, MAX_HUGEPAGE_LEVEL, slot.base,
                                         slot.base + slot.npages - 1, false, _ => true, _ => false);
    flush := false;
    for i := 0 to |visited|
      invariant mmu.Sound({}) && mmu.spt.Keys == old(mmu.spt).Keys
      invariant forall n, r | 0 <= n < i && r in Chain(mmu.rmap, BucketAt(Head(slot, visited[n]))) ::
                  r in mmu.spt && mmu.spt[r].Leaf? && !mmu.spt[r].w
      invariant forall r | r in mmu.spt && mmu.spt[r] != old(mmu.spt)[r] ::
                  && old(mmu.spt)[r].Leaf? && mmu.spt[r] == old(mmu.spt)[r].(w := false)
                  && MapsSlot(mmu.pages, mmu.spt, r, slot)
      invariant flush <==> mmu.spt != old(mmu.spt)
    {
      ghost var spt := mmu.spt;
      var one := mmu.DirtyLogProtect(BucketAt(Head(slot, visited[i])));
      StillChanged(old(mmu.spt), spt, mmu.spt, Chain(mmu.rmap, BucketAt(Head(slot, visited[i]))));
      flush := flush || one;
      SlotStep(mmu.pages, spt, mmu.spt, mmu.rmap, slot, visited[i]);
    }
    forall gfn | InSlot(slot, gfn)
      ensures ReadOnly(mmu.pages, mmu.spt, gfn)
    {
      AllReadOnly(mmu.pages, mmu.spt, mmu.parents, mmu.rmap, slot, visited, gfn);
    }
  }
}
