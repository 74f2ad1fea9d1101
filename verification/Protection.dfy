/** Reverse maps and write protection of shadowed guest page tables. */
module Protection {
  import opened ShadowState

  type Rmap = map<Bucket, set<SpteRef>>

  function BucketOf(level: nat, gfn: Gfn): Bucket {
    Bucket(level, Block(level, gfn))
  }

  /** A mapping the guest can write through, or could after a lockless fault. */
  predicate Writable(e: Entry) {
    e.Leaf? && (e.w || (e.hostW && e.mmuW))
  }

  /** A leaf entry at a page of level `level` maps a block that contains `gfn`. */
  predicate Covers(level: nat, e: Entry, gfn: Gfn) {
    e.Leaf? && Block(level, e.gfn) == Block(level, gfn)
  }

  /** No mapping of `gfn`, at any page size, is writable. */
  ghost predicate Protected(pages: Pages, spt: Spt, gfn: Gfn) {
    forall r | r in spt && r.page in pages && Covers(pages[r.page].level, spt[r], gfn) :: !Writable(spt[r])
  }

  predicate ValidSp(pages: Pages, invalid: set<PageId>, validGen: nat, p: PageId) {
    p in pages && p !in invalid && pages[p].gen == validGen
  }

  /** for_each_gfn_indirect_valid_sp. */
  function IndirectValid(pages: Pages, invalid: set<PageId>, validGen: nat, gfn: Gfn): set<PageId> {
    set p | p in pages && ValidSp(pages, invalid, validGen, p) && !pages[p].direct && pages[p].gfn == gfn
  }

  /** The guest page table shadowed by a valid, current page that is in sync is mapped writable nowhere. */
  ghost predicate Guarded(pages: Pages, spt: Spt, unsync: set<PageId>, invalid: set<PageId>, validGen: nat) {
    forall p | ValidSp(pages, invalid, validGen, p) && !pages[p].direct && p !in unsync ::
      Protected(pages, spt, pages[p].gfn)
  }

  /** The reverse maps list exactly the leaf entries. */
  ghost predicate Mapped(pages: Pages, spt: Spt, rmap: Rmap) {
    && (forall r | r in spt && spt[r].Leaf? ::
          && r.page in pages
          && BucketOf(pages[r.page].level, spt[r].gfn) in rmap
          && r in rmap[BucketOf(pages[r.page].level, spt[r].gfn)])
    && (forall b, r | b in rmap && r in rmap[b] ::
          r in spt && spt[r].Leaf? && r.page in pages && b == BucketOf(pages[r.page].level, spt[r].gfn))
  }

  function Chain(rmap: Rmap, b: Bucket): set<SpteRef> {
    if b in rmap then rmap[b] else {}
  }

  /** Entries only disappear, only in-sync pages that are invalid gain that status, and no page becomes valid. */
  lemma GuardedShrinks(pages: Pages, spt: Spt, spt': Spt, unsync: set<PageId>, unsync': set<PageId>,
                       invalid: set<PageId>, invalid': set<PageId>, validGen: nat, gone: set<PageId>)
    requires Guarded(pages, spt, unsync, invalid, validGen) && Severed(spt, spt', gone)
    requires invalid <= invalid' && unsync - unsync' <= invalid'
    ensures Guarded(pages, spt', unsync', invalid', validGen)
  {
    forall p | ValidSp(pages, invalid', validGen, p) && !pages[p].direct && p !in unsync'
      ensures Protected(pages, spt', pages[p].gfn)
    {
      assert ValidSp(pages, invalid, validGen, p);
      assert Protected(pages, spt, pages[p].gfn);
    }
  }

  lemma UnmapLeaf(pages: Pages, spt: Spt, rmap: Rmap, r: SpteRef)
    requires Mapped(pages, spt, rmap) && r in spt && spt[r].Leaf?
    ensures r.page in pages
    ensures var b := BucketOf(pages[r.page].level, spt[r].gfn);
            b in rmap && r in rmap[b] && Mapped(pages, spt - {r}, rmap[b := rmap[b] - {r}])
  {}

  lemma UnmapOther(pages: Pages, spt: Spt, rmap: Rmap, r: SpteRef)
    requires Mapped(pages, spt, rmap) && (r in spt ==> !spt[r].Leaf?)
    ensures Mapped(pages, spt - {r}, rmap)
  {}

  // ---------------------------------------------------------------- write protection

  /** spte_write_protect on one entry. */
  function WriteProtected(e: Entry, ptProtect: bool): (r: Entry)
    requires e.Leaf?
    ensures r.Leaf? && !r.w && r == e.(w := false, mmuW := r.mmuW) && (ptProtect ==> !Writable(r))
    ensures r.mmuW <==> e.mmuW && (ptProtect ==> !e.w && !e.hostW)
    ensures Coherent(e) ==> (r != e <==> FlushNeeded(e, ptProtect))
  {
    if !e.w && !(ptProtect && e.hostW && e.mmuW) then e
    else e.(w := false, mmuW := !ptProtect && e.mmuW)
  }

  /** mmu_spte_update asks for a flush: the entry could have been made writable behind the lock, and no longer can. */
  predicate FlushNeeded(e: Entry, ptProtect: bool) {
    e.Leaf? && e.hostW && e.mmuW && (e.w || ptProtect)
  }

  /** The entries after the protection of `gfn` at the page sizes below `level`. */
  ghost function ProtectedBelow(pages: Pages, spt: Spt, gfn: Gfn, level: nat): Spt {
    map r | r in spt ::
      if r.page in pages && pages[r.page].level < level && Covers(pages[r.page].level, spt[r], gfn)
      then WriteProtected(spt[r], true) else spt[r]
  }

  /** Every entry that maps `gfn` write-protected, at any page size, and no other changed. */
  ghost function GfnProtected(pages: Pages, spt: Spt, gfn: Gfn): Spt {
    map r | r in spt ::
      if r.page in pages && Covers(pages[r.page].level, spt[r], gfn) then WriteProtected(spt[r], true) else spt[r]
  }

  /** The chain of one page size holds exactly the entries of that size that map `gfn`. */
  lemma ProtectStep(pages: Pages, spt0: Spt, spt: Spt, spt': Spt, rmap: Rmap, gfn: Gfn, level: nat)
    requires spt == ProtectedBelow(pages, spt0, gfn, level) && Mapped(pages, spt, rmap) && spt'.Keys == spt.Keys
    requires forall r | r in Chain(rmap, BucketOf(level, gfn)) ::
               r in spt && spt[r].Leaf? && spt'[r] == WriteProtected(spt[r], true)
    requires forall r | r in spt && r !in Chain(rmap, BucketOf(level, gfn)) :: spt'[r] == spt[r]
    ensures spt' == ProtectedBelow(pages, spt0, gfn, level + 1)
    ensures spt' != spt0 <==> spt != spt0 || spt' != spt
  {
    hide Covers, Mapped, Chain, WriteProtected, BucketOf;
    var b := BucketOf(level, gfn);
    forall r | r in spt0
      ensures spt'[r] == ProtectedBelow(pages, spt0, gfn, level + 1)[r]
      ensures spt[r] != spt0[r] ==> spt'[r] == spt[r]
    {
      InChain(pages, spt, rmap, gfn, level, r);
    }
    if spt != spt0 {
      var r :| r in spt0 && spt[r] != spt0[r];
      assert spt'[r] == spt[r];
    }
  }

  lemma InChain(pages: Pages, spt: Spt, rmap: Rmap, gfn: Gfn, level: nat, r: SpteRef)
    requires Mapped(pages, spt, rmap) && r in spt
    ensures r in Chain(rmap, BucketOf(level, gfn)) <==>
            r.page in pages && pages[r.page].level == level && Covers(level, spt[r], gfn)
  {
  }

  /** The flushes that protection asks for are those of the entries it changes. */
  lemma FlushIsChange(pages: Pages, spt: Spt, spt': Spt, parents: Parents, chain: set<SpteRef>, ptProtect: bool,
                      flush: bool)
    requires Graph(pages, spt, parents) && spt'.Keys == spt.Keys
    requires forall r | r in chain :: r in spt && spt[r].Leaf? && spt'[r] == WriteProtected(spt[r], ptProtect)
    requires forall r | r in spt && r !in chain :: spt'[r] == spt[r]
    requires flush <==> exists r | r in chain :: r in spt && FlushNeeded(spt[r], ptProtect)
    ensures flush <==> spt' != spt
  {
    forall r | r in spt
      ensures spt'[r] != spt[r] <==> r in chain && FlushNeeded(spt[r], ptProtect)
    {
      assert EntryFits(pages, pages[r.page].level, spt[r]);
    }
    if flush {
      var r :| r in chain && FlushNeeded(spt[r], ptProtect);
      assert spt'[r] != spt[r];
    }
  }

  lemma ProtectEnds(pages: Pages, spt: Spt, parents: Parents, gfn: Gfn)
    requires Graph(pages, spt, parents)
    ensures ProtectedBelow(pages, spt, gfn, MAX_HUGEPAGE_LEVEL + 1) == GfnProtected(pages, spt, gfn)
    ensures ProtectedBelow(pages, spt, gfn, 1) == spt
  {
    forall r | r in spt
      ensures pages[r.page].level >= 1 && (spt[r].Leaf? ==> pages[r.page].level <= MAX_HUGEPAGE_LEVEL)
    {
      assert EntryFits(pages, pages[r.page].level, spt[r]);
    }
  }

  lemma GfnProtects(pages: Pages, spt: Spt, gfn: Gfn)
    ensures Protected(pages, GfnProtected(pages, spt, gfn), gfn) && Weakened(spt, GfnProtected(pages, spt, gfn))
  {
  }

  /** No entry that maps `gfn` has SPTE_MMU_WRITEABLE. */
  ghost predicate MmuBitClear(pages: Pages, spt: Spt, gfn: Gfn) {
    forall r | r in spt && r.page in pages && Covers(pages[r.page].level, spt[r], gfn) :: !spt[r].mmuW
  }

  /** An entry that spte_write_protect returns early for, with SPTE_MMU_WRITEABLE set. */
  predicate Overlooked(e: Entry) {
    e.Leaf? && e.mmuW && !e.w && !e.hostW
  }

  /** Write protection for shadowing is meant to clear SPTE_MMU_WRITEABLE on every entry that maps the frame. It does
    if and only if none of them was overlooked. */
  lemma MmuBitClearExactly(pages: Pages, spt: Spt, gfn: Gfn)
    ensures MmuBitClear(pages, GfnProtected(pages, spt, gfn), gfn) <==>
            forall r | r in spt && r.page in pages && Covers(pages[r.page].level, spt[r], gfn) :: !Overlooked(spt[r])
  {
    var t := GfnProtected(pages, spt, gfn);
    forall r | r in spt && r.page in pages && Covers(pages[r.page].level, spt[r], gfn)
      ensures Covers(pages[r.page].level, t[r], gfn) && (t[r].mmuW <==> Overlooked(spt[r]))
    {
    }
    forall r | r in spt && r.page in pages && !Covers(pages[r.page].level, spt[r], gfn)
      ensures !Covers(pages[r.page].level, t[r], gfn)
    {
    }
  }

  /** The same for a frame that is protected already, as it is in every state while an in-sync page shadows it. */
  lemma ProtectedBitExactly(pages: Pages, spt: Spt, gfn: Gfn)
    requires Protected(pages, spt, gfn)
    ensures MmuBitClear(pages, spt, gfn) <==>
            forall r | r in spt && r.page in pages && Covers(pages[r.page].level, spt[r], gfn) :: !Overlooked(spt[r])
  {
  }

  /** The same entries, some with write permission taken away. */
  ghost predicate Lowered(spt: Spt, spt': Spt) {
    && spt'.Keys == spt.Keys
    && forall r | r in spt && spt'[r] != spt[r] ::
         && spt[r].Leaf? && spt'[r].Leaf? && spt'[r] == spt[r].(w := spt'[r].w, mmuW := spt'[r].mmuW)
         && (spt'[r].w ==> spt[r].w) && (spt'[r].mmuW ==> spt[r].mmuW)
  }

  lemma LoweredRefl(spt: Spt)
    ensures Lowered(spt, spt)
  {}

  lemma GfnProtectedLowers(pages: Pages, spt: Spt, gfn: Gfn)
    ensures Lowered(spt, GfnProtected(pages, spt, gfn))
  {}

  /** What has been taken away does not come back, so a change shows in the end. */
  lemma LoweredThen(spt: Spt, spt': Spt, spt'': Spt)
    requires Lowered(spt, spt') && Lowered(spt', spt'')
    ensures Lowered(spt, spt'') && (spt'' != spt <==> spt' != spt || spt'' != spt')
  {
    if spt' != spt {
      var r :| r in spt && spt'[r] != spt[r];
      assert spt''[r] != spt[r];
    }
  }

  /** Only entries in `changed` have SPTE_MMU_WRITEABLE without SPTE_HOST_WRITEABLE. */
  ghost predicate Backed(spt: Spt, changed: set<SpteRef>) {
    forall r | r in spt && spt[r].Leaf? && spt[r].mmuW && !spt[r].hostW :: r in changed
  }

  lemma BackedShrinks(spt: Spt, spt': Spt, changed: set<SpteRef>)
    requires Backed(spt, changed) && forall r | r in spt' :: r in spt && spt'[r] == spt[r]
    ensures Backed(spt', changed)
  {}

  lemma BackedSet(spt: Spt, r: SpteRef, e: Entry, changed: set<SpteRef>)
    requires Backed(spt, changed) && (e.Leaf? && e.mmuW ==> e.hostW)
    ensures Backed(spt[r := e], changed)
  {}

  lemma BackedProtect(spt: Spt, spt': Spt, changed: set<SpteRef>, ptProtect: bool)
    requires Backed(spt, changed) && spt'.Keys <= spt.Keys
    requires forall r | r in spt' :: spt'[r] == spt[r] || (spt[r].Leaf? && spt'[r] == WriteProtected(spt[r], ptProtect))
    ensures Backed(spt', changed)
  {}

  lemma GfnProtectedBacked(pages: Pages, spt: Spt, gfn: Gfn, changed: set<SpteRef>)
    requires Backed(spt, changed)
    ensures Backed(GfnProtected(pages, spt, gfn), changed)
  {
    BackedProtect(spt, GfnProtected(pages, spt, gfn), changed, true);
  }

  lemma SeveredBacked(spt: Spt, spt': Spt, gone: set<PageId>, changed: set<SpteRef>)
    requires Backed(spt, changed) && Severed(spt, spt', gone)
    ensures Backed(spt', changed)
  {}

  lemma ChangeBacked(spt: Spt, r: SpteRef, e: Entry, changed: set<SpteRef>)
    requires Backed(spt, changed)
    ensures Backed(spt[r := e], changed + {r})
  {}

  /** So on a frame that is protected, in particular while an in-sync page shadows it, SPTE_MMU_WRITEABLE is clear on
    every entry that was not changed to a read-only page. */
  lemma UnchangedIsClear(pages: Pages, spt: Spt, gfn: Gfn, changed: set<SpteRef>)
    requires Protected(pages, spt, gfn) && Backed(spt, changed)
    ensures forall r | r in spt && r.page in pages && Covers(pages[r.page].level, spt[r], gfn) ::
              spt[r].mmuW ==> r in changed
  {}

  predicate Weaker(e: Entry, e': Entry) {
    if e.Leaf? then e'.Leaf? && e'.gfn == e.gfn && (Writable(e') ==> Writable(e)) && (Coherent(e) ==> Coherent(e'))
    else e' == e
  }

  /** The same entries, none of them writable that was not. */
  ghost predicate Weakened(spt: Spt, spt': Spt) {
    spt'.Keys == spt.Keys && forall r | r in spt :: Weaker(spt[r], spt'[r])
  }

  lemma WeakenedTransitive(a: Spt, b: Spt, c: Spt)
    requires Weakened(a, b) && Weakened(b, c)
    ensures Weakened(a, c)
  {
    forall r | r in a
      ensures Weaker(a[r], c[r])
    {
      assert Weaker(a[r], b[r]) && Weaker(b[r], c[r]);
    }
  }

  lemma WeakenedKeeps(pages: Pages, spt: Spt, spt': Spt, parents: Parents, rmap: Rmap)
    requires Weakened(spt, spt') && Graph(pages, spt, parents) && Mapped(pages, spt, rmap)
    ensures Graph(pages, spt', parents) && Mapped(pages, spt', rmap) && LinksWithin(spt', spt)
  {}

  lemma WeakenedProtects(pages: Pages, spt: Spt, spt': Spt, gfn: Gfn)
    requires Weakened(spt, spt') && Protected(pages, spt, gfn)
    ensures Protected(pages, spt', gfn)
  {
    forall r | r in spt' && r.page in pages && Covers(pages[r.page].level, spt'[r], gfn)
      ensures !Writable(spt'[r])
    {
      assert Weaker(spt[r], spt'[r]);
    }
  }

  lemma WeakenedGuards(pages: Pages, spt: Spt, spt': Spt, unsync: set<PageId>, invalid: set<PageId>, validGen: nat)
    requires Weakened(spt, spt') && Guarded(pages, spt, unsync, invalid, validGen)
    ensures Guarded(pages, spt', unsync, invalid, validGen)
  {
    hide Weakened, Protected;
    forall p | ValidSp(pages, invalid, validGen, p) && !pages[p].direct && p !in unsync
      ensures Protected(pages, spt', pages[p].gfn)
    {
      WeakenedProtects(pages, spt, spt', pages[p].gfn);
    }
  }

  lemma WeakenedRefl(spt: Spt)
    ensures Weakened(spt, spt)
  {}

  lemma ChainFacts(pages: Pages, spt: Spt, rmap: Rmap, b: Bucket)
    requires Mapped(pages, spt, rmap)
    ensures forall r | r in Chain(rmap, b) :: r in spt && spt[r].Leaf?
  {}

  // ---------------------------------------------------------------- setting a leaf entry

  /** rmap_add. */
  lemma MapLeaf(pages: Pages, spt: Spt, rmap: Rmap, r: SpteRef, e: Entry)
    requires Mapped(pages, spt, rmap) && r.page in pages && e.Leaf? && (r in spt ==> !spt[r].Leaf?)
    ensures var b := BucketOf(pages[r.page].level, e.gfn);
            Mapped(pages, spt[r := e], rmap[b := Chain(rmap, b) + {r}])
  {}

  lemma MapOther(pages: Pages, spt: Spt, rmap: Rmap, r: SpteRef, e: Entry)
    requires Mapped(pages, spt, rmap) && !e.Leaf? && (r in spt ==> !spt[r].Leaf?)
    ensures Mapped(pages, spt[r := e], rmap)
  {}

  lemma SetAfterDrop(spt: Spt, r: SpteRef, e: Entry)
    ensures (spt - {r})[r := e] == spt[r := e]
  {}

  lemma DropAfterSet(spt: Spt, r: SpteRef, e: Entry, chain: set<SpteRef>, chain': set<SpteRef>)
    requires chain - {r} == chain' - {r}
    ensures spt[r := e] - {r} - chain == spt - {r} - chain'
  {
    assert forall q :: q != r ==> (q in chain <==> q in chain - {r}) && (q in chain' <==> q in chain' - {r});
  }

  /** An entry that is overwritten and kept as "already in the reverse map" is still found there exactly
    when the new guest frame lies in the block of the old one. */
  lemma KeptInRmap(pages: Pages, spt: Spt, rmap: Rmap, r: SpteRef, e: Entry)
    requires Mapped(pages, spt, rmap) && r in spt && spt[r].Leaf? && e.Leaf?
    ensures r.page in pages
    ensures Mapped(pages, spt[r := e], rmap) <==>
            Block(pages[r.page].level, e.gfn) == Block(pages[r.page].level, spt[r].gfn)
  {
    var level := pages[r.page].level;
    var b := BucketOf(level, spt[r].gfn);
    assert b in rmap && r in rmap[b];
    if Mapped(pages, spt[r := e], rmap) {
      assert b == BucketOf(level, e.gfn);
    }
  }

  /** The entry covers no guest frame that must stay protected. */
  ghost predicate Harmless(pages: Pages, unsync: set<PageId>, invalid: set<PageId>, validGen: nat, level: nat,
                           e: Entry)
  {
    forall p | ValidSp(pages, invalid, validGen, p) && !pages[p].direct && p !in unsync ::
      !Covers(level, e, pages[p].gfn)
  }

  /** A leaf entry may be set if it is not writable or covers no guest frame that must stay protected. */
  lemma SetGuarded(pages: Pages, spt: Spt, unsync: set<PageId>, invalid: set<PageId>, validGen: nat, r: SpteRef,
                   e: Entry)
    requires Guarded(pages, spt, unsync, invalid, validGen) && r.page in pages
    requires Writable(e) ==> Harmless(pages, unsync, invalid, validGen, pages[r.page].level, e)
    ensures Guarded(pages, spt[r := e], unsync, invalid, validGen)
  {
    forall p | ValidSp(pages, invalid, validGen, p) && !pages[p].direct && p !in unsync
      ensures Protected(pages, spt[r := e], pages[p].gfn)
    {
      assert Protected(pages, spt, pages[p].gfn);
    }
  }

  /** What is mapped writable covers nothing that must stay protected. */
  lemma WritableCoversNone(pages: Pages, spt: Spt, unsync: set<PageId>, invalid: set<PageId>, validGen: nat,
                           r: SpteRef, e: Entry)
    requires Guarded(pages, spt, unsync, invalid, validGen) && r in spt && r.page in pages && Writable(spt[r])
    requires e.Leaf? && Block(pages[r.page].level, e.gfn) == Block(pages[r.page].level, spt[r].gfn)
    ensures Harmless(pages, unsync, invalid, validGen, pages[r.page].level, e)
  {
    forall p | ValidSp(pages, invalid, validGen, p) && !pages[p].direct && p !in unsync
      ensures !Covers(pages[r.page].level, e, pages[p].gfn)
    {
      assert Protected(pages, spt, pages[p].gfn);
    }
  }

  lemma SetGraph(pages: Pages, spt: Spt, parents: Parents, r: SpteRef, e: Entry)
    requires Graph(pages, spt, parents) && r.page in pages && r.index < ENT_PER_PAGE
    requires !e.Link? && EntryFits(pages, pages[r.page].level, e) && (r in spt ==> !spt[r].Link?)
    requires pages[r.page].direct ==> DirectEntry(pages, pages[r.page], r.index, e)
    ensures Graph(pages, spt[r := e], parents) && LinksWithin(spt[r := e], spt)
  {}

  lemma ChainsDropped(pages: Pages, spt: Spt, rmap: Rmap, spt': Spt, rmap': Rmap, r: SpteRef)
    requires Mapped(pages, spt, rmap) && Mapped(pages, spt', rmap') && spt' == spt - {r}
    ensures forall b :: Chain(rmap', b) == Chain(rmap, b) - {r}
  {
    forall b
      ensures Chain(rmap', b) == Chain(rmap, b) - {r}
    {
      forall q
        ensures q in Chain(rmap', b) <==> q in Chain(rmap, b) - {r}
      {
        if q in Chain(rmap, b) && q != r {
          assert q in spt' && b == BucketOf(pages[q.page].level, spt'[q].gfn);
        }
        if q in Chain(rmap', b) {
          assert q in spt && b == BucketOf(pages[q.page].level, spt[q].gfn);
        }
      }
    }
  }
}
