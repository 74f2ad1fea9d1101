/** Freeing the zapped pages, and creating new ones. */
module Lifecycle {
  import opened ShadowState
  import opened UnsyncPaths
  import opened Protection
  import opened Accounts
  import opened ActiveList

  // ---------------------------------------------------------------- commit

  lemma CommitGraph(pages: Pages, spt: Spt, parents: Parents, unsync: set<PageId>, invalid: set<PageId>,
                    rootCount: map<PageId, nat>, zapped: set<PageId>)
    requires Graph(pages, spt, parents) && Detached(spt, parents, unsync, invalid, rootCount, zapped)
    ensures Graph(pages - zapped, spt, parents - zapped)
  {
    forall r | r in spt
      ensures r.page in pages - zapped && EntryFits(pages - zapped, pages[r.page].level, spt[r])
    {
      assert EntryFits(pages, pages[r.page].level, spt[r]);
      if spt[r].Link? {
        assert r in parents[spt[r].child];
      }
    }
  }

  lemma CommitMarks(pages: Pages, spt: Spt, parents: Parents, unsync: set<PageId>, bits: Bits, count: map<PageId, int>,
                    zapped: set<PageId>)
    requires Marks(pages, spt, unsync, bits, count) && Graph(pages - zapped, spt, parents - zapped)
    requires unsync !! zapped
    ensures Marks(pages - zapped, spt, unsync, bits - zapped, count - zapped)
  {
    forall r | r in spt && spt[r].Link?
      ensures r.page in bits - zapped && spt[r].child in count - zapped
      ensures Stale(unsync, count - zapped, spt[r].child) ==> r.index in (bits - zapped)[r.page]
    {
      assert r.page in pages - zapped && EntryFits(pages - zapped, (pages - zapped)[r.page].level, spt[r]);
    }
  }

  lemma CommitMapped(pages: Pages, spt: Spt, rmap: Rmap, zapped: set<PageId>)
    requires Mapped(pages, spt, rmap) && forall r | r in spt :: r.page !in zapped
    ensures Mapped(pages - zapped, spt, rmap)
  {}

  lemma CommitGuarded(pages: Pages, spt: Spt, unsync: set<PageId>, invalid: set<PageId>, validGen: nat,
                      zapped: set<PageId>)
    requires Guarded(pages, spt, unsync, invalid, validGen) && zapped <= invalid
    ensures Guarded(pages - zapped, spt, unsync, invalid - zapped, validGen)
  {
    forall p | ValidSp(pages - zapped, invalid - zapped, validGen, p) && !pages[p].direct && p !in unsync
      ensures Protected(pages - zapped, spt, pages[p].gfn)
    {
      assert ValidSp(pages, invalid, validGen, p);
      assert Protected(pages, spt, pages[p].gfn);
    }
  }

  lemma CommitLists(pages: Pages, spt: Spt, parents: Parents, unsync: set<PageId>, invalid: set<PageId>,
                    rootCount: map<PageId, nat>, active: seq<PageId>, zapped: set<PageId>, nUsed: int, validGen: nat,
                    freed: set<PageId>)
    requires ListShape(pages, invalid, rootCount, active, zapped, nUsed)
    requires Detached(spt, parents, unsync, invalid, rootCount, zapped)
    requires Held(invalid, rootCount, active, freed) && Ordered(pages, invalid, active, validGen)
    ensures ListShape(pages - zapped, invalid - zapped, rootCount - zapped, active, {}, nUsed)
    ensures Detached(spt, parents - zapped, unsync, invalid - zapped, rootCount - zapped, {})
    ensures Held(invalid - zapped, rootCount - zapped, active, freed)
    ensures Ordered(pages - zapped, invalid - zapped, active, validGen)
  {
    hide NoDup;
    forall i, j | 0 <= i < j < |active|
      ensures NoNewer(pages - zapped, invalid - zapped, active[i], active[j])
    {
      assert active[i] in active && active[j] in active;
      assert NoNewer(pages, invalid, active[i], active[j]);
    }
  }

  lemma CommitBalanced(pages: Pages, invalid: set<PageId>, track: map<Gfn, int>, disallow: map<Bucket, int>,
                       aligned: map<Bucket, int>, indirect: int, zapped: set<PageId>)
    requires Balanced(pages, invalid, track, disallow, aligned, indirect) && zapped <= invalid
    ensures Balanced(pages - zapped, invalid - zapped, track, disallow, aligned, indirect)
  {
    hide Balanced;
    BalancedSame(pages, invalid, track, disallow, aligned, indirect, pages - zapped, invalid - zapped);
  }

  /** Freeing the zapped pages keeps every part of the invariant. */
  lemma CommitAll(pages: Pages, spt: Spt, parents: Parents, unsync: set<PageId>, bits: Bits, count: map<PageId, int>,
                  rmap: Rmap, invalid: set<PageId>, rootCount: map<PageId, nat>, active: seq<PageId>,
                  zapped: set<PageId>, nUsed: int, validGen: nat, freed: set<PageId>, track: map<Gfn, int>,
                  disallow: map<Bucket, int>, aligned: map<Bucket, int>, indirect: int)
    requires Graph(pages, spt, parents) && Marks(pages, spt, unsync, bits, count) && Mapped(pages, spt, rmap)
    requires ListShape(pages, invalid, rootCount, active, zapped, nUsed)
    requires Detached(spt, parents, unsync, invalid, rootCount, zapped)
    requires Held(invalid, rootCount, active, freed) && Ordered(pages, invalid, active, validGen)
    requires Balanced(pages, invalid, track, disallow, aligned, indirect)
    requires Guarded(pages, spt, unsync, invalid, validGen)
    ensures Graph(pages - zapped, spt, parents - zapped)
    ensures Marks(pages - zapped, spt, unsync, bits - zapped, count - zapped)
    ensures Mapped(pages - zapped, spt, rmap)
    ensures ListShape(pages - zapped, invalid - zapped, rootCount - zapped, active, {}, nUsed)
    ensures Detached(spt, parents - zapped, unsync, invalid - zapped, rootCount - zapped, {})
    ensures Held(invalid - zapped, rootCount - zapped, active, freed)
    ensures Ordered(pages - zapped, invalid - zapped, active, validGen)
    ensures Balanced(pages - zapped, invalid - zapped, track, disallow, aligned, indirect)
    ensures Guarded(pages - zapped, spt, unsync, invalid - zapped, validGen)
  {
    hide Graph, Marks, Mapped, Balanced, Guarded, Held, Ordered, NoDup;
    CommitGraph(pages, spt, parents, unsync, invalid, rootCount, zapped);
    CommitMarks(pages, spt, parents, unsync, bits, count, zapped);
    CommitMapped(pages, spt, rmap, zapped);
    CommitGuarded(pages, spt, unsync, invalid, validGen, zapped);
    CommitLists(pages, spt, parents, unsync, invalid, rootCount, active, zapped, nUsed, validGen, freed);
    CommitBalanced(pages, invalid, track, disallow, aligned, indirect, zapped);
  }

  // ---------------------------------------------------------------- creation

  lemma CreateGraph(pages: Pages, spt: Spt, parents: Parents, p: PageId, h: Header)
    requires Graph(pages, spt, parents) && p !in pages && 1 <= h.level <= ROOT_MAX_LEVEL
    ensures Graph(pages[p := h], spt, parents[p := {}])
  {
    forall r | r in spt
      ensures EntryFits(pages[p := h], pages[r.page].level, spt[r])
    {
      assert EntryFits(pages, pages[r.page].level, spt[r]);
    }
  }

  lemma CreateMarks(pages: Pages, spt: Spt, unsync: set<PageId>, bits: Bits, count: map<PageId, int>, parents: Parents,
                    p: PageId, h: Header)
    requires Marks(pages, spt, unsync, bits, count) && Graph(pages, spt, parents) && p !in pages
    ensures Marks(pages[p := h], spt, unsync, bits[p := {}], count[p := 0])
  {
    forall r | r in spt && spt[r].Link?
      ensures r.page in pages && spt[r].child in pages
    {
      assert EntryFits(pages, pages[r.page].level, spt[r]);
    }
  }

  lemma CreateMapped(pages: Pages, spt: Spt, rmap: Rmap, p: PageId, h: Header)
    requires Mapped(pages, spt, rmap) && p !in pages
    ensures Mapped(pages[p := h], spt, rmap)
  {}

  lemma CreateLists(pages: Pages, spt: Spt, parents: Parents, unsync: set<PageId>, invalid: set<PageId>,
                    rootCount: map<PageId, nat>, active: seq<PageId>, zapped: set<PageId>, nUsed: int, validGen: nat,
                    freed: set<PageId>, p: PageId, h: Header)
    requires ListShape(pages, invalid, rootCount, active, zapped, nUsed)
    requires Detached(spt, parents, unsync, invalid, rootCount, zapped)
    requires Held(invalid, rootCount, active, freed) && Ordered(pages, invalid, active, validGen)
    requires p !in pages && h.gen == validGen && parents.Keys == pages.Keys
    ensures ListShape(pages[p := h], invalid, rootCount[p := 0], [p] + active, zapped, nUsed + 1)
    ensures Detached(spt, parents[p := {}], unsync, invalid, rootCount[p := 0], zapped)
    ensures Held(invalid, rootCount[p := 0], [p] + active, freed)
    ensures Ordered(pages[p := h], invalid, [p] + active, validGen)
  {
    OrderedCreate(pages, invalid, active, validGen, p, h);
    hide Ordered;
    assert forall i | 0 < i <= |active| :: ([p] + active)[i] == active[i - 1] && active[i - 1] in active;
    assert NoDup([p] + active);
  }

  /** A new page may join once its guest frame is mapped writable nowhere. */
  lemma CreateGuarded(pages: Pages, spt: Spt, unsync: set<PageId>, invalid: set<PageId>, validGen: nat,
                      parents: Parents, p: PageId, h: Header)
    requires Guarded(pages, spt, unsync, invalid, validGen) && p !in pages && Graph(pages[p := h], spt, parents)
    requires forall r | r in spt :: r.page in pages
    requires !h.direct ==> Protected(pages[p := h], spt, h.gfn)
    ensures Guarded(pages[p := h], spt, unsync, invalid, validGen)
  {
    forall q | ValidSp(pages[p := h], invalid, validGen, q) && !pages[p := h][q].direct && q !in unsync
      ensures Protected(pages[p := h], spt, pages[p := h][q].gfn)
    {
      if q != p {
        assert ValidSp(pages, invalid, validGen, q);
        assert Protected(pages, spt, pages[q].gfn);
      }
    }
  }

  lemma CreateFacts(pages: Pages, spt: Spt, parents: Parents, invalid: set<PageId>, rootCount: map<PageId, nat>,
                    active: seq<PageId>, zapped: set<PageId>, nUsed: int, p: PageId)
    requires Graph(pages, spt, parents) && ListShape(pages, invalid, rootCount, active, zapped, nUsed) && p !in pages
    ensures parents.Keys == pages.Keys && p !in invalid
    ensures forall r | r in spt :: r.page in pages
  {}

  // ---------------------------------------------------------------- linking

  lemma LinkAdd(pages: Pages, spt: Spt, parents: Parents, r: SpteRef, c: PageId)
    requires Graph(pages, spt, parents) && r !in spt && r.page in pages && r.index < ENT_PER_PAGE
    requires c in pages && pages[c].level + 1 == pages[r.page].level
    requires pages[r.page].direct ==> DirectEntry(pages, pages[r.page], r.index, Link(c))
    ensures Graph(pages, spt[r := Link(c)], parents[c := parents[c] + {r}])
  {}

  lemma LinkMarks(pages: Pages, spt: Spt, unsync: set<PageId>, bits: Bits, count: map<PageId, int>, r: SpteRef,
                  c: PageId)
    requires Marks(pages, spt, unsync, bits, count) && r !in spt && r.page in pages && c in pages
    ensures MarksExcept(pages, spt[r := Link(c)], unsync, bits, count, {} + {r})
    ensures !Stale(unsync, count, c) ==> Marks(pages, spt[r := Link(c)], unsync, bits, count)
  {}

  lemma LinkMapped(pages: Pages, spt: Spt, rmap: Rmap, r: SpteRef, c: PageId)
    requires Mapped(pages, spt, rmap) && r !in spt
    ensures Mapped(pages, spt[r := Link(c)], rmap)
  {}

  lemma LinkGuarded(pages: Pages, spt: Spt, unsync: set<PageId>, invalid: set<PageId>, validGen: nat, r: SpteRef,
                    c: PageId)
    requires Guarded(pages, spt, unsync, invalid, validGen)
    ensures Guarded(pages, spt[r := Link(c)], unsync, invalid, validGen)
  {
    forall p | ValidSp(pages, invalid, validGen, p) && !pages[p].direct && p !in unsync
      ensures Protected(pages, spt[r := Link(c)], pages[p].gfn)
    {
      assert Protected(pages, spt, pages[p].gfn);
    }
  }

  lemma LinkDetached(spt: Spt, parents: Parents, unsync: set<PageId>, invalid: set<PageId>, rootCount: map<PageId, nat>,
                     zapped: set<PageId>, r: SpteRef, c: PageId)
    requires Detached(spt, parents, unsync, invalid, rootCount, zapped)
    requires r.page !in zapped && c !in zapped && c in parents
    ensures Detached(spt[r := Link(c)], parents[c := parents[c] + {r}], unsync, invalid, rootCount, zapped)
  {}

  /** The new link, with the marks above it still to be made. */
  lemma LinkAll(pages: Pages, spt: Spt, parents: Parents, unsync: set<PageId>, bits: Bits, count: map<PageId, int>,
                rmap: Rmap, invalid: set<PageId>, rootCount: map<PageId, nat>, active: seq<PageId>,
                zapped: set<PageId>, nUsed: int, validGen: nat, changed: set<SpteRef>, r: SpteRef, c: PageId)
    requires Graph(pages, spt, parents) && Marks(pages, spt, unsync, bits, count) && Mapped(pages, spt, rmap)
    requires ListShape(pages, invalid, rootCount, active, zapped, nUsed)
    requires Detached(spt, parents, unsync, invalid, rootCount, zapped)
    requires Guarded(pages, spt, unsync, invalid, validGen) && Backed(spt, changed)
    requires r.page in active && c in active && r !in spt && r.index < ENT_PER_PAGE
    requires r.page in pages && c in pages && pages[c].level + 1 == pages[r.page].level
    requires pages[r.page].direct ==> DirectEntry(pages, pages[r.page], r.index, Link(c))
    ensures c in parents && c in count
    ensures Graph(pages, spt[r := Link(c)], parents[c := parents[c] + {r}]) && Mapped(pages, spt[r := Link(c)], rmap)
    ensures MarksExcept(pages, spt[r := Link(c)], unsync, bits, count, {} + {r})
    ensures !Stale(unsync, count, c) ==> Marks(pages, spt[r := Link(c)], unsync, bits, count)
    ensures Detached(spt[r := Link(c)], parents[c := parents[c] + {r}], unsync, invalid, rootCount, zapped)
    ensures Guarded(pages, spt[r := Link(c)], unsync, invalid, validGen) && Backed(spt[r := Link(c)], changed)
  {
    hide Graph, MarksExcept, Mapped, Guarded, Backed, ListShape, Detached;
    ListFacts(pages, invalid, rootCount, active, zapped, nUsed, c);
    ListFacts(pages, invalid, rootCount, active, zapped, nUsed, r.page);
    PageFacts(pages, spt, parents, c);
    LinkAdd(pages, spt, parents, r, c);
    LinkMarks(pages, spt, unsync, bits, count, r, c);
    LinkMapped(pages, spt, rmap, r, c);
    LinkGuarded(pages, spt, unsync, invalid, validGen, r, c);
    BackedSet(spt, r, Link(c), changed);
    LinkDetached(spt, parents, unsync, invalid, rootCount, zapped, r, c);
    BitsFacts(pages, spt, unsync, bits, count, c);
  }

  // ---------------------------------------------------------------- unsync flag

  lemma UnsyncMarks(pages: Pages, spt: Spt, parents: Parents, unsync: set<PageId>, bits: Bits, count: map<PageId, int>,
                    p: PageId)
    requires Marks(pages, spt, unsync, bits, count) && Graph(pages, spt, parents)
    requires p in pages && pages[p].level == 1 && !pages[p].direct
    ensures MarksExcept(pages, spt, unsync + {p}, bits, count, {} + parents[p])
  {}

  lemma UnsyncGuarded(pages: Pages, spt: Spt, unsync: set<PageId>, invalid: set<PageId>, validGen: nat,
                      more: set<PageId>)
    requires Guarded(pages, spt, unsync, invalid, validGen)
    ensures Guarded(pages, spt, unsync + more, invalid, validGen)
  {}

  /** A page may be called in sync once its guest frame is mapped writable nowhere. */
  lemma SyncGuarded(pages: Pages, spt: Spt, unsync: set<PageId>, invalid: set<PageId>, validGen: nat, p: PageId)
    requires Guarded(pages, spt, unsync, invalid, validGen)
    requires ValidSp(pages, invalid, validGen, p) ==> Protected(pages, spt, pages[p].gfn)
    ensures Guarded(pages, spt, unsync - {p}, invalid, validGen)
  {}

  lemma CreateRest(pages: Pages, spt: Spt, spt': Spt, parents: Parents, parents': Parents, unsync: set<PageId>,
                   bits: Bits, count: map<PageId, int>, invalid: set<PageId>, rootCount: map<PageId, nat>,
                   zapped: set<PageId>, validGen: nat, p: PageId, h: Header)
    requires Guarded(pages, spt, unsync, invalid, validGen) && Weakened(spt, spt') && p !in pages
    requires Graph(pages, spt, parents) && Graph(pages[p := h], spt', parents')
    requires Marks(pages[p := h], spt, unsync, bits, count)
    requires Detached(spt, parents', unsync, invalid, rootCount, zapped)
    requires !h.direct ==> Protected(pages[p := h], spt', h.gfn)
    ensures Guarded(pages[p := h], spt', unsync, invalid, validGen)
    ensures Marks(pages[p := h], spt', unsync, bits, count)
    ensures Detached(spt', parents', unsync, invalid, rootCount, zapped)
  {
    hide Guarded, Protected, Marks;
    assert LinksWithin(spt', spt) by {
      forall r | r in spt' && spt'[r].Link?
        ensures spt'[r] == spt[r]
      {
        assert Weaker(spt[r], spt'[r]);
      }
    }
    WeakenedGuards(pages, spt, spt', unsync, invalid, validGen);
    CreateGuarded(pages, spt', unsync, invalid, validGen, parents', p, h);
    MarksShrink(pages[p := h], spt, spt', unsync, unsync, bits, count);
  }

  lemma MarkedLink(pages: Pages, spt: Spt, parents: Parents, unsync: set<PageId>, bits: Bits, count: map<PageId, int>,
                   r: SpteRef)
    requires Marks(pages, spt, unsync, bits, count) && Graph(pages, spt, parents) && r in spt && spt[r].Link?
    ensures spt[r].child in count && (Stale(unsync, count, spt[r].child) ==> EdgeSet(bits, r))
  {}

  lemma BalancedCreate(pages: Pages, invalid: set<PageId>, track: map<Gfn, int>, disallow: map<Bucket, int>,
                       aligned: map<Bucket, int>, indirect: int, p: PageId, h: Header)
    requires Balanced(pages, invalid, track, disallow, aligned, indirect) && p !in pages && h.direct
    ensures Balanced(pages[p := h], invalid, track, disallow, aligned, indirect)
  {
    hide Balanced;
    BalancedSame(pages, invalid, track, disallow, aligned, indirect, pages[p := h], invalid);
  }

  lemma CreateAll(pages: Pages, spt: Spt, parents: Parents, unsync: set<PageId>, bits: Bits, count: map<PageId, int>,
                  rmap: Rmap, invalid: set<PageId>, rootCount: map<PageId, nat>, active: seq<PageId>,
                  zapped: set<PageId>, nUsed: int, validGen: nat, p: PageId, h: Header)
    requires Graph(pages, spt, parents) && Marks(pages, spt, unsync, bits, count) && Mapped(pages, spt, rmap)
    requires ListShape(pages, invalid, rootCount, active, zapped, nUsed)
    requires Detached(spt, parents, unsync, invalid, rootCount, zapped)
    requires Held(invalid, rootCount, active, {}) && Ordered(pages, invalid, active, validGen)
    requires p !in pages && 1 <= h.level <= ROOT_MAX_LEVEL && h.gen == validGen
    ensures Graph(pages[p := h], spt, parents[p := {}])
    ensures Marks(pages[p := h], spt, unsync, bits[p := {}], count[p := 0])
    ensures Mapped(pages[p := h], spt, rmap) && p !in invalid
    ensures ListShape(pages[p := h], invalid, rootCount[p := 0], [p] + active, zapped, nUsed + 1)
    ensures Detached(spt, parents[p := {}], unsync, invalid, rootCount[p := 0], zapped)
    ensures Held(invalid, rootCount[p := 0], [p] + active, {})
    ensures Ordered(pages[p := h], invalid, [p] + active, validGen)
  {
    hide Graph, Marks, Mapped, ListShape, Detached, Held, Ordered;
    CreateFacts(pages, spt, parents, invalid, rootCount, active, zapped, nUsed, p);
    CreateGraph(pages, spt, parents, p, h);
    CreateMarks(pages, spt, unsync, bits, count, parents, p, h);
    CreateMapped(pages, spt, rmap, p, h);
    CreateLists(pages, spt, parents, unsync, invalid, rootCount, active, zapped, nUsed, validGen, {}, p, h);
  }

  // ---------------------------------------------------------------- setting a leaf entry

  lemma SetDetached(spt: Spt, parents: Parents, unsync: set<PageId>, invalid: set<PageId>, rootCount: map<PageId, nat>,
                    zapped: set<PageId>, r: SpteRef, e: Entry)
    requires Detached(spt, parents, unsync, invalid, rootCount, zapped) && r.page !in zapped
    ensures Detached(spt[r := e], parents, unsync, invalid, rootCount, zapped)
  {}

  /** A leaf or an MMIO entry takes the place of an entry that is no link. */
  lemma SetAll(pages: Pages, spt: Spt, parents: Parents, unsync: set<PageId>, bits: Bits, count: map<PageId, int>,
               invalid: set<PageId>, rootCount: map<PageId, nat>, zapped: set<PageId>, validGen: nat,
               changed: set<SpteRef>, r: SpteRef, e: Entry)
    requires Graph(pages, spt, parents) && Marks(pages, spt, unsync, bits, count)
    requires Detached(spt, parents, unsync, invalid, rootCount, zapped) && r.page !in zapped
    requires Guarded(pages, spt, unsync, invalid, validGen) && Backed(spt, changed) && (e.Leaf? && e.mmuW ==> e.hostW)
    requires r.page in pages && r.index < ENT_PER_PAGE && !e.Link? && (r in spt ==> !spt[r].Link?)
    requires EntryFits(pages, pages[r.page].level, e)
    requires pages[r.page].direct ==> DirectEntry(pages, pages[r.page], r.index, e)
    requires Writable(e) ==> Harmless(pages, unsync, invalid, validGen, pages[r.page].level, e)
    ensures Graph(pages, spt[r := e], parents) && Marks(pages, spt[r := e], unsync, bits, count)
    ensures Detached(spt[r := e], parents, unsync, invalid, rootCount, zapped)
    ensures Guarded(pages, spt[r := e], unsync, invalid, validGen) && Backed(spt[r := e], changed)
  {
    hide Graph, Marks, Guarded, Backed, Detached, Harmless;
    SetGuarded(pages, spt, unsync, invalid, validGen, r, e);
    BackedSet(spt, r, e, changed);
    SetGraph(pages, spt, parents, r, e);
    MarksShrink(pages, spt, spt[r := e], unsync, unsync, bits, count);
    SetDetached(spt, parents, unsync, invalid, rootCount, zapped, r, e);
  }

  /** Where neither the large-page count nor mmu_need_write_protect objects, a writable mapping covers
    nothing that must stay protected. */
  lemma CoversNone(pages: Pages, unsync: set<PageId>, invalid: set<PageId>, validGen: nat, track: map<Gfn, int>,
                   disallow: map<Bucket, int>, aligned: map<Bucket, int>, indirect: int, level: nat, e: Entry)
    requires Balanced(pages, invalid, track, disallow, aligned, indirect)
    requires 1 <= level <= MAX_HUGEPAGE_LEVEL && e.Leaf?
    requires level == 1 || Get(disallow, BucketOf(level, e.gfn)) == 0
    requires IndirectValid(pages, invalid, validGen, e.gfn) <= unsync
    ensures Harmless(pages, unsync, invalid, validGen, level, e)
  {
    hide Balanced, Get;
    if 1 < level {
      HugeCoversNone(pages, invalid, track, disallow, aligned, indirect, level, e);
    } else {
      forall p | ValidSp(pages, invalid, validGen, p) && !pages[p].direct && p !in unsync
        ensures pages[p].gfn != e.gfn
      {
        assert p !in IndirectValid(pages, invalid, validGen, e.gfn);
      }
    }
  }

  /** Removing an entry that is no link. */
  lemma DropKeeps(pages: Pages, spt: Spt, parents: Parents, unsync: set<PageId>, bits: Bits, count: map<PageId, int>,
                  invalid: set<PageId>, rootCount: map<PageId, nat>, zapped: set<PageId>, validGen: nat, r: SpteRef)
    requires Marks(pages, spt, unsync, bits, count) && Guarded(pages, spt, unsync, invalid, validGen)
    requires Detached(spt, parents, unsync, invalid, rootCount, zapped)
    ensures Marks(pages, spt - {r}, unsync, bits, count) && Guarded(pages, spt - {r}, unsync, invalid, validGen)
    ensures Detached(spt - {r}, parents, unsync, invalid, rootCount, zapped)
  {
    MarksShrink(pages, spt, spt - {r}, unsync, unsync, bits, count);
    hide Marks;
    forall p | ValidSp(pages, invalid, validGen, p) && !pages[p].direct && p !in unsync
      ensures Protected(pages, spt - {r}, pages[p].gfn)
    {
      assert Protected(pages, spt, pages[p].gfn);
    }
  }

  /** Making entries less writable. */
  lemma WeakenKeeps(pages: Pages, spt: Spt, spt': Spt, parents: Parents, unsync: set<PageId>, bits: Bits,
                    count: map<PageId, int>, invalid: set<PageId>, rootCount: map<PageId, nat>, zapped: set<PageId>,
                    validGen: nat)
    requires Marks(pages, spt, unsync, bits, count) && Guarded(pages, spt, unsync, invalid, validGen)
    requires Detached(spt, parents, unsync, invalid, rootCount, zapped) && Weakened(spt, spt')
    ensures Marks(pages, spt', unsync, bits, count) && Guarded(pages, spt', unsync, invalid, validGen)
    ensures Detached(spt', parents, unsync, invalid, rootCount, zapped) && LinksWithin(spt', spt)
  {
    hide Marks, Guarded;
    forall r | r in spt' && spt'[r].Link?
      ensures r in spt && spt[r] == spt'[r]
    {
      assert Weaker(spt[r], spt'[r]);
    }
    MarksShrink(pages, spt, spt', unsync, unsync, bits, count);
    WeakenedGuards(pages, spt, spt', unsync, invalid, validGen);
  }

  /** Whatever is shadowed and protected at first is protected at the end. */
  ghost predicate StillProtected(pages: Pages, spt: Spt, spt': Spt, invalid: set<PageId>, validGen: nat) {
    forall g: Gfn | IndirectValid(pages, invalid, validGen, g) != {} && Protected(pages, spt, g) ::
      Protected(pages, spt', g)
  }

  lemma StillProtectedThen(pages: Pages, a: Spt, b: Spt, c: Spt, invalid: set<PageId>, validGen: nat)
    requires StillProtected(pages, a, b, invalid, validGen) && StillProtected(pages, b, c, invalid, validGen)
    ensures StillProtected(pages, a, c, invalid, validGen)
  {
    hide Protected, IndirectValid;
  }

  lemma StillProtectedDrop(pages: Pages, spt: Spt, spt': Spt, invalid: set<PageId>, validGen: nat)
    requires forall r | r in spt' :: r in spt && spt'[r] == spt[r]
    ensures StillProtected(pages, spt, spt', invalid, validGen)
  {}

  lemma StillProtectedSet(pages: Pages, spt: Spt, invalid: set<PageId>, validGen: nat, r: SpteRef, e: Entry)
    requires r in spt && r.page in pages && pages[r.page].level == 1 && spt[r].Leaf? && e.Leaf? && e.gfn == spt[r].gfn
    requires Writable(e) ==> Writable(spt[r]) || IndirectValid(pages, invalid, validGen, e.gfn) == {}
    ensures StillProtected(pages, spt, spt[r := e], invalid, validGen)
  {
    hide IndirectValid;
    forall g: Gfn | IndirectValid(pages, invalid, validGen, g) != {} && Protected(pages, spt, g)
      ensures Protected(pages, spt[r := e], g)
    {
      assert Covers(1, e, g) ==> e.gfn == g;
    }
  }

  lemma UnlinkDetached(spt: Spt, parents: Parents, unsync: set<PageId>, invalid: set<PageId>,
                       rootCount: map<PageId, nat>, zapped: set<PageId>, r: SpteRef, c: PageId)
    requires Detached(spt, parents, unsync, invalid, rootCount, zapped) && c in parents
    ensures Detached(spt, parents[c := parents[c] - {r}], unsync, invalid, rootCount, zapped)
  {}
}
