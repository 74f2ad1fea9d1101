/** The two passes of mmu_sync_children over the listed leaves. */
module Syncing {
  import opened ShadowState
  import opened UnsyncPaths
  import opened Protection
  import opened Lifecycle

  /** The guest frame of every valid leaf listed from `from` on is mapped writable nowhere. */
  ghost predicate LeavesProtected(pages: Pages, spt: Spt, invalid: set<PageId>, validGen: nat, pvec: seq<PvecEntry>,
                                  from: nat, to: nat)
  {
    forall n |
      && from <= n < to && n < |pvec| && IsLeafEntry(pages, pvec[n])
      && ValidSp(pages, invalid, validGen, pvec[n].page) ::
      Protected(pages, spt, pages[pvec[n].page].gfn)
  }

  lemma ProtectOneMore(pages: Pages, spt: Spt, spt': Spt, invalid: set<PageId>, validGen: nat, pvec: seq<PvecEntry>,
                       i: nat, next: nat)
    requires LeavesProtected(pages, spt, invalid, validGen, pvec, 0, i) && Weakened(spt, spt')
    requires i < |pvec| && IsLeafEntry(pages, pvec[i]) && Protected(pages, spt', pages[pvec[i].page].gfn)
    requires i < next && forall k | i < k < next :: k < |pvec| && !IsLeafEntry(pages, pvec[k])
    ensures LeavesProtected(pages, spt', invalid, validGen, pvec, 0, next)
  {
    hide Weakened, Protected;
    forall n |
      && 0 <= n < next && n < |pvec| && IsLeafEntry(pages, pvec[n])
      && ValidSp(pages, invalid, validGen, pvec[n].page)
      ensures Protected(pages, spt', pages[pvec[n].page].gfn)
    {
      if n < i {
        WeakenedProtects(pages, spt, spt', pages[pvec[n].page].gfn);
      }
    }
  }

  lemma NoneProtected(pages: Pages, spt: Spt, invalid: set<PageId>, validGen: nat, pvec: seq<PvecEntry>, n: nat)
    requires n <= |pvec| && forall k | 0 <= k < n :: !IsLeafEntry(pages, pvec[k])
    ensures LeavesProtected(pages, spt, invalid, validGen, pvec, 0, n)
  {}

  /** Handling one leaf leaves the leaves behind it protected. */
  lemma ProtectedStep(pages: Pages, spt0: Spt, parents0: Parents, spt: Spt, spt': Spt, unsync: set<PageId>, bits: Bits,
                      count: map<PageId, int>, invalid: set<PageId>, invalid': set<PageId>, validGen: nat, root: PageId,
                      pvec: seq<PvecEntry>, paths: seq<seq<SpteRef>>, i: nat, next: nat)
    requires Reading(pages, spt0, parents0, spt, unsync, bits, root, pvec, paths, i)
    requires Marks(pages, spt, unsync, bits, count)
    requires LeavesProtected(pages, spt, invalid, validGen, pvec, i, |pvec|)
    requires StillProtected(pages, spt, spt', invalid', validGen) && invalid <= invalid' && i <= next
    ensures LeavesProtected(pages, spt', invalid', validGen, pvec, next, |pvec|)
  {
    hide Protected, Reading, Marks;
    forall n | next <= n < |pvec| && IsLeafEntry(pages, pvec[n]) && ValidSp(pages, invalid', validGen, pvec[n].page)
      ensures Protected(pages, spt', pages[pvec[n].page].gfn)
    {
      var p := pvec[n].page;
      ReadingFacts(pages, spt0, parents0, spt, unsync, bits, root, pvec, paths, i, n);
      UnsyncIsLevelOne(pages, spt, unsync, bits, count, p);
      assert ValidSp(pages, invalid, validGen, p);
      assert p in IndirectValid(pages, invalid', validGen, pages[p].gfn);
    }
  }

  lemma ReadingWithin(pages: Pages, spt0: Spt, parents0: Parents, spt: Spt, spt': Spt, unsync: set<PageId>, bits: Bits,
                      root: PageId, pvec: seq<PvecEntry>, paths: seq<seq<SpteRef>>, from: nat)
    requires Reading(pages, spt0, parents0, spt, unsync, bits, root, pvec, paths, from) && LinksWithin(spt', spt)
    ensures Reading(pages, spt0, parents0, spt', unsync, bits, root, pvec, paths, from)
  {
    hide Graph, Listing, Pending;
    LinksThen(spt0, spt, spt');
  }

  lemma SkipProtected(pages: Pages, spt: Spt, invalid: set<PageId>, validGen: nat, pvec: seq<PvecEntry>, from: nat,
                      to: nat)
    requires LeavesProtected(pages, spt, invalid, validGen, pvec, from, |pvec|) && from <= to
    ensures LeavesProtected(pages, spt, invalid, validGen, pvec, to, |pvec|)
  {
    hide Protected;
  }

  lemma ReadingBack(pages: Pages, spt0: Spt, parents0: Parents, spt: Spt, unsync: set<PageId>, bits: Bits, root: PageId,
                    pvec: seq<PvecEntry>, paths: seq<seq<SpteRef>>, from: nat)
    requires Reading(pages, spt0, parents0, spt, unsync, bits, root, pvec, paths, from)
    ensures Graph(pages, spt0, parents0) && Listing(pages, spt0, root, pvec, paths) && |pvec| == |paths|
  {}

  lemma FewerValid(pages: Pages, invalid: set<PageId>, invalid': set<PageId>, validGen: nat, gfn: Gfn)
    requires invalid <= invalid'
    ensures IndirectValid(pages, invalid', validGen, gfn) <= IndirectValid(pages, invalid, validGen, gfn)
  {}

  lemma KeepProtected(pages: Pages, spt: Spt, spt': Spt, invalid: set<PageId>, validGen: nat, gfn: Gfn)
    requires StillProtected(pages, spt, spt', invalid, validGen)
    requires IndirectValid(pages, invalid, validGen, gfn) != {} ==> Protected(pages, spt, gfn)
    ensures IndirectValid(pages, invalid, validGen, gfn) != {} ==> Protected(pages, spt', gfn)
  {
    hide IndirectValid, Protected;
  }
}
