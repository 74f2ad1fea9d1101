/** The vector `struct vmrun_mmu_pages` that the unsync walk fills, and the
  `struct mmu_page_path` rebuilt from it while the vector is read back. */
module UnsyncPaths {
  import opened Options
  import opened ShadowState

  datatype PvecEntry = PvecEntry(page: PageId, index: int)

  const INVALID_INDEX: int := -1

  /** `parent` and `idx` of `struct mmu_page_path`, indexed by level - 1. */
  datatype PagePath = PagePath(parent: seq<Option<PageId>>, idx: seq<int>)

  /** `prefix` leads from the root to `page`, and that page lies on the chain of
    pages from the root to the vector entry (`path`, `last`). */
  predicate OnSpine(path: seq<SpteRef>, last: PageId, prefix: seq<SpteRef>, page: PageId) {
    && |prefix| <= |path|
    && path[..|prefix|] == prefix
    && NodeAt(path, last, |prefix|) == page
  }

  predicate IsLeafEntry(pages: Pages, e: PvecEntry) {
    e.page in pages && pages[e.page].level == 1
  }

  predicate HasLeaf(pages: Pages, pvec: seq<PvecEntry>) {
    exists n | 0 <= n < |pvec| :: IsLeafEntry(pages, pvec[n])
  }

  predicate HangsOff(pvec: seq<PvecEntry>, paths: seq<seq<SpteRef>>, n: nat)
    requires 0 < n < |pvec| == |paths|
  {
    var d := |paths[n]|;
    && 0 < d
    && pvec[n].index == paths[n][d - 1].index
    && OnSpine(paths[n - 1], pvec[n - 1].page, paths[n][..d - 1], paths[n][d - 1].page)
  }

  /** The vector is a depth-first listing: `paths[n]` leads from the root to entry n, entry n
    hangs off the chain of entry n - 1, and no leaf is listed twice. */
  ghost predicate Listing(pages: Pages, spt: Spt, root: PageId, pvec: seq<PvecEntry>, paths: seq<seq<SpteRef>>) {
    && |pvec| == |paths|
    && 0 < |pvec| <= PAGE_ARRAY_NR
    && pvec[0] == PvecEntry(root, INVALID_INDEX) && paths[0] == []
    && (forall n | 0 <= n < |pvec| :: IsPath(spt, root, paths[n], pvec[n].page))
    && (forall n | 0 < n < |pvec| :: HangsOff(pvec, paths, n))
    && (forall m, n | 0 <= m < n < |pvec| && IsLeafEntry(pages, pvec[n]) :: pvec[m].page != pvec[n].page)
  }

  predicate EdgeSet(bits: Bits, r: SpteRef) {
    r.page in bits && r.index in bits[r.page]
  }

  ghost predicate PathSet(bits: Bits, path: seq<SpteRef>) {
    forall k | 0 <= k < |path| :: EdgeSet(bits, path[k])
  }

  /** Every leaf entry from `from` on is an unsync page with every bit along its path set. */
  ghost predicate Pending(pages: Pages, unsync: set<PageId>, bits: Bits, pvec: seq<PvecEntry>,
                          paths: seq<seq<SpteRef>>, from: nat)
  {
    && |pvec| == |paths|
    && (forall n | from <= n < |pvec| && IsLeafEntry(pages, pvec[n]) ::
          pvec[n].page in unsync && PathSet(bits, paths[n]))
  }

  ghost predicate Shrunk(b0: Bits, b1: Bits) {
    b1.Keys == b0.Keys && forall p | p in b0 :: b1[p] <= b0[p]
  }

  /** Among the pages at the level of `p` or above, only the bits of `p` differ. */
  ghost predicate OnlyBelow(pages: Pages, p: PageId, b0: Bits, b1: Bits) {
    && b1.Keys == b0.Keys
    && (forall q | q in b0 && q in pages && p in pages && pages[p].level <= pages[q].level && q != p :: b1[q] == b0[q])
  }

  function ClearEdge(bits: Bits, r: SpteRef): Bits
    requires r.page in bits
  {
    bits[r.page := bits[r.page] - {r.index}]
  }

  /** The walk stands at `p`, reached by `prefix`; `start` is the bitmap it began with. As long as
    it has neither found a leaf nor cleared a bit, the vector is just the chain down to `p`. */
  ghost predicate Walking(pages: Pages, spt: Spt, unsync: set<PageId>, bits: Bits, root: PageId, pvec: seq<PvecEntry>,
                          paths: seq<seq<SpteRef>>, prefix: seq<SpteRef>, p: PageId, start: Bits)
  {
    && Listing(pages, spt, root, pvec, paths)
    && Pending(pages, unsync, bits, pvec, paths, 0)
    && |pvec| < PAGE_ARRAY_NR
    && OnSpine(paths[|paths| - 1], pvec[|pvec| - 1].page, prefix, p)
    && PathSet(bits, prefix)
    && Shrunk(start, bits)
    && (HasLeaf(pages, pvec) || bits != start || |pvec| == |prefix| + 1)
  }

  /** What the walk leaves behind, however it ends. */
  ghost predicate Walked(pages: Pages, spt: Spt, unsync: set<PageId>, bits: Bits, root: PageId, pvec: seq<PvecEntry>,
                         paths: seq<seq<SpteRef>>, start: Bits)
  {
    && Listing(pages, spt, root, pvec, paths)
    && Pending(pages, unsync, bits, pvec, paths, 0)
    && Shrunk(start, bits)
    && (HasLeaf(pages, pvec) || bits != start)
  }

  // ---------------------------------------------------------------- bits

  /** Clearing a set bit whose entry leads to no stale page keeps the marks; the
    count stays the number of bits, so it never goes negative. */
  lemma ClearBit(pages: Pages, spt: Spt, unsync: set<PageId>, bits: Bits, count: map<PageId, int>, r: SpteRef)
    requires Marks(pages, spt, unsync, bits, count) && EdgeSet(bits, r)
    requires r in spt && spt[r].Link? ==> !Stale(unsync, count, spt[r].child)
    ensures r.page in count
    ensures Marks(pages, spt, unsync, ClearEdge(bits, r), count[r.page := count[r.page] - 1])
    ensures 0 <= count[r.page] - 1
    ensures Shrunk(bits, ClearEdge(bits, r)) && ClearEdge(bits, r) != bits
            && OnlyBelow(pages, r.page, bits, ClearEdge(bits, r))
  {
    var bits' := ClearEdge(bits, r);
    assert r.index !in bits'[r.page];
    assert |bits'[r.page]| == |bits[r.page]| - 1;
  }

  /** A bit whose entry led, when the vector was filled, to a page that is neither a pending leaf
    nor has a set bit of its own lies on the path of no pending leaf. */
  lemma ClearKeepsPending(pages: Pages, spt: Spt, root: PageId, unsync: set<PageId>, bits: Bits, pvec: seq<PvecEntry>,
                          paths: seq<seq<SpteRef>>, from: nat, r: SpteRef)
    requires Listing(pages, spt, root, pvec, paths) && Pending(pages, unsync, bits, pvec, paths, from)
    requires r.page in bits
    requires r in spt && spt[r].Link? ==>
               && (spt[r].child in bits ==> bits[spt[r].child] == {})
               && (forall n | from <= n < |pvec| && IsLeafEntry(pages, pvec[n]) :: pvec[n].page != spt[r].child)
    ensures Pending(pages, unsync, ClearEdge(bits, r), pvec, paths, from)
  {
    forall n, k | from <= n < |pvec| && IsLeafEntry(pages, pvec[n]) && 0 <= k < |paths[n]|
      ensures EdgeSet(ClearEdge(bits, r), paths[n][k])
    {
      assert IsPath(spt, root, paths[n], pvec[n].page);
      assert EdgeSet(bits, paths[n][k]);
      assert k + 1 < |paths[n]| ==> EdgeSet(bits, paths[n][k + 1]);
      assert spt[paths[n][k]] == Link(NodeAt(paths[n], pvec[n].page, k + 1));
      assert paths[n][k] != r;
    }
  }

  // ---------------------------------------------------------------- steps of the walk

  /** Clearing the bit of an entry that leads to nothing stale. */
  lemma WalkClear(pages: Pages, spt: Spt, parents: Parents, unsync: set<PageId>, bits: Bits, count: map<PageId, int>,
                  root: PageId, pvec: seq<PvecEntry>, paths: seq<seq<SpteRef>>, prefix: seq<SpteRef>, p: PageId,
                  start: Bits, i: nat)
    requires Graph(pages, spt, parents) && Marks(pages, spt, unsync, bits, count) && root in pages
    requires Walking(pages, spt, unsync, bits, root, pvec, paths, prefix, p, start)
    requires EdgeSet(bits, SpteRef(p, i))
    requires SpteRef(p, i) in spt && spt[SpteRef(p, i)].Link? ==> !Stale(unsync, count, spt[SpteRef(p, i)].child)
    ensures Walking(pages, spt, unsync, ClearEdge(bits, SpteRef(p, i)), root, pvec, paths, prefix, p, start)
  {
    hide Graph, Marks, Listing, Pending, IsPath, PathSet;
    var r := SpteRef(p, i);
    ListingFacts(pages, spt, root, pvec, paths);
    ClearBit(pages, spt, unsync, bits, count, r);
    NotPending(pages, spt, parents, unsync, bits, count, pvec, paths, r);
    ClearKeepsPending(pages, spt, root, unsync, bits, pvec, paths, 0, r);
    SpinePath(spt, root, paths[|paths| - 1], pvec[|pvec| - 1].page, prefix, p);
    ClearKeepsPrefix(pages, spt, parents, root, bits, prefix, p, i);
    assert i in start[p] && i !in ClearEdge(bits, r)[p];
  }

  lemma ListingFacts(pages: Pages, spt: Spt, root: PageId, pvec: seq<PvecEntry>, paths: seq<seq<SpteRef>>)
    requires Listing(pages, spt, root, pvec, paths)
    ensures 0 < |pvec| == |paths|
    ensures IsPath(spt, root, paths[|paths| - 1], pvec[|pvec| - 1].page)
  {}

  lemma NotPending(pages: Pages, spt: Spt, parents: Parents, unsync: set<PageId>, bits: Bits, count: map<PageId, int>,
                   pvec: seq<PvecEntry>, paths: seq<seq<SpteRef>>, r: SpteRef)
    requires Graph(pages, spt, parents) && Marks(pages, spt, unsync, bits, count)
    requires Pending(pages, unsync, bits, pvec, paths, 0)
    requires r in spt && spt[r].Link? ==> !Stale(unsync, count, spt[r].child)
    ensures r in spt && spt[r].Link? ==>
              && (spt[r].child in bits ==> bits[spt[r].child] == {})
              && (forall n | 0 <= n < |pvec| && IsLeafEntry(pages, pvec[n]) :: pvec[n].page != spt[r].child)
  {}

  lemma ClearKeepsPrefix(pages: Pages, spt: Spt, parents: Parents, root: PageId, bits: Bits, prefix: seq<SpteRef>,
                         p: PageId, i: nat)
    requires Graph(pages, spt, parents) && root in pages && IsPath(spt, root, prefix, p)
    requires PathSet(bits, prefix) && p in bits
    ensures PathSet(ClearEdge(bits, SpteRef(p, i)), prefix)
  {
    hide Graph, IsPath;
    PathLevel(pages, spt, parents, root, prefix, p, |prefix|);
    forall k | 0 <= k < |prefix|
      ensures EdgeSet(ClearEdge(bits, SpteRef(p, i)), prefix[k])
    {
      assert EdgeSet(bits, prefix[k]);
      PathLevel(pages, spt, parents, root, prefix, p, k);
    }
  }

  lemma SpinePath(spt: Spt, root: PageId, path: seq<SpteRef>, last: PageId, prefix: seq<SpteRef>, p: PageId)
    requires IsPath(spt, root, path, last) && OnSpine(path, last, prefix, p)
    ensures IsPath(spt, root, prefix, p)
  {
    assert forall k | 0 <= k < |prefix| :: prefix[k] == path[k];
    forall k | 0 <= k < |prefix|
      ensures prefix[k] in spt && spt[prefix[k]] == Link(NodeAt(prefix, p, k + 1))
    {
      assert spt[path[k]] == Link(NodeAt(path, last, k + 1));
    }
  }

  lemma AppendPath(spt: Spt, root: PageId, prefix: seq<SpteRef>, p: PageId, r: SpteRef, c: PageId)
    requires IsPath(spt, root, prefix, p) && r.page == p && r in spt && spt[r] == Link(c)
    ensures IsPath(spt, root, prefix + [r], c)
  {
    var path := prefix + [r];
    forall k | 0 <= k < |path|
      ensures path[k] in spt && spt[path[k]] == Link(NodeAt(path, c, k + 1))
    {
      assert NodeAt(path, c, k) == NodeAt(prefix, p, k);
      if k < |prefix| {
        assert spt[prefix[k]] == Link(NodeAt(prefix, p, k + 1));
      }
    }
  }

  lemma ListingAdd(pages: Pages, spt: Spt, root: PageId, pvec: seq<PvecEntry>, paths: seq<seq<SpteRef>>,
                   prefix: seq<SpteRef>, r: SpteRef, c: PageId)
    requires Listing(pages, spt, root, pvec, paths) && |pvec| < PAGE_ARRAY_NR
    requires OnSpine(paths[|paths| - 1], pvec[|pvec| - 1].page, prefix, r.page)
    requires IsPath(spt, root, prefix + [r], c)
    requires IsLeafEntry(pages, PvecEntry(c, r.index)) ==> forall n | 0 <= n < |pvec| :: pvec[n].page != c
    ensures Listing(pages, spt, root, pvec + [PvecEntry(c, r.index)], paths + [prefix + [r]])
  {
    hide IsPath;
    var pvec', paths' := pvec + [PvecEntry(c, r.index)], paths + [prefix + [r]];
    forall n | 0 < n < |pvec'|
      ensures HangsOff(pvec', paths', n)
    {
      if n < |pvec| {
        assert HangsOff(pvec, paths, n);
      } else {
        assert (prefix + [r])[..|prefix|] == prefix;
      }
    }
  }

  lemma PendingAdd(pages: Pages, unsync: set<PageId>, bits: Bits, pvec: seq<PvecEntry>, paths: seq<seq<SpteRef>>,
                   e: PvecEntry, path: seq<SpteRef>)
    requires Pending(pages, unsync, bits, pvec, paths, 0)
    requires IsLeafEntry(pages, e) ==> e.page in unsync && PathSet(bits, path)
    ensures Pending(pages, unsync, bits, pvec + [e], paths + [path], 0)
    ensures HasLeaf(pages, pvec) || IsLeafEntry(pages, e) ==> HasLeaf(pages, pvec + [e])
  {
    hide PathSet;
    if HasLeaf(pages, pvec) {
      var n :| 0 <= n < |pvec| && IsLeafEntry(pages, pvec[n]);
      assert IsLeafEntry(pages, (pvec + [e])[n]);
    }
    assert (pvec + [e])[|pvec|] == e;
  }

  lemma PathSetAppend(bits: Bits, prefix: seq<SpteRef>, r: SpteRef)
    requires PathSet(bits, prefix) && EdgeSet(bits, r)
    ensures PathSet(bits, prefix + [r])
  {}

  /** Adding a child reached through a set bit. Having reached the sixteenth entry, the walk has
    found a leaf or cleared a bit, because no chain is that long. */
  lemma WalkAdd(pages: Pages, spt: Spt, parents: Parents, unsync: set<PageId>, bits: Bits,
                root: PageId, pvec: seq<PvecEntry>, paths: seq<seq<SpteRef>>, prefix: seq<SpteRef>, r: SpteRef,
                c: PageId, start: Bits)
    requires Graph(pages, spt, parents) && root in pages
    requires Walking(pages, spt, unsync, bits, root, pvec, paths, prefix, r.page, start)
    requires EdgeSet(bits, r) && r in spt && spt[r] == Link(c)
    requires c in pages && (pages[c].level == 1 ==> c in unsync && forall n | 0 <= n < |pvec| :: pvec[n].page != c)
    ensures var pvec' := pvec + [PvecEntry(c, r.index)];
            var paths' := paths + [prefix + [r]];
            if |pvec'| == PAGE_ARRAY_NR then Walked(pages, spt, unsync, bits, root, pvec', paths', start)
            else Walking(pages, spt, unsync, bits, root, pvec', paths', prefix + [r], c, start)
    ensures pages[c].level == 1 ==> HasLeaf(pages, pvec + [PvecEntry(c, r.index)])
  {
    hide Graph, Listing, Pending, IsPath, PathSet, HasLeaf;
    ListingFacts(pages, spt, root, pvec, paths);
    SpinePath(spt, root, paths[|paths| - 1], pvec[|pvec| - 1].page, prefix, r.page);
    AppendPath(spt, root, prefix, r.page, r, c);
    PathSetAppend(bits, prefix, r);
    PathLevel(pages, spt, parents, root, prefix + [r], c, |prefix| + 1);
    PageFacts(pages, spt, parents, root);
    PageFacts(pages, spt, parents, c);
    ListingAdd(pages, spt, root, pvec, paths, prefix, r, c);
    PendingAdd(pages, unsync, bits, pvec, paths, PvecEntry(c, r.index), prefix + [r]);
  }

  /** Back from a child, the walk stands at the parent again. */
  lemma WalkBack(pages: Pages, spt: Spt, unsync: set<PageId>, bits: Bits, root: PageId, pvec: seq<PvecEntry>,
                 paths: seq<seq<SpteRef>>, prefix: seq<SpteRef>, r: SpteRef, c: PageId, start: Bits)
    requires Walking(pages, spt, unsync, bits, root, pvec, paths, prefix + [r], c, start)
    requires HasLeaf(pages, pvec) || bits != start
    ensures Walking(pages, spt, unsync, bits, root, pvec, paths, prefix, r.page, start)
    ensures EdgeSet(bits, r)
  {
    hide Listing, Pending, HasLeaf;
    ListingFacts(pages, spt, root, pvec, paths);
    var path := paths[|paths| - 1];
    assert (prefix + [r])[|prefix|] == r;
    assert path[..|prefix|] == path[..|prefix| + 1][..|prefix|] == prefix;
    forall k | 0 <= k < |prefix|
      ensures EdgeSet(bits, prefix[k])
    {
      assert EdgeSet(bits, (prefix + [r])[k]);
    }
    assert path[|prefix|] == path[..|prefix| + 1][|prefix|] == r;
  }

  lemma RootFacts(pages: Pages, spt: Spt, unsync: set<PageId>, bits: Bits, count: map<PageId, int>, p: PageId)
    requires Marks(pages, spt, unsync, bits, count) && p in pages && count[p] != 0
    ensures pages[p].level != 1 && p !in unsync
  {
    assert bits[p] != {};
    var i :| i in bits[p];
  }

  lemma WalkStart(pages: Pages, spt: Spt, unsync: set<PageId>, bits: Bits, root: PageId)
    requires root in pages && pages[root].level != 1
    ensures Walking(pages, spt, unsync, bits, root, [PvecEntry(root, INVALID_INDEX)], [[]], [], root, bits)
  {}

  lemma WalkEnds(pages: Pages, spt: Spt, parents: Parents, unsync: set<PageId>, bits: Bits, root: PageId,
                 pvec: seq<PvecEntry>, paths: seq<seq<SpteRef>>, start: Bits, ret: int)
    requires Graph(pages, spt, parents) && root in pages && ret != 0
    requires 0 < ret ==> HasLeaf(pages, pvec) && Walking(pages, spt, unsync, bits, root, pvec, paths, [], root, start)
    requires ret < 0 ==> Walked(pages, spt, unsync, bits, root, pvec, paths, start)
    ensures Walked(pages, spt, unsync, bits, root, pvec, paths, start)
    ensures Reading(pages, spt, parents, spt, unsync, bits, root, pvec, paths, 0)
    ensures bits == start ==> HasLeaf(pages, pvec)
  {
    hide Graph, Listing, Pending, HasLeaf;
  }

  // ---------------------------------------------------------------- facts used along the walk

  lemma ChildFacts(pages: Pages, spt: Spt, parents: Parents, unsync: set<PageId>, bits: Bits, count: map<PageId, int>,
                   r: SpteRef)
    requires Graph(pages, spt, parents) && Marks(pages, spt, unsync, bits, count) && r in spt && spt[r].Link?
    ensures var c := spt[r].child;
            && c in pages && c in count && c in bits && r.page in pages
            && 1 <= pages[c].level == pages[r.page].level - 1
            && (count[c] == 0 <==> bits[c] == {})
            && (count[c] != 0 ==> pages[c].level != 1)
            && (c in unsync ==> pages[c].level == 1)
  {}

  lemma BitsFacts(pages: Pages, spt: Spt, unsync: set<PageId>, bits: Bits, count: map<PageId, int>, p: PageId)
    requires Marks(pages, spt, unsync, bits, count) && p in pages
    ensures p in bits && p in count
    ensures count[p] == 0 <==> bits[p] == {}
    ensures forall j | j in bits[p] :: j < ENT_PER_PAGE
    ensures Shrunk(bits, bits) && OnlyBelow(pages, p, bits, bits)
  {}

  /** WalkClear together with what it changes since the walk of this page began (`b0`). */
  lemma WalkClearFrame(pages: Pages, spt: Spt, parents: Parents, unsync: set<PageId>, b0: Bits, bits: Bits,
                       count: map<PageId, int>, root: PageId, pvec: seq<PvecEntry>, paths: seq<seq<SpteRef>>,
                       prefix: seq<SpteRef>, p: PageId, start: Bits, i: nat)
    requires Graph(pages, spt, parents) && Marks(pages, spt, unsync, bits, count) && root in pages
    requires Walking(pages, spt, unsync, bits, root, pvec, paths, prefix, p, start)
    requires EdgeSet(bits, SpteRef(p, i))
    requires SpteRef(p, i) in spt && spt[SpteRef(p, i)].Link? ==> !Stale(unsync, count, spt[SpteRef(p, i)].child)
    requires Shrunk(b0, bits) && OnlyBelow(pages, p, b0, bits)
    ensures Walking(pages, spt, unsync, ClearEdge(bits, SpteRef(p, i)), root, pvec, paths, prefix, p, start)
    ensures Shrunk(b0, ClearEdge(bits, SpteRef(p, i))) && OnlyBelow(pages, p, b0, ClearEdge(bits, SpteRef(p, i)))
  {
    hide Graph, Marks, Walking, Shrunk, OnlyBelow;
    WalkClear(pages, spt, parents, unsync, bits, count, root, pvec, paths, prefix, p, start, i);
    FrameClear(pages, spt, unsync, b0, bits, count, SpteRef(p, i));
  }

  lemma FrameClear(pages: Pages, spt: Spt, unsync: set<PageId>, b0: Bits, b1: Bits, count: map<PageId, int>, r: SpteRef)
    requires Marks(pages, spt, unsync, b1, count) && EdgeSet(b1, r)
    requires Shrunk(b0, b1) && OnlyBelow(pages, r.page, b0, b1)
    ensures Shrunk(b0, ClearEdge(b1, r)) && OnlyBelow(pages, r.page, b0, ClearEdge(b1, r))
  {}

  lemma FrameChild(pages: Pages, p: PageId, c: PageId, b0: Bits, b1: Bits, b2: Bits)
    requires p in pages && c in pages && pages[c].level < pages[p].level && p in b0
    requires Shrunk(b0, b1) && OnlyBelow(pages, p, b0, b1)
    requires Shrunk(b1, b2) && OnlyBelow(pages, c, b1, b2)
    ensures Shrunk(b0, b2) && OnlyBelow(pages, p, b0, b2) && p in b2 && b2[p] == b1[p]
  {}

  /** A walk of `c` that found nothing emptied its bitmap, which was not empty when the walk started. */
  lemma EmptiedDiffers(pages: Pages, spt: Spt, unsync: set<PageId>, b1: Bits, b2: Bits, root: PageId,
                       pvec: seq<PvecEntry>, paths: seq<seq<SpteRef>>, prefix: seq<SpteRef>, p: PageId, start: Bits,
                       c: PageId)
    requires Walking(pages, spt, unsync, b1, root, pvec, paths, prefix, p, start)
    requires c in b1 && b1[c] != {} && c in b2 && b2[c] == {}
    ensures b2 != start
  {
    hide Listing, Pending, PathSet;
    var i :| i in b1[c];
    assert i in start[c];
  }

  lemma LeafKept(pages: Pages, pvec: seq<PvecEntry>, more: seq<PvecEntry>)
    requires HasLeaf(pages, pvec) && pvec <= more
    ensures HasLeaf(pages, more)
  {
    var n :| 0 <= n < |pvec| && IsLeafEntry(pages, pvec[n]);
    assert IsLeafEntry(pages, more[n]);
  }

  lemma ListedLeaf(pages: Pages, pvec: seq<PvecEntry>, c: PageId)
    requires c in pages && pages[c].level == 1
    requires exists n | 0 <= n < |pvec| :: pvec[n].page == c
    ensures HasLeaf(pages, pvec)
  {
    var n :| 0 <= n < |pvec| && pvec[n].page == c;
    assert IsLeafEntry(pages, pvec[n]);
  }

  lemma WalkingLength(pages: Pages, spt: Spt, unsync: set<PageId>, bits: Bits, root: PageId, pvec: seq<PvecEntry>,
                      paths: seq<seq<SpteRef>>, prefix: seq<SpteRef>, p: PageId, start: Bits)
    requires Walking(pages, spt, unsync, bits, root, pvec, paths, prefix, p, start)
    ensures |pvec| < PAGE_ARRAY_NR
  {}

  // ---------------------------------------------------------------- reading the vector back

  /** The path buffer holds the chain from the root (at level `top`) to (`path`, `last`), and above it the sentinel. */
  ghost predicate Holds(buf: PagePath, top: nat, path: seq<SpteRef>, last: PageId) {
    && |buf.parent| == ROOT_MAX_LEVEL && |buf.idx| == ROOT_MAX_LEVEL
    && |path| < top <= ROOT_MAX_LEVEL
    && buf.parent[top - 1] == None
    && (forall k | 0 <= k <= |path| && 2 <= top - k :: buf.parent[top - k - 2] == Some(NodeAt(path, last, k)))
    && (forall k | 0 <= k < |path| :: buf.idx[top - k - 2] == path[k].index)
  }

  /** The level of a listed page is fixed by the length of its path. */
  lemma ListedLevel(pages: Pages, spt: Spt, parents: Parents, root: PageId, pvec: seq<PvecEntry>,
                    paths: seq<seq<SpteRef>>, n: nat)
    requires Graph(pages, spt, parents) && root in pages && Listing(pages, spt, root, pvec, paths) && n < |pvec|
    ensures n < |paths| && pvec[n].page in pages && 1 <= pages[pvec[n].page].level
    ensures pages[pvec[n].page].level + |paths[n]| == pages[root].level <= ROOT_MAX_LEVEL
  {
    assert IsPath(spt, root, paths[n], pvec[n].page);
    PathLevel(pages, spt, parents, root, paths[n], pvec[n].page, |paths[n]|);
  }

  function PathStep(buf: PagePath, level: nat, e: PvecEntry): PagePath
    requires |buf.parent| == ROOT_MAX_LEVEL == |buf.idx| && 1 <= level <= ROOT_MAX_LEVEL
  {
    PagePath(if level == 1 then buf.parent else buf.parent[level - 2 := Some(e.page)], buf.idx[level - 1 := e.index])
  }

  /** Reading one entry turns the chain of the entry before it into its own. */
  lemma HoldsStep(buf: PagePath, top: nat, pvec: seq<PvecEntry>, paths: seq<seq<SpteRef>>, n: nat)
    requires 0 < n < |pvec| == |paths| && HangsOff(pvec, paths, n)
    requires Holds(buf, top, paths[n - 1], pvec[n - 1].page)
    requires |paths[n]| < top
    ensures Holds(PathStep(buf, top - |paths[n]|, pvec[n]), top, paths[n], pvec[n].page)
  {
    var d := |paths[n]|;
    var buf' := PathStep(buf, top - d, pvec[n]);
    var prev := paths[n - 1];
    forall k | 0 <= k <= d && 2 <= top - k
      ensures buf'.parent[top - k - 2] == Some(NodeAt(paths[n], pvec[n].page, k))
    {
      if k < d {
        assert buf.parent[top - k - 2] == Some(NodeAt(prev, pvec[n - 1].page, k));
        assert k < d - 1 ==> prev[k] == paths[n][..d - 1][k];
      }
    }
    forall k | 0 <= k < d
      ensures buf'.idx[top - k - 2] == paths[n][k].index
    {
      if k < d - 1 {
        assert prev[k] == paths[n][..d - 1][k];
      }
    }
  }

  lemma HoldsNext(pages: Pages, spt: Spt, root: PageId, buf: PagePath, pvec: seq<PvecEntry>,
                  paths: seq<seq<SpteRef>>, n: nat)
    requires root in pages && Listing(pages, spt, root, pvec, paths) && 0 < n < |pvec| && |paths[n]| < pages[root].level
    requires Holds(buf, pages[root].level, paths[n - 1], pvec[n - 1].page)
    ensures |buf.parent| == ROOT_MAX_LEVEL == |buf.idx| && pages[root].level <= ROOT_MAX_LEVEL
    ensures Holds(PathStep(buf, pages[root].level - |paths[n]|, pvec[n]), pages[root].level, paths[n], pvec[n].page)
  {
    hide IsPath, IsLeafEntry;
    HoldsStep(buf, pages[root].level, pvec, paths, n);
  }

  /** The vector filled when the tables were (`spt0`, `parents0`) is read from entry `from` on. */
  ghost predicate Reading(pages: Pages, spt0: Spt, parents0: Parents, spt: Spt, unsync: set<PageId>, bits: Bits,
                          root: PageId, pvec: seq<PvecEntry>, paths: seq<seq<SpteRef>>, from: nat)
  {
    && Graph(pages, spt0, parents0) && root in pages
    && Listing(pages, spt0, root, pvec, paths)
    && Pending(pages, unsync, bits, pvec, paths, from)
    && LinksWithin(spt, spt0)
  }

  lemma PathSetPrefix(bits: Bits, path: seq<SpteRef>, k: nat)
    requires PathSet(bits, path) && k <= |path|
    ensures PathSet(bits, path[..k])
    ensures 0 < k ==> EdgeSet(bits, path[k - 1])
  {}

  lemma PathPrefix(spt: Spt, root: PageId, path: seq<SpteRef>, last: PageId, k: nat)
    requires IsPath(spt, root, path, last) && k < |path|
    ensures IsPath(spt, root, path[..k], path[k].page)
    ensures path[k] in spt && spt[path[k]] == Link(NodeAt(path, last, k + 1))
  {
    forall j | 0 <= j < k
      ensures path[..k][j] in spt && spt[path[..k][j]] == Link(NodeAt(path[..k], path[k].page, j + 1))
    {
      assert spt[path[j]] == Link(NodeAt(path, last, j + 1));
    }
  }

  /** Clearing the bit above a page that is no longer stale, on the way up from a leaf just handled. */
  lemma ClearUp(pages: Pages, spt0: Spt, parents0: Parents, spt: Spt, unsync: set<PageId>, bits: Bits,
                count: map<PageId, int>, root: PageId, pvec: seq<PvecEntry>, paths: seq<seq<SpteRef>>, from: nat,
                path: seq<SpteRef>, last: PageId, k: nat)
    requires Reading(pages, spt0, parents0, spt, unsync, bits, root, pvec, paths, from)
    requires Marks(pages, spt, unsync, bits, count)
    requires IsPath(spt0, root, path, last) && k < |path| && PathSet(bits, path[..k + 1])
    requires !Stale(unsync, count, NodeAt(path, last, k + 1))
    ensures EdgeSet(bits, path[k])
    ensures path[k] in spt && spt[path[k]].Link? ==> !Stale(unsync, count, spt[path[k]].child)
    ensures Reading(pages, spt0, parents0, spt, unsync, ClearEdge(bits, path[k]), root, pvec, paths, from)
    ensures PathSet(ClearEdge(bits, path[k]), path[..k])
    ensures Shrunk(bits, ClearEdge(bits, path[k])) && ClearEdge(bits, path[k]) != bits
  {
    hide Graph, Listing, Pending, PathSet, IsPath;
    var r, c := path[k], NodeAt(path, last, k + 1);
    PathSetPrefix(bits, path[..k + 1], k + 1);
    PathSetPrefix(bits, path[..k + 1], k);
    assert path[..k + 1][..k] == path[..k] && path[..k + 1][k] == r;
    PathPrefix(spt0, root, path, last, k);
    NotPendingFrom(pages, unsync, bits, count, spt, pvec, paths, from, c);
    ClearKeepsPending(pages, spt0, root, unsync, bits, pvec, paths, from, r);
    ClearKeepsPrefix(pages, spt0, parents0, root, bits, path[..k], r.page, r.index);
    assert r.index !in ClearEdge(bits, r)[r.page];
  }

  lemma NotPendingFrom(pages: Pages, unsync: set<PageId>, bits: Bits, count: map<PageId, int>, spt: Spt,
                       pvec: seq<PvecEntry>, paths: seq<seq<SpteRef>>, from: nat, c: PageId)
    requires Marks(pages, spt, unsync, bits, count) && Pending(pages, unsync, bits, pvec, paths, from)
    requires !Stale(unsync, count, c)
    ensures c in bits ==> bits[c] == {}
    ensures forall n | from <= n < |pvec| && IsLeafEntry(pages, pvec[n]) :: pvec[n].page != c
  {}

  /** Once the leaf of entry `from` is handled, the entries behind it are still pending. */
  lemma ReadOn(pages: Pages, spt0: Spt, parents0: Parents, spt: Spt, unsync: set<PageId>, bits: Bits, root: PageId,
               pvec: seq<PvecEntry>, paths: seq<seq<SpteRef>>, from: nat, spt': Spt, unsync': set<PageId>)
    requires Reading(pages, spt0, parents0, spt, unsync, bits, root, pvec, paths, from)
    requires from < |pvec| && unsync' == unsync - {pvec[from].page} && LinksWithin(spt', spt)
    ensures Reading(pages, spt0, parents0, spt', unsync', bits, root, pvec, paths, from + 1)
  {
    hide Graph, PathSet;
  }

  // ---------------------------------------------------------------- progress

  ghost function BitSet(bits: Bits): set<SpteRef> {
    set p, i | p in bits && i in bits[p] :: SpteRef(p, i)
  }

  lemma FewerBits(b0: Bits, b1: Bits)
    requires Shrunk(b0, b1) && b0 != b1
    ensures |BitSet(b1)| < |BitSet(b0)|
  {
    var p :| p in b0 && b0[p] != b1[p];
    var i :| i in b0[p] && i !in b1[p];
    assert SpteRef(p, i) in BitSet(b0) && SpteRef(p, i) !in BitSet(b1);
    Smaller(BitSet(b1), BitSet(b0));
  }

  lemma {:induction false} Smaller(s: set<SpteRef>, t: set<SpteRef>)
    requires s < t
    ensures |s| < |t|
  {
    if s != {} {
      var x :| x in s;
      Smaller(s - {x}, t - {x});
    }
  }

  lemma ShrunkTransitive(a: Bits, b: Bits, c: Bits)
    requires Shrunk(a, b) && Shrunk(b, c)
    ensures Shrunk(a, c)
    ensures a != b || b != c ==> a != c
  {
    if a == c {
      forall p | p in a
        ensures a[p] == b[p]
      {}
    }
  }

  lemma ReadingFacts(pages: Pages, spt0: Spt, parents0: Parents, spt: Spt, unsync: set<PageId>, bits: Bits,
                     root: PageId, pvec: seq<PvecEntry>, paths: seq<seq<SpteRef>>, from: nat, n: nat)
    requires Reading(pages, spt0, parents0, spt, unsync, bits, root, pvec, paths, from) && n < |pvec|
    ensures Graph(pages, spt0, parents0) && Listing(pages, spt0, root, pvec, paths)
    ensures |pvec| == |paths| && root in pages && IsPath(spt0, root, paths[n], pvec[n].page)
    ensures pvec[n].page in pages && pages[pvec[n].page].level + |paths[n]| == pages[root].level <= ROOT_MAX_LEVEL
    ensures from <= n && IsLeafEntry(pages, pvec[n]) ==> pvec[n].page in unsync && PathSet(bits, paths[n])
  {
    ListedLevel(pages, spt0, parents0, root, pvec, paths, n);
  }

  /** A page inside a path is above level 1, so it is never itself unsync. */
  lemma NotUnsync(pages: Pages, spt0: Spt, parents0: Parents, spt: Spt, unsync: set<PageId>, bits: Bits,
                  count: map<PageId, int>, root: PageId, path: seq<SpteRef>, last: PageId, k: nat)
    requires Graph(pages, spt0, parents0) && root in pages && IsPath(spt0, root, path, last) && k < |path|
    requires Marks(pages, spt, unsync, bits, count)
    ensures path[k].page !in unsync
  {
    PathLevel(pages, spt0, parents0, root, path, last, k);
    PathLevel(pages, spt0, parents0, root, path, last, k + 1);
  }

  lemma NoBitsAtLevelOne(pages: Pages, spt: Spt, unsync: set<PageId>, bits: Bits, count: map<PageId, int>, p: PageId)
    requires Marks(pages, spt, unsync, bits, count) && p in pages && pages[p].level == 1
    ensures count[p] == 0
  {
    assert bits[p] == {};
  }

  lemma NotStale(pages: Pages, spt: Spt, unsync: set<PageId>, bits: Bits, count: map<PageId, int>, p: PageId)
    requires Marks(pages, spt, unsync, bits, count) && p in pages && pages[p].level == 1 && p !in unsync
    ensures !Stale(unsync, count, p)
  {
    NoBitsAtLevelOne(pages, spt, unsync, bits, count, p);
  }

  lemma ReadingStart(pages: Pages, spt: Spt, parents: Parents, unsync: set<PageId>, bits: Bits, root: PageId,
                     pvec: seq<PvecEntry>, paths: seq<seq<SpteRef>>)
    requires Reading(pages, spt, parents, spt, unsync, bits, root, pvec, paths, 0)
    ensures Graph(pages, spt, parents) && Listing(pages, spt, root, pvec, paths) && |pvec| == |paths|
  {}

  lemma SkipTo(pages: Pages, spt0: Spt, parents0: Parents, spt: Spt, unsync: set<PageId>, bits: Bits, root: PageId,
               pvec: seq<PvecEntry>, paths: seq<seq<SpteRef>>, from: nat, to: nat)
    requires Reading(pages, spt0, parents0, spt, unsync, bits, root, pvec, paths, from) && from <= to
    ensures Reading(pages, spt0, parents0, spt, unsync, bits, root, pvec, paths, to)
  {
    hide Graph, Listing, PathSet;
  }

  lemma NoLeafBefore(pages: Pages, pvec: seq<PvecEntry>, n: nat)
    requires n <= |pvec| && forall k | 0 <= k < n :: !IsLeafEntry(pages, pvec[k])
    ensures HasLeaf(pages, pvec) ==> n < |pvec|
  {}
}
