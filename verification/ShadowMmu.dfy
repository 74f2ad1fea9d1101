/** The shadow MMU of one VM: shadow pages and their entries, reverse maps, the active list and the counters, changed
  in place by the operations that run under the MMU lock. Every operation keeps `Sound`. */
module ShadowMmus {
  import opened Options
  import opened ShadowState
  import opened UnsyncPaths
  import opened Protection
  import opened Accounts
  import opened ActiveList
  import opened Zapping
  import opened Lifecycle
  import opened Syncing

  /** What a guest entry asks of its shadow leaf: remove it, or keep it with the given write access. */
  datatype Ask = Drop | Keep(write: bool)

  /** What the entries of a guest page ask, by index; an index that is absent asks nothing. */
  type Asks = map<nat, Ask>

  class ShadowMmu {
    var pages: Pages
    var spt: Spt
    var parents: Parents
    var unsync: set<PageId>
    var childBits: Bits
    var childCount: map<PageId, int>
    var rmap: Rmap
    var invalid: set<PageId>
    var rootCount: map<PageId, nat>
    var active: seq<PageId>
    var zapped: set<PageId>
    var nUsed: int
    var validGen: nat
    var gfnTrack: map<Gfn, int>
    var disallow: map<Bucket, int>
    var indirect: int
    /** The entries that vmrun_set_pte_rmapp has pointed at a read-only page so far. */
    ghost var changed: set<SpteRef>
    const aligned: map<Bucket, int>

    ghost predicate Listed(freed: set<PageId>)
      reads this`pages, this`spt, this`parents, this`unsync, this`invalid, this`rootCount, this`active, this`zapped,
            this`nUsed, this`validGen
    {
      && ListShape(pages, invalid, rootCount, active, zapped, nUsed)
      && Detached(spt, parents, unsync, invalid, rootCount, zapped)
      && Held(invalid, rootCount, active, freed)
      && Ordered(pages, invalid, active, validGen)
    }

    /** The invariant without the reverse maps. */
    ghost predicate Core(freed: set<PageId>)
      reads this`pages, this`spt, this`parents, this`unsync, this`childBits, this`childCount, this`invalid,
            this`rootCount, this`active, this`zapped, this`nUsed, this`validGen, this`gfnTrack, this`disallow,
            this`indirect, this`changed
    {
      && Graph(pages, spt, parents)
      && Marks(pages, spt, unsync, childBits, childCount)
      && Listed(freed)
      && Balanced(pages, invalid, gfnTrack, disallow, aligned, indirect)
      && Guarded(pages, spt, unsync, invalid, validGen)
      && Backed(spt, changed)
    }

    /** The invariant. A page in `freed` is invalid and no longer a root, and is about to be zapped. */
    ghost predicate Sound(freed: set<PageId>)
      reads this
    {
      Core(freed) && Mapped(pages, spt, rmap)
    }

    lemma SoundPage(freed: set<PageId>, p: PageId)
      requires Sound(freed) && p in active
      ensures p in pages && 1 <= pages[p].level && p in childCount && Shrunk(childBits, childBits)
      ensures pages[p].level == 1 ==> childCount[p] == 0
    {
      hide Graph, Marks, Mapped, Balanced, Guarded, Backed, ListShape, Detached, Held, Ordered, Shrunk;
      ListFacts(pages, invalid, rootCount, active, zapped, nUsed, p);
      PageFacts(pages, spt, parents, p);
      BitsFacts(pages, spt, unsync, childBits, childCount, p);
      if pages[p].level == 1 {
        NoBitsAtLevelOne(pages, spt, unsync, childBits, childCount, p);
      }
    }

    /** A VM without shadow pages. `aligned` is what slot creation puts into the large-page counts. */
    constructor (aligned: map<Bucket, int>)
      requires forall b | b in aligned :: 0 <= aligned[b]
      ensures Sound({}) && pages == map[] && spt == map[] && unsync == {} && active == [] && validGen == 0
      ensures gfnTrack == map[] && disallow == this.aligned == aligned && indirect == 0 && changed == {}
    {
      pages, spt, parents, unsync := map[], map[], map[], {};
      childBits, childCount, rmap, invalid := map[], map[], map[], {};
      rootCount, active, zapped, nUsed, validGen := map[], [], {}, 0, 0;
      changed := {};
      gfnTrack, indirect := map[], 0;
      disallow := aligned;
      this.aligned := aligned;
      new;
      EmptyBalanced(aligned);
    }

    // -------------------------------------------------- unsync marks

    method MarkUnsync(r: SpteRef, ghost open: set<SpteRef>)
      requires Graph(pages, spt, parents) && MarksExcept(pages, spt, unsync, childBits, childCount, open + {r})
      requires r in spt && spt[r].Link? && Stale(unsync, childCount, spt[r].child)
      modifies this`childBits, this`childCount
      ensures MarksExcept(pages, spt, unsync, childBits, childCount, open)
      ensures Justified(spt, unsync, old(childBits), old(childCount), childBits, childCount)
      decreases ROOT_MAX_LEVEL - pages[r.page].level, 1
    {
      hide *;
      LinkFacts(pages, spt, parents, unsync, childBits, childCount, open + {r}, r);
      if r.index in childBits[r.page] {
        CloseMarked(pages, spt, unsync, childBits, childCount, open, r);
        return;
      }
      SetBit(pages, spt, parents, unsync, childBits, childCount, open, r);
      childBits := childBits[r.page := childBits[r.page] + {r.index}];
      var before := childCount[r.page];
      childCount := childCount[r.page := before + 1];
      if before != 0 {
        assert open + {} == open;
        return;
      }
      ghost var bits, count := childBits, childCount;
      MarkParentsUnsync(r.page, open);
      JustifiedTransitive(spt, unsync, old(childBits), old(childCount), bits, count, childBits, childCount);
    }

    method MarkParentsUnsync(p: PageId, ghost open: set<SpteRef>)
      requires Graph(pages, spt, parents) && p in pages
      requires MarksExcept(pages, spt, unsync, childBits, childCount, open + parents[p])
      requires Stale(unsync, childCount, p)
      modifies this`childBits, this`childCount
      ensures MarksExcept(pages, spt, unsync, childBits, childCount, open)
      ensures Justified(spt, unsync, old(childBits), old(childCount), childBits, childCount)
      decreases ROOT_MAX_LEVEL - pages[p].level, 0
    {
      hide *;
      PageFacts(pages, spt, parents, p);
      JustifiedRefl(pages, spt, unsync, childBits, childCount, open + parents[p]);
      var todo := parents[p];
      while todo != {}
        invariant todo <= parents[p]
        invariant MarksExcept(pages, spt, unsync, childBits, childCount, open + todo)
        invariant Stale(unsync, childCount, p)
        invariant Justified(spt, unsync, old(childBits), old(childCount), childBits, childCount)
        decreases |todo|
      {
        var r :| r in todo;
        assert open + todo == (open + (todo - {r})) + {r};
        todo := todo - {r};
        ghost var bits, count := childBits, childCount;
        MarkUnsync(r, open + todo);
        JustifiedTransitive(spt, unsync, old(childBits), old(childCount), bits, count, childBits, childCount);
        StaleStays(spt, unsync, bits, count, childBits, childCount, p);
      }
      assert open + todo == open;
    }

    // -------------------------------------------------- the unsync walk

    method ClearUnsyncChildBit(p: PageId, i: nat)
      requires Marks(pages, spt, unsync, childBits, childCount) && EdgeSet(childBits, SpteRef(p, i))
      requires SpteRef(p, i) in spt && spt[SpteRef(p, i)].Link? ==> !Stale(unsync, childCount, spt[SpteRef(p, i)].child)
      modifies this`childBits, this`childCount
      ensures childBits == old(ClearEdge(childBits, SpteRef(p, i)))
      ensures p in childCount && 0 <= childCount[p]
      ensures Marks(pages, spt, unsync, childBits, childCount)
    {
      hide Marks;
      ClearBit(pages, spt, unsync, childBits, childCount, SpteRef(p, i));
      childCount := childCount[p := childCount[p] - 1];
      childBits := ClearEdge(childBits, SpteRef(p, i));
    }

    method PagesAdd(pvec: seq<PvecEntry>, p: PageId, index: int) returns (r: seq<PvecEntry>, full: bool)
      requires |pvec| < PAGE_ARRAY_NR
      ensures r == (if p in unsync && exists n | 0 <= n < |pvec| :: pvec[n].page == p then pvec
                    else pvec + [PvecEntry(p, index)])
      ensures full <==> |r| == PAGE_ARRAY_NR
    {
      if p in unsync {
        for n := 0 to |pvec|
          invariant forall k | 0 <= k < n :: pvec[k].page != p
        {
          if pvec[n].page == p {
            return pvec, false;
          }
        }
      }
      r := pvec + [PvecEntry(p, index)];
      full := |r| == PAGE_ARRAY_NR;
    }

    /** __mmu_unsync_walk: follow the set bits of `p`. `prefix` is the path from `root` to `p`. */
    method WalkUnsync(p: PageId, pvec0: seq<PvecEntry>, ghost paths0: seq<seq<SpteRef>>, ghost root: PageId,
                      ghost prefix: seq<SpteRef>, ghost start: Bits)
      returns (ret: int, pvec: seq<PvecEntry>, ghost paths: seq<seq<SpteRef>>)
      requires Graph(pages, spt, parents) && Marks(pages, spt, unsync, childBits, childCount)
      requires root in pages && p in pages
      requires Walking(pages, spt, unsync, childBits, root, pvec0, paths0, prefix, p, start)
      modifies this`childBits, this`childCount
      ensures Marks(pages, spt, unsync, childBits, childCount)
      ensures Shrunk(old(childBits), childBits) && OnlyBelow(pages, p, old(childBits), childBits)
      ensures pvec0 <= pvec
      ensures 0 <= ret ==> Walking(pages, spt, unsync, childBits, root, pvec, paths, prefix, p, start)
      ensures ret < 0 ==> Walked(pages, spt, unsync, childBits, root, pvec, paths, start)
      ensures 0 < ret ==> HasLeaf(pages, pvec)
      ensures ret == 0 ==> p in childBits && childBits[p] == {}
      decreases pages[p].level, 1
    {
      hide Graph, Marks, Walking, Walked, HasLeaf, Shrunk, OnlyBelow;
      pvec, paths := pvec0, paths0;
      var leaves := 0;
      BitsFacts(pages, spt, unsync, childBits, childCount, p);
      for i := 0 to ENT_PER_PAGE
        invariant Marks(pages, spt, unsync, childBits, childCount)
        invariant Shrunk(old(childBits), childBits) && OnlyBelow(pages, p, old(childBits), childBits)
        invariant Walking(pages, spt, unsync, childBits, root, pvec, paths, prefix, p, start)
        invariant pvec0 <= pvec
        invariant 0 <= leaves && (0 < leaves ==> HasLeaf(pages, pvec))
        invariant p in childBits && forall j | j in childBits[p] :: j < ENT_PER_PAGE
        invariant leaves == 0 ==> forall j | j in childBits[p] :: i <= j
      {
        if i !in childBits[p] {
          continue;
        }
        var r := SpteRef(p, i);
        ghost var before, pvec1 := childBits, pvec;
        var n := 0;
        if r in spt && spt[r].Link? {
          ChildFacts(pages, spt, parents, unsync, childBits, childCount, r);
          if Stale(unsync, childCount, spt[r].child) {
            n, pvec, paths := WalkChild(r, pvec, paths, root, prefix, start);
            FrameChild(pages, p, spt[r].child, old(childBits), before, childBits);
            if n < 0 {
              return n, pvec, paths;
            }
            if 0 < leaves {
              LeafKept(pages, pvec1, pvec);
            }
          }
        }
        if n == 0 {
          WalkClearFrame(pages, spt, parents, unsync, old(childBits), childBits, childCount, root, pvec, paths, prefix,
                         p, start, i);
          ClearUnsyncChildBit(p, i);
        }
        leaves := leaves + n;
      }
      ret := leaves;
    }

    /** The part of __mmu_unsync_walk for one child that is unsync or has unsync children. */
    method WalkChild(r: SpteRef, pvec0: seq<PvecEntry>, ghost paths0: seq<seq<SpteRef>>, ghost root: PageId,
                     ghost prefix: seq<SpteRef>, ghost start: Bits)
      returns (n: int, pvec: seq<PvecEntry>, ghost paths: seq<seq<SpteRef>>)
      requires Graph(pages, spt, parents) && Marks(pages, spt, unsync, childBits, childCount)
      requires root in pages && r.page in pages
      requires Walking(pages, spt, unsync, childBits, root, pvec0, paths0, prefix, r.page, start)
      requires r in spt && spt[r].Link? && EdgeSet(childBits, r) && Stale(unsync, childCount, spt[r].child)
      modifies this`childBits, this`childCount
      ensures Marks(pages, spt, unsync, childBits, childCount)
      ensures Shrunk(old(childBits), childBits) && OnlyBelow(pages, spt[r].child, old(childBits), childBits)
      ensures pvec0 <= pvec
      ensures 0 <= n ==> Walking(pages, spt, unsync, childBits, root, pvec, paths, prefix, r.page, start)
      ensures 0 <= n ==> EdgeSet(childBits, r)
      ensures n < 0 ==> Walked(pages, spt, unsync, childBits, root, pvec, paths, start)
      ensures 0 < n ==> HasLeaf(pages, pvec)
      ensures n == 0 ==> !Stale(unsync, childCount, spt[r].child)
      decreases pages[r.page].level, 0
    {
      hide Graph, Marks, Walking, Walked, HasLeaf, Shrunk, OnlyBelow;
      var child := spt[r].child;
      ChildFacts(pages, spt, parents, unsync, childBits, childCount, r);
      BitsFacts(pages, spt, unsync, childBits, childCount, child);
      WalkingLength(pages, spt, unsync, childBits, root, pvec0, paths0, prefix, r.page, start);
      var full;
      pvec, full := PagesAdd(pvec0, child, r.index);
      if pvec == pvec0 {
        ListedLeaf(pages, pvec, child);
        return 1, pvec, paths0;
      }
      paths := paths0 + [prefix + [r]];
      WalkAdd(pages, spt, parents, unsync, childBits, root, pvec0, paths0, prefix, r, child, start);
      if full {
        return -ENOSPC, pvec, paths;
      }
      n := 1;
      if childCount[child] != 0 {
        ghost var before := childBits;
        n, pvec, paths := WalkUnsync(child, pvec, paths, root, prefix + [r], start);
        if n < 0 {
          return;
        }
        if n == 0 {
          EmptiedDiffers(pages, spt, unsync, before, childBits, root, pvec0, paths0, prefix, r.page, start, child);
          ChildFacts(pages, spt, parents, unsync, childBits, childCount, r);
        }
      }
      WalkBack(pages, spt, unsync, childBits, root, pvec, paths, prefix, r, child, start);
    }

    /** mmu_unsync_walk. */
    method UnsyncWalk(root: PageId, ghost freed: set<PageId>)
      returns (ret: int, pvec: seq<PvecEntry>, ghost paths: seq<seq<SpteRef>>)
      requires Sound(freed) && root in pages
      modifies this`childBits, this`childCount
      ensures Sound(freed) && Shrunk(old(childBits), childBits)
      ensures ret == 0 ==> root in childCount && childCount[root] == 0
      ensures ret != 0 ==> Reading(pages, spt, parents, spt, unsync, childBits, root, pvec, paths, 0)
      ensures ret != 0 && childBits == old(childBits) ==> HasLeaf(pages, pvec)
      ensures ret != 0 ==> pages[root].level != 1
    {
      hide Graph, Marks, Walking, Walked, Reading, HasLeaf, Shrunk, OnlyBelow, Mapped, Balanced, Guarded, Backed,
           Listed;
      BitsFacts(pages, spt, unsync, childBits, childCount, root);
      if childCount[root] == 0 {
        return 0, [], [];
      }
      RootFacts(pages, spt, unsync, childBits, childCount, root);
      var full;
      pvec, full := PagesAdd([], root, INVALID_INDEX);
      assert pvec == [PvecEntry(root, INVALID_INDEX)];
      WalkStart(pages, spt, unsync, childBits, root);
      ret, pvec, paths := WalkUnsync(root, pvec, [[]], root, [], childBits);
      if ret == 0 {
        BitsFacts(pages, spt, unsync, childBits, childCount, root);
      } else {
        WalkEnds(pages, spt, parents, unsync, childBits, root, pvec, paths, old(childBits), ret);
      }
    }

    /** mmu_pages_next: the next leaf, with the path buffer brought up to date. */
    method PagesNext(pvec: seq<PvecEntry>, buf0: PagePath, i: nat, ghost spt0: Spt, ghost parents0: Parents,
                     ghost root: PageId, ghost paths: seq<seq<SpteRef>>)
      returns (n: nat, buf: PagePath)
      requires Graph(pages, spt0, parents0) && root in pages && Listing(pages, spt0, root, pvec, paths)
      requires i < |pvec| && Holds(buf0, pages[root].level, paths[i], pvec[i].page)
      ensures i < n <= |pvec|
      ensures forall k | i < k < n :: !IsLeafEntry(pages, pvec[k])
      ensures n < |pvec| ==> IsLeafEntry(pages, pvec[n]) && Holds(buf, pages[root].level, paths[n], pvec[n].page)
    {
      hide Graph, Listing, Holds;
      ListingFacts(pages, spt0, root, pvec, paths);
      n, buf := i + 1, buf0;
      while n < |pvec|
        invariant i < n <= |pvec| == |paths|
        invariant forall k | i < k < n :: !IsLeafEntry(pages, pvec[k])
        invariant Holds(buf, pages[root].level, paths[n - 1], pvec[n - 1].page)
      {
        var p := pvec[n].page;
        ListedLevel(pages, spt0, parents0, root, pvec, paths, n);
        HoldsNext(pages, spt0, root, buf, pvec, paths, n);
        var level := pages[p].level;
        buf := buf.(idx := buf.idx[level - 1 := pvec[n].index]);
        if level == 1 {
          break;
        }
        buf := buf.(parent := buf.parent[level - 2 := Some(p)]);
        n := n + 1;
      }
    }

    /** mmu_pages_first. */
    method PagesFirst(pvec: seq<PvecEntry>, ghost spt0: Spt, ghost parents0: Parents, ghost root: PageId,
                      ghost paths: seq<seq<SpteRef>>)
      returns (n: nat, buf: PagePath)
      requires Graph(pages, spt0, parents0) && root in pages && Listing(pages, spt0, root, pvec, paths)
      requires 1 < pages[root].level
      ensures 0 < n <= |pvec|
      ensures forall k | 0 <= k < n :: !IsLeafEntry(pages, pvec[k])
      ensures n < |pvec| ==> IsLeafEntry(pages, pvec[n]) && Holds(buf, pages[root].level, paths[n], pvec[n].page)
    {
      hide Graph, HangsOff, IsPath;
      PageFacts(pages, spt0, parents0, root);
      var level := pages[pvec[0].page].level;
      var parent := seq(ROOT_MAX_LEVEL, _ => None);
      var idx := seq(ROOT_MAX_LEVEL, _ => INVALID_INDEX);
      parent := parent[level - 2 := Some(pvec[0].page)];
      parent := parent[level - 1 := None];
      n, buf := PagesNext(pvec, PagePath(parent, idx), 0, spt0, parents0, root, paths);
    }

    /** mmu_pages_clear_parents: entry `n` has been handled; clear the bit that led to it and, while a page
      runs out of bits, the bit that led to that page. Every bit cleared here was set. */
    method ClearParents(buf: PagePath, ghost spt0: Spt, ghost parents0: Parents, ghost root: PageId,
                        ghost pvec: seq<PvecEntry>, ghost paths: seq<seq<SpteRef>>, ghost n: nat)
      requires Marks(pages, spt, unsync, childBits, childCount)
      requires Reading(pages, spt0, parents0, spt, unsync, childBits, root, pvec, paths, n + 1)
      requires n < |pvec| == |paths| && IsLeafEntry(pages, pvec[n]) && 1 < pages[root].level
      requires Holds(buf, pages[root].level, paths[n], pvec[n].page)
      requires PathSet(childBits, paths[n]) && !Stale(unsync, childCount, pvec[n].page)
      modifies this`childBits, this`childCount
      ensures Marks(pages, spt, unsync, childBits, childCount)
      ensures Reading(pages, spt0, parents0, spt, unsync, childBits, root, pvec, paths, n + 1)
      ensures Shrunk(old(childBits), childBits) && childBits != old(childBits)
    {
      hide Graph, Listing, Marks, Reading, PathSet, Shrunk, IsPath;
      ghost var path, last := paths[n], pvec[n].page;
      ReadingFacts(pages, spt0, parents0, spt, unsync, childBits, root, pvec, paths, n + 1, n);
      assert path[..|path|] == path;
      var level := 0;
      while true
        invariant 0 <= level <= |path|
        invariant Marks(pages, spt, unsync, childBits, childCount)
        invariant Reading(pages, spt0, parents0, spt, unsync, childBits, root, pvec, paths, n + 1)
        invariant PathSet(childBits, path[..|path| - level])
        invariant !Stale(unsync, childCount, NodeAt(path, last, |path| - level))
        invariant if level == 0 then childBits == old(childBits)
                  else Shrunk(old(childBits), childBits) && childBits != old(childBits)
        decreases |path| - level
      {
        var idx, parent := buf.idx[level], buf.parent[level];
        if parent == None {
          break;
        }
        ghost var before := childBits;
        ClearOne(parent.value, idx, spt0, parents0, root, pvec, paths, n + 1, path, last, |path| - level - 1);
        if 0 < level {
          ShrunkTransitive(old(childBits), before, childBits);
        }
        level := level + 1;
        if childCount[parent.value] != 0 {
          break;
        }
      }
    }

    /** One level up: the bit that led to a page which is no longer stale. */
    method ClearOne(parent: PageId, idx: nat, ghost spt0: Spt, ghost parents0: Parents, ghost root: PageId,
                    ghost pvec: seq<PvecEntry>, ghost paths: seq<seq<SpteRef>>, ghost from: nat,
                    ghost path: seq<SpteRef>, ghost last: PageId, ghost k: nat)
      requires Marks(pages, spt, unsync, childBits, childCount)
      requires Reading(pages, spt0, parents0, spt, unsync, childBits, root, pvec, paths, from)
      requires Graph(pages, spt0, parents0) && root in pages && IsPath(spt0, root, path, last) && k < |path|
      requires path[k] == SpteRef(parent, idx) && PathSet(childBits, path[..k + 1])
      requires !Stale(unsync, childCount, NodeAt(path, last, k + 1))
      modifies this`childBits, this`childCount
      ensures PathSet(childBits, path[..k]) && parent in childCount
      ensures childCount[parent] == 0 ==> !Stale(unsync, childCount, parent)
      ensures Shrunk(old(childBits), childBits) && childBits != old(childBits)
      ensures Reading(pages, spt0, parents0, spt, unsync, childBits, root, pvec, paths, from)
      ensures Marks(pages, spt, unsync, childBits, childCount)
    {
      hide Graph, Listing, Marks, Reading, PathSet, Shrunk, IsPath;
      ClearUp(pages, spt0, parents0, spt, unsync, childBits, childCount, root, pvec, paths, from, path, last, k);
      ClearUnsyncChildBit(parent, idx);
      NotUnsync(pages, spt0, parents0, spt, unsync, childBits, childCount, root, path, last, k);
    }

    // -------------------------------------------------- zapping

    method DropSpte(r: SpteRef)
      requires Graph(pages, spt, parents) && Mapped(pages, spt, rmap)
      requires r in spt ==> !spt[r].Link?
      modifies this`spt, this`rmap
      ensures spt == old(spt) - {r}
      ensures Graph(pages, spt, parents) && Mapped(pages, spt, rmap)
    {
      hide Graph, Mapped;
      DropEntry(pages, spt, parents, r);
      if r in spt && spt[r].Leaf? {
        UnmapLeaf(pages, spt, rmap, r);
        var b := BucketOf(pages[r.page].level, spt[r].gfn);
        rmap := rmap[b := rmap[b] - {r}];
      } else {
        UnmapOther(pages, spt, rmap, r);
      }
      spt := spt - {r};
    }

    method DropParentPte(child: PageId, r: SpteRef)
      requires Graph(pages, spt, parents) && Mapped(pages, spt, rmap)
      requires r in spt && spt[r] == Link(child)
      modifies this`spt, this`parents
      ensures spt == old(spt) - {r} && parents == old(parents[child := parents[child] - {r}])
      ensures Graph(pages, spt, parents) && Mapped(pages, spt, rmap)
    {
      DropEntry(pages, spt, parents, r);
      UnmapOther(pages, spt, rmap, r);
      hide Mapped;
      parents := parents[child := parents[child] - {r}];
      spt := spt - {r};
    }

    /** mmu_page_zap_pte. */
    method ZapPte(r: SpteRef) returns (present: bool)
      requires Graph(pages, spt, parents) && Mapped(pages, spt, rmap)
      modifies this`spt, this`parents, this`rmap
      ensures spt == old(spt) - {r} && parents == old(ParentsWithout(spt, parents, r))
      ensures Graph(pages, spt, parents) && Mapped(pages, spt, rmap)
      ensures present <==> r in old(spt) && !old(spt[r]).Mmio?
    {
      hide Graph, Mapped;
      present := r in spt && !spt[r].Mmio?;
      if r in spt && spt[r].Link? {
        LinkChild(pages, spt, parents, r);
        DropParentPte(spt[r].child, r);
      } else {
        DropSpte(r);
      }
    }

    method UnlinkChildren(p: PageId)
      requires Graph(pages, spt, parents) && Mapped(pages, spt, rmap)
      modifies this`spt, this`parents, this`rmap
      ensures Graph(pages, spt, parents) && Mapped(pages, spt, rmap)
      ensures forall r | r in old(spt) && r.page != p :: r in spt
      ensures forall r | r in spt :: r.page != p && r in old(spt) && spt[r] == old(spt)[r]
    {
      hide Graph, Mapped, ParentsWithout;
      for i := 0 to ENT_PER_PAGE
        invariant Graph(pages, spt, parents) && Mapped(pages, spt, rmap)
        invariant forall r | r in old(spt) && (r.page != p || i <= r.index) :: r in spt
        invariant forall r | r in spt :: (r.page != p || i <= r.index) && r in old(spt) && spt[r] == old(spt)[r]
      {
        var present := ZapPte(SpteRef(p, i));
      }
      IndexBound(pages, spt, parents);
    }

    method UnlinkParents(p: PageId)
      requires Graph(pages, spt, parents) && Mapped(pages, spt, rmap) && p in pages
      modifies this`spt, this`parents
      ensures Graph(pages, spt, parents) && Mapped(pages, spt, rmap)
      ensures p in parents && parents[p] == {}
      ensures forall r | r in old(spt) && old(spt)[r] != Link(p) :: r in spt
      ensures forall r | r in spt :: r in old(spt) && spt[r] == old(spt)[r] && spt[r] != Link(p)
    {
      hide Graph, Mapped;
      PageFacts(pages, spt, parents, p);
      while parents[p] != {}
        invariant Graph(pages, spt, parents) && Mapped(pages, spt, rmap)
        invariant p in parents && forall r | r in parents[p] :: r in spt && spt[r] == Link(p)
        invariant forall r | r in old(spt) && old(spt)[r] != Link(p) :: r in spt
        invariant forall r | r in spt :: r in old(spt) && spt[r] == old(spt)[r]
        decreases |parents[p]|
      {
        var r :| r in parents[p];
        DropParentPte(p, r);
      }
      NoParents(pages, spt, parents, p);
    }

    method UnaccountShadowed(p: PageId)
      requires p in pages
      modifies this`gfnTrack, this`disallow, this`indirect
      ensures Stepped(old(gfnTrack), old(disallow), old(indirect), gfnTrack, disallow, indirect, pages[p], -1)
    {
      indirect := indirect - 1;
      if 1 < pages[p].level {
        gfnTrack := AddTrack(gfnTrack, pages[p].gfn, -1);
      }
      disallow := AddDisallow(disallow, pages[p].gfn, -1);
    }

    method Unaccount(p: PageId)
      requires p in pages && Balanced(pages, invalid, gfnTrack, disallow, aligned, indirect)
      modifies this`gfnTrack, this`disallow, this`indirect
      ensures Balanced(pages, invalid + {p}, gfnTrack, disallow, aligned, indirect)
    {
      hide Balanced, Stepped;
      if p !in invalid && !pages[p].direct {
        UnaccountShadowed(p);
        BalancedRemove(pages, invalid, old(gfnTrack), old(disallow), aligned, old(indirect), gfnTrack, disallow,
                       indirect, p);
      } else {
        BalancedSame(pages, invalid, gfnTrack, disallow, aligned, indirect, pages, invalid + {p});
      }
    }

    ghost function Lists(): ZapState
      reads this`active, this`zapped, this`invalid, this`unsync, this`spt
    {
      ZapState(active, zapped, invalid, unsync, spt)
    }

    /** Remove every entry of `p` and every link to it. */
    method Unlink(p: PageId)
      requires Graph(pages, spt, parents) && Mapped(pages, spt, rmap) && p in pages
      modifies this`spt, this`parents, this`rmap
      ensures Graph(pages, spt, parents) && Mapped(pages, spt, rmap) && Severed(old(spt), spt, {p})
    {
      hide Graph, Mapped, Severed;
      UnlinkChildren(p);
      ghost var spt1 := spt;
      UnlinkParents(p);
      SeverOne(old(spt), spt1, spt, p);
    }

    /** The last lines of vmrun_mmu_prepare_zap_page: flags and list position of a page without links. */
    method Retire(p: PageId, ghost freed: set<PageId>) returns (n: nat)
      requires p in rootCount && Graph(pages, spt, parents) && Mapped(pages, spt, rmap)
      requires Marks(pages, spt, unsync - {p}, childBits, childCount)
      requires Guarded(pages, spt, unsync - {p}, invalid + {p}, validGen) && Backed(spt, changed)
      requires Balanced(pages, invalid + {p}, gfnTrack, disallow, aligned, indirect)
      requires Detached(spt, parents, unsync - {p}, invalid + {p}, rootCount, ZappedAfter(zapped, rootCount, p))
      requires ListShape(pages, invalid + {p}, rootCount, AfterZap(active, rootCount, p),
                         ZappedAfter(zapped, rootCount, p), nUsed - if rootCount[p] == 0 then 1 else 0)
      requires Held(invalid + {p}, rootCount, AfterZap(active, rootCount, p), freed)
      requires Ordered(pages, invalid + {p}, AfterZap(active, rootCount, p), validGen)
      modifies this`unsync, this`invalid, this`active, this`zapped, this`nUsed
      ensures Sound(freed) && unsync == old(unsync) - {p} && invalid == old(invalid) + {p}
      ensures n == (if rootCount[p] == 0 then 1 else 0)
      ensures active == AfterZap(old(active), rootCount, p) && zapped == ZappedAfter(old(zapped), rootCount, p)
    {
      hide Graph, Marks, Mapped, Balanced, Guarded, Backed, ListShape, Detached, Held, Ordered, AfterZap, ZappedAfter;
      n := MoveZapped(p);
    }

    method MoveZapped(p: PageId) returns (n: nat)
      requires p in rootCount
      modifies this`unsync, this`invalid, this`active, this`zapped, this`nUsed
      ensures n == (if rootCount[p] == 0 then 1 else 0) && nUsed == old(nUsed) - n
      ensures unsync == old(unsync) - {p} && invalid == old(invalid) + {p}
      ensures active == AfterZap(old(active), rootCount, p) && zapped == ZappedAfter(old(zapped), rootCount, p)
    {
      unsync := unsync - {p};
      if rootCount[p] == 0 {
        n := 1;
        active, zapped, nUsed := Remove(active, p), zapped + {p}, nUsed - 1;
      } else {
        n := 0;
        active := [p] + Remove(active, p);
      }
      invalid := invalid + {p};
    }

    /** vmrun_mmu_prepare_zap_page after the unsync children are gone. */
    method ZapSelf(p: PageId, ghost freed: set<PageId>) returns (n: nat)
      requires Sound(freed + {p}) && p in active
      modifies this`spt, this`parents, this`unsync, this`rmap, this`invalid,
               this`active, this`zapped, this`nUsed, this`gfnTrack, this`disallow, this`indirect
      ensures Sound(freed)
      ensures Took(old(Lists()), Lists(), {p}, n)
      ensures p in pages && p in rootCount && n == (if rootCount[p] == 0 then 1 else 0)
      ensures active == AfterZap(old(active), rootCount, p) && zapped == ZappedAfter(old(zapped), rootCount, p)
    {
      hide Graph, Marks, Mapped, Balanced, Guarded, Backed, ListShape, Detached, Held, Ordered, Severed, Took, Remove,
           AfterZap, ZappedAfter;
      ListsAfterZap(pages, invalid, rootCount, active, zapped, nUsed, validGen, p, freed);
      Unlink(p);
      TookSelf(old(Lists()), rootCount, p, spt);
      ZapKeeps(pages, old(spt), old(parents), unsync, childBits, childCount, spt, parents, invalid, rootCount, zapped,
               validGen, p);
      SeveredBacked(old(spt), spt, {p}, changed);
      Unaccount(p);
      n := Retire(p, freed);
    }

    /** vmrun_mmu_prepare_zap_page. */
    method PrepareZap(p: PageId, ghost freed: set<PageId>) returns (ret: nat)
      requires Sound(freed + {p}) && p in active
      modifies this`spt, this`parents, this`unsync, this`childBits, this`childCount, this`rmap, this`invalid,
               this`active, this`zapped, this`nUsed, this`gfnTrack, this`disallow, this`indirect
      ensures Sound(freed)
      ensures Took(old(Lists()), Lists(), {p}, ret)
      ensures p in pages && p in rootCount && (p in zapped <==> rootCount[p] == 0)
      ensures ret == 0 ==> active == [p] + Remove(old(active), p) && zapped == old(zapped)
      ensures Shrunk(old(childBits), childBits)
      ensures pages[p].level == 1 ==>
                ret == 1 && zapped == old(zapped) + {p} && childBits == old(childBits) && childCount == old(childCount)
      decreases if p in pages then pages[p].level else 0, 3
    {
      hide Graph, Marks, Mapped, Balanced, Guarded, Backed, ListShape, Detached, Held, Ordered, Shrunk, Took, Remove;
      ListFacts(pages, invalid, rootCount, active, zapped, nUsed, p);
      ret := ZapUnsyncChildren(p, freed);
      ListFacts(pages, invalid, rootCount, active, zapped, nUsed, p);
      ghost var lists := Lists();
      var n := ZapSelf(p, freed);
      TookThen(old(Lists()), lists, Lists(), {}, {p}, ret, n);
      assert {} + {p} == {p};
      ret := ret + n;
    }

    /** mmu_zap_unsync_children. */
    method ZapUnsyncChildren(parent: PageId, ghost freed: set<PageId>) returns (n: nat)
      requires Sound(freed + {parent}) && parent in active
      modifies this`spt, this`parents, this`unsync, this`childBits, this`childCount, this`rmap, this`invalid,
               this`active, this`zapped, this`nUsed, this`gfnTrack, this`disallow, this`indirect
      ensures Sound(freed + {parent}) && parent in active && parent in pages
      ensures Took(old(Lists()), Lists(), {}, n)
      ensures n == 0 ==> active == old(active) && zapped == old(zapped)
      ensures Shrunk(old(childBits), childBits)
      ensures pages[parent].level == 1 ==> n == 0 && childBits == old(childBits) && childCount == old(childCount)
      ensures parent in childCount && childCount[parent] == 0
      decreases if parent in pages then pages[parent].level else 0, 2
    {
      hide Sound, Shrunk, Took, Reading, HasLeaf, BitSet;
      n := 0;
      SoundPage(freed + {parent}, parent);
      TookNone(Lists());
      if pages[parent].level == 1 {
        return;
      }
      while true
        invariant Sound(freed + {parent}) && parent in active
        invariant Took(old(Lists()), Lists(), {}, n)
        invariant n == 0 ==> active == old(active) && zapped == old(zapped)
        invariant Shrunk(old(childBits), childBits)
        decreases |BitSet(childBits)|
      {
        ghost var bits0, lists0 := childBits, Lists();
        var walked, pvec;
        ghost var paths;
        walked, pvec, paths := UnsyncWalk(parent, freed + {parent});
        if walked == 0 {
          ShrunkTransitive(old(childBits), bits0, childBits);
          break;
        }
        var k := ZapListed(parent, pvec, paths, freed, bits0);
        ShrunkTransitive(old(childBits), bits0, childBits);
        FewerBits(bits0, childBits);
        TookThen(old(Lists()), lists0, Lists(), {}, {}, n, k);
        n := n + k;
      }
    }

    /** ClearParents for a listed leaf that has just lost its flag, with the whole invariant. */
    method ClearAbove(buf: PagePath, ghost spt0: Spt, ghost parents0: Parents, ghost root: PageId,
                      ghost pvec: seq<PvecEntry>, ghost paths: seq<seq<SpteRef>>, ghost n: nat,
                      ghost freed: set<PageId>)
      requires Sound(freed) && root in pages && 1 < pages[root].level
      requires Reading(pages, spt0, parents0, spt, unsync, childBits, root, pvec, paths, n + 1)
      requires n < |pvec| == |paths| && IsLeafEntry(pages, pvec[n]) && pvec[n].page !in unsync
      requires Holds(buf, pages[root].level, paths[n], pvec[n].page) && PathSet(childBits, paths[n])
      modifies this`childBits, this`childCount
      ensures Reading(pages, spt0, parents0, spt, unsync, childBits, root, pvec, paths, n + 1)
      ensures Shrunk(old(childBits), childBits) && childBits != old(childBits)
      ensures Sound(freed)
    {
      hide Graph, Marks, Mapped, Balanced, Guarded, Backed, Listed, Shrunk, Reading, Holds, PathSet;
      NotStale(pages, spt, unsync, childBits, childCount, pvec[n].page);
      ClearParents(buf, spt0, parents0, root, pvec, paths, n);
    }

    /** One round of the for_each_sp loop of mmu_zap_unsync_children. */
    method ZapEntry(buf: PagePath, pvec: seq<PvecEntry>, ghost paths: seq<seq<SpteRef>>, i: nat, ghost parent: PageId,
                    ghost freed: set<PageId>, ghost spt0: Spt, ghost parents0: Parents)
      requires Sound(freed + {parent}) && parent in active && parent in pages && 1 < pages[parent].level
      requires Reading(pages, spt0, parents0, spt, unsync, childBits, parent, pvec, paths, i)
      requires i < |pvec| == |paths| && IsLeafEntry(pages, pvec[i])
               && Holds(buf, pages[parent].level, paths[i], pvec[i].page)
      modifies this`spt, this`parents, this`unsync, this`childBits, this`childCount, this`rmap, this`invalid,
               this`active, this`zapped, this`nUsed, this`gfnTrack, this`disallow, this`indirect
      ensures Took(old(Lists()), Lists(), {}, 1)
      ensures Reading(pages, spt0, parents0, spt, unsync, childBits, parent, pvec, paths, i + 1)
      ensures Shrunk(old(childBits), childBits) && childBits != old(childBits)
      ensures Sound(freed + {parent}) && parent in active
      decreases pages[parent].level, 0
    {
      hide Graph, Marks, Mapped, Balanced, Guarded, Backed, ListShape, Detached, Held, Ordered, Shrunk, Took;
      hide Reading, Holds, PathSet, Remove;
      var leaf := pvec[i].page;
      ReadingFacts(pages, spt0, parents0, spt, unsync, childBits, parent, pvec, paths, i, i);
      UnsyncActive(pages, spt, parents, unsync, invalid, rootCount, active, zapped, nUsed, leaf);
      ListFacts(pages, invalid, rootCount, active, zapped, nUsed, parent);
      HeldMore(invalid, rootCount, active, freed + {parent}, freed + {parent} + {leaf});
      var k := PrepareZap(leaf, freed + {parent});
      TookLeaf(old(Lists()), Lists(), leaf, k);
      TookActive(old(Lists()), Lists(), {}, k, parent);
      ReadOn(pages, spt0, parents0, old(spt), old(unsync), childBits, parent, pvec, paths, i, spt, unsync);
      ClearAbove(buf, spt0, parents0, parent, pvec, paths, i, freed + {parent});
    }

    /** The for_each_sp loop of mmu_zap_unsync_children. */
    method ZapListed(parent: PageId, pvec: seq<PvecEntry>, ghost paths: seq<seq<SpteRef>>, ghost freed: set<PageId>,
                     ghost bits0: Bits)
      returns (n: nat)
      requires Sound(freed + {parent}) && parent in active && parent in pages && 1 < pages[parent].level
      requires Reading(pages, spt, parents, spt, unsync, childBits, parent, pvec, paths, 0)
      requires Shrunk(bits0, childBits) && (childBits == bits0 ==> HasLeaf(pages, pvec))
      modifies this`spt, this`parents, this`unsync, this`childBits, this`childCount, this`rmap, this`invalid,
               this`active, this`zapped, this`nUsed, this`gfnTrack, this`disallow, this`indirect
      ensures Sound(freed + {parent}) && parent in active
      ensures Took(old(Lists()), Lists(), {}, n)
      ensures n == 0 ==> active == old(active) && zapped == old(zapped)
      ensures Shrunk(bits0, childBits) && childBits != bits0
      decreases pages[parent].level, 1
    {
      hide Sound, Graph, Shrunk, Took, Reading, Listing, Holds, HasLeaf;
      ghost var spt0, parents0 := spt, parents;
      n := 0;
      TookNone(Lists());
      ReadingStart(pages, spt, parents, unsync, childBits, parent, pvec, paths);
      var i, buf := PagesFirst(pvec, spt0, parents0, parent, paths);
      SkipTo(pages, spt0, parents0, spt, unsync, childBits, parent, pvec, paths, 0, i);
      NoLeafBefore(pages, pvec, i);
      while i < |pvec|
        invariant 0 < i <= |pvec| == |paths|
        invariant Sound(freed + {parent}) && parent in active
        invariant Took(old(Lists()), Lists(), {}, n)
        invariant n == 0 ==> active == old(active) && zapped == old(zapped)
        invariant Reading(pages, spt0, parents0, spt, unsync, childBits, parent, pvec, paths, i)
        invariant i < |pvec| ==> IsLeafEntry(pages, pvec[i]) && Holds(buf, pages[parent].level, paths[i], pvec[i].page)
        invariant Shrunk(bits0, childBits) && (childBits == bits0 ==> i < |pvec|)
      {
        ghost var lists, bits1 := Lists(), childBits;
        ZapEntry(buf, pvec, paths, i, parent, freed, spt0, parents0);
        TookThen(old(Lists()), lists, Lists(), {}, {}, n, 1);
        ShrunkTransitive(bits0, bits1, childBits);
        n := n + 1;
        var next;
        next, buf := PagesNext(pvec, buf, i, spt0, parents0, parent, paths);
        SkipTo(pages, spt0, parents0, spt, unsync, childBits, parent, pvec, paths, i + 1, next);
        i := next;
      }
    }

    /** vmrun_mmu_commit_zap_page: free the zapped pages. */
    method CommitZap(ghost freed: set<PageId>)
      requires Sound(freed)
      modifies this`pages, this`parents, this`childBits, this`childCount, this`rootCount, this`invalid, this`zapped
      ensures Sound(freed)
      ensures zapped == {} && pages == old(pages) - old(zapped) && invalid == old(invalid) - old(zapped)
      ensures childBits == old(childBits) - old(zapped)
      ensures childCount == old(childCount) - old(zapped) && rootCount == old(rootCount) - old(zapped)
    {
      hide Graph, Marks, Mapped, Balanced, Guarded, Backed, Held, Ordered, ListShape, Detached;
      CommitAll(pages, spt, parents, unsync, childBits, childCount, rmap, invalid, rootCount, active, zapped, nUsed,
                validGen, freed, gfnTrack, disallow, aligned, indirect);
      FreeZapped();
    }

    /** vmrun_mmu_free_page on every zapped page. */
    method FreeZapped()
      modifies this`pages, this`parents, this`childBits, this`childCount, this`rootCount, this`invalid, this`zapped
      ensures zapped == {} && pages == old(pages) - old(zapped) && parents == old(parents) - old(zapped)
      ensures childBits == old(childBits) - old(zapped) && childCount == old(childCount) - old(zapped)
      ensures rootCount == old(rootCount) - old(zapped) && invalid == old(invalid) - old(zapped)
    {
      pages, parents := pages - zapped, parents - zapped;
      childBits, childCount := childBits - zapped, childCount - zapped;
      rootCount, invalid := rootCount - zapped, invalid - zapped;
      zapped := {};
    }

    // -------------------------------------------------- write protection

    /** spte_write_protect; the result asks for a flush. */
    method SpteWriteProtect(r: SpteRef, ptProtect: bool) returns (flush: bool)
      requires r in spt && spt[r].Leaf?
      modifies this`spt
      ensures spt == old(spt)[r := WriteProtected(old(spt)[r], ptProtect)]
      ensures Weakened(old(spt), spt)
      ensures flush <==> FlushNeeded(old(spt)[r], ptProtect)
    {
      var e := spt[r];
      if !e.w && !(ptProtect && e.hostW && e.mmuW) {
        return false;
      }
      var e' := e.(w := false);
      if ptProtect {
        e' := e'.(mmuW := false);
      }
      spt := spt[r := e'];
      flush := e.hostW && e.mmuW;
    }

    /** __rmap_write_protect. */
    method RmapWriteProtect(b: Bucket, ptProtect: bool) returns (flush: bool)
      requires Graph(pages, spt, parents) && Mapped(pages, spt, rmap)
      modifies this`spt
      ensures Graph(pages, spt, parents) && Mapped(pages, spt, rmap) && Weakened(old(spt), spt)
      ensures forall r | r in Chain(rmap, b) :: r in spt && spt[r] == WriteProtected(old(spt)[r], ptProtect)
      ensures spt.Keys == old(spt).Keys && forall r | r in spt && r !in Chain(rmap, b) :: spt[r] == old(spt)[r]
      ensures flush <==> spt != old(spt)
    {
      hide Graph, Mapped, Weakened;
      flush := false;
      var todo := Chain(rmap, b);
      WeakenedRefl(spt);
      ChainFacts(pages, spt, rmap, b);
      while todo != {}
        invariant todo <= Chain(rmap, b)
        invariant Weakened(old(spt), spt) && spt.Keys == old(spt).Keys
        invariant forall r | r in Chain(rmap, b) :: r in old(spt) && old(spt)[r].Leaf?
        invariant forall r | r in spt && (r in todo || r !in Chain(rmap, b)) :: spt[r] == old(spt)[r]
        invariant forall r | r in Chain(rmap, b) && r !in todo :: spt[r] == WriteProtected(old(spt)[r], ptProtect)
        invariant flush <==>
                    exists r | r in Chain(rmap, b) - todo :: r in old(spt) && FlushNeeded(old(spt)[r], ptProtect)
        decreases |todo|
      {
        var r :| r in todo;
        todo := todo - {r};
        ghost var before := spt;
        var f := SpteWriteProtect(r, ptProtect);
        WeakenedTransitive(old(spt), before, spt);
        flush := flush || f;
      }
      FlushIsChange(pages, old(spt), spt, parents, Chain(rmap, b), ptProtect, flush);
      WeakenedKeeps(pages, old(spt), spt, parents, rmap);
    }

    /** vmrun_mmu_slot_gfn_write_protect. */
    method GfnWriteProtect(gfn: Gfn) returns (flush: bool)
      requires Graph(pages, spt, parents) && Mapped(pages, spt, rmap)
      modifies this`spt
      ensures Graph(pages, spt, parents) && Mapped(pages, spt, rmap) && Weakened(old(spt), spt)
      ensures spt == GfnProtected(pages, old(spt), gfn) && Protected(pages, spt, gfn)
      ensures flush <==> spt != old(spt)
    {
      hide Graph, Mapped, Weakened, Protected, ProtectedBelow, GfnProtected, WriteProtected;
      flush := false;
      ProtectEnds(pages, spt, parents, gfn);
      for i := 1 to MAX_HUGEPAGE_LEVEL + 1
        invariant Graph(pages, spt, parents) && Mapped(pages, spt, rmap)
        invariant spt == ProtectedBelow(pages, old(spt), gfn, i) && (flush <==> spt != old(spt))
      {
        ghost var before := spt;
        ChainFacts(pages, spt, rmap, BucketOf(i, gfn));
        var f := RmapWriteProtect(BucketOf(i, gfn), true);
        ProtectStep(pages, old(spt), before, spt, rmap, gfn, i);
        flush := flush || f;
      }
      GfnProtects(pages, old(spt), gfn);
    }

    // -------------------------------------------------- linking and unsyncing

    /** link_shadow_page: the entry must not be present. */
    method LinkShadowPage(r: SpteRef, child: PageId)
      requires Sound({}) && r.page in active && child in active && r !in spt && r.index < ENT_PER_PAGE
      requires r.page in pages && child in pages && pages[child].level + 1 == pages[r.page].level
      requires pages[r.page].direct ==> DirectEntry(pages, pages[r.page], r.index, Link(child))
      modifies this`spt, this`parents, this`childBits, this`childCount
      ensures spt == old(spt)[r := Link(child)]
      ensures child in childCount && (Stale(unsync, childCount, child) ==> EdgeSet(childBits, r))
      ensures Sound({})
    {
      hide Graph, MarksExcept, Mapped, Balanced, Guarded, Backed, ListShape, Detached, Held, Ordered, Justified;
      LinkAll(pages, spt, parents, unsync, childBits, childCount, rmap, invalid, rootCount, active, zapped, nUsed,
              validGen, changed, r, child);
      StoreLink(r, child);
      if childCount[child] != 0 || child in unsync {
        MarkUnsync(r, {});
      }
      MarkedLink(pages, spt, parents, unsync, childBits, childCount, r);
    }

    /** The two sides of a link: the entry, and mmu_page_add_parent_pte. */
    method StoreLink(r: SpteRef, child: PageId)
      requires child in parents
      modifies this`spt, this`parents
      ensures spt == old(spt)[r := Link(child)]
      ensures parents == old(parents)[child := old(parents)[child] + {r}]
    {
      spt := spt[r := Link(child)];
      parents := parents[child := parents[child] + {r}];
    }

    /** vmrun_unsync_page. */
    method UnsyncPage(p: PageId)
      requires Sound({}) && p in pages && p !in invalid && pages[p].level == 1 && !pages[p].direct
      modifies this`unsync, this`childBits, this`childCount
      ensures Sound({}) && unsync == old(unsync) + {p}
    {
      hide Graph, MarksExcept, Mapped, Balanced, Guarded, Backed, ListShape, Held, Ordered, Justified;
      PageFacts(pages, spt, parents, p);
      UnsyncMarks(pages, spt, parents, unsync, childBits, childCount, p);
      UnsyncGuarded(pages, spt, unsync, invalid, validGen, {p});
      unsync := unsync + {p};
      MarkParentsUnsync(p, {});
    }

    predicate TrackActive(gfn: Gfn)
      reads this`gfnTrack
    {
      Get(gfnTrack, gfn) != 0
    }

    /** mmu_need_write_protect. If it answers no, every valid page shadowing `gfn` is now unsync,
      and there was none at all if `canUnsync` is false. */
    method NeedWriteProtect(gfn: Gfn, canUnsync: bool) returns (need: bool)
      requires Sound({})
      modifies this`unsync, this`childBits, this`childCount
      ensures Sound({}) && old(unsync) <= unsync
      ensures need <==> TrackActive(gfn) || (!canUnsync && IndirectValid(pages, invalid, validGen, gfn) != {})
      ensures need ==> unsync == old(unsync)
      ensures !canUnsync ==> childBits == old(childBits) && childCount == old(childCount)
      ensures !need ==> unsync == old(unsync) + IndirectValid(pages, invalid, validGen, gfn)
    {
      hide Graph, Marks, Mapped, Balanced, Guarded, Backed, Listed;
      if TrackActive(gfn) {
        return true;
      }
      var sps := IndirectValid(pages, invalid, validGen, gfn);
      var todo := sps;
      while todo != {}
        invariant todo <= sps && (!canUnsync ==> todo == sps)
        invariant Sound({}) && unsync == old(unsync) + (sps - todo)
        invariant !canUnsync ==> childBits == old(childBits) && childCount == old(childCount)
        decreases |todo|
      {
        if !canUnsync {
          return true;
        }
        var p :| p in todo;
        todo := todo - {p};
        UntrackedIsLevelOne(pages, invalid, gfnTrack, disallow, aligned, indirect, p);
        PageFacts(pages, spt, parents, p);
        if p !in unsync {
          UnsyncPage(p);
        }
      }
      need := false;
    }

    // -------------------------------------------------- creating pages

    /** account_shadowed with vmrun_slot_page_track_add_page, and the write protection of the new page's frame. */
    method AccountShadowed(p: PageId)
      requires p in pages && Graph(pages, spt, parents) && Mapped(pages, spt, rmap)
      modifies this`spt, this`gfnTrack, this`disallow, this`indirect
      ensures Graph(pages, spt, parents) && Mapped(pages, spt, rmap) && Weakened(old(spt), spt)
      ensures Stepped(old(gfnTrack), old(disallow), old(indirect), gfnTrack, disallow, indirect, pages[p], 1)
      ensures Protected(pages, spt, pages[p].gfn) && spt == GfnProtected(pages, old(spt), pages[p].gfn)
    {
      hide Graph, Mapped, Weakened, Protected, GfnProtected;
      indirect := indirect + 1;
      if 1 < pages[p].level {
        gfnTrack := AddTrack(gfnTrack, pages[p].gfn, 1);
      }
      disallow := AddDisallow(disallow, pages[p].gfn, 1);
      var flush := GfnWriteProtect(pages[p].gfn);
    }

    /** vmrun_mmu_alloc_page: a page without entries at the head of the active list. */
    method AllocPage(p: PageId, h: Header)
      requires Graph(pages, spt, parents) && Marks(pages, spt, unsync, childBits, childCount)
      requires Mapped(pages, spt, rmap) && ListShape(pages, invalid, rootCount, active, zapped, nUsed)
      requires Detached(spt, parents, unsync, invalid, rootCount, zapped)
      requires Held(invalid, rootCount, active, {}) && Ordered(pages, invalid, active, validGen)
      requires p !in pages && 1 <= h.level <= ROOT_MAX_LEVEL && h.gen == validGen
      modifies this`pages, this`parents, this`childBits, this`childCount, this`rootCount, this`active, this`nUsed
      ensures Graph(pages, spt, parents) && Marks(pages, spt, unsync, childBits, childCount)
      ensures Mapped(pages, spt, rmap) && ListShape(pages, invalid, rootCount, active, zapped, nUsed)
      ensures Detached(spt, parents, unsync, invalid, rootCount, zapped)
      ensures Held(invalid, rootCount, active, {}) && Ordered(pages, invalid, active, validGen)
      ensures pages == old(pages)[p := h] && active == [p] + old(active) && p !in invalid
      ensures childCount == old(childCount)[p := 0] && childBits == old(childBits)[p := {}]
              && rootCount == old(rootCount)[p := 0]
    {
      hide *;
      CreateAll(pages, spt, parents, unsync, childBits, childCount, rmap, invalid, rootCount, active, zapped, nUsed,
                validGen, p, h);
      Enter(p, h);
    }

    /** The fields of a page as it is allocated, and its place at the head of the list. */
    method Enter(p: PageId, h: Header)
      modifies this`pages, this`parents, this`childBits, this`childCount, this`rootCount, this`active, this`nUsed
      ensures pages == old(pages)[p := h] && parents == old(parents)[p := {}] && rootCount == old(rootCount)[p := 0]
      ensures childBits == old(childBits)[p := {}] && childCount == old(childCount)[p := 0]
      ensures active == [p] + old(active) && nUsed == old(nUsed) + 1
    {
      pages, parents, rootCount := pages[p := h], parents[p := {}], rootCount[p := 0];
      childBits, childCount := childBits[p := {}], childCount[p := 0];
      active, nUsed := [p] + active, nUsed + 1;
    }

    /** The part of vmrun_mmu_get_page that makes a new page. `p` is what the allocator returned. */
    method CreatePage(p: PageId, gfn: Gfn, level: nat, direct: bool, role: nat)
      requires Sound({}) && p !in pages && 1 <= level <= ROOT_MAX_LEVEL
      requires !direct && 1 < level ==> Get(gfnTrack, gfn) < USHRT_MAX
      modifies this`pages, this`spt, this`parents, this`childBits, this`childCount, this`rootCount, this`active,
               this`nUsed, this`gfnTrack, this`disallow, this`indirect
      ensures Sound({}) && Weakened(old(spt), spt)
      ensures pages == old(pages)[p := Header(gfn, level, direct, role, validGen)] && active == [p] + old(active)
      ensures if direct then spt == old(spt)
              else Protected(pages, spt, gfn) && spt == GfnProtected(pages, old(spt), gfn)
      ensures direct ==> gfnTrack == old(gfnTrack) && disallow == old(disallow) && indirect == old(indirect)
      ensures childCount == old(childCount)[p := 0] && childBits == old(childBits)[p := {}]
              && rootCount == old(rootCount)[p := 0]
    {
      hide Graph, Marks, Mapped, Balanced, Guarded, Backed, ListShape, Detached, Held, Ordered, Weakened, Protected,
           Stepped, Get, GfnProtected;
      var h := Header(gfn, level, direct, role, validGen);
      AllocPage(p, h);
      WeakenedRefl(spt);
      if !direct {
        AccountShadowed(p);
        GfnProtectedBacked(pages, old(spt), gfn, changed);
        BalancedAdd(old(pages), invalid, old(gfnTrack), old(disallow), aligned, old(indirect), gfnTrack, disallow,
                    indirect, p, h);
      } else {
        BalancedCreate(old(pages), invalid, gfnTrack, disallow, aligned, indirect, p, h);
      }
      CreateRest(old(pages), old(spt), spt, old(parents), parents, unsync, childBits, childCount, invalid, rootCount,
                 zapped, validGen, p, h);
    }

    // -------------------------------------------------- setting entries

    /** vmrun_mmu_page_get_gfn of an entry of a direct page, as a block: rmap_add insists on it with BUG_ON. */
    function Place(r: SpteRef): nat
      requires r.page in pages
      reads this`pages
    {
      Block(pages[r.page].level, pages[r.page].gfn) + r.index
    }

    lemma SoundPlace(r: SpteRef)
      requires Sound({}) && r in spt && spt[r].Leaf? && r.page in pages && pages[r.page].direct
      ensures Block(pages[r.page].level, spt[r].gfn) == Place(r)
    {
      hide Marks, Mapped, Balanced, Guarded, Backed, Listed;
      assert DirectEntry(pages, pages[r.page], r.index, spt[r]);
    }

    predicate AlreadyWritable(r: SpteRef)
      reads this`spt
    {
      r in spt && spt[r].Leaf? && spt[r].w
    }

    /** set_spte for a frame backed by a page. The entry keeps its block if it is already a leaf. */
    method SetSpte(r: SpteRef, write: bool, gfn: Gfn, pfn: Pfn, hostW: bool, canUnsync: bool) returns (ret: bool)
      requires Sound({}) && r.page in active && r.page in pages && pages[r.page].level <= MAX_HUGEPAGE_LEVEL
      requires r.index < ENT_PER_PAGE && (r in spt ==> !spt[r].Link?)
      requires r in spt && spt[r].Leaf? ==> Block(pages[r.page].level, gfn) == Block(pages[r.page].level, spt[r].gfn)
      requires pages[r.page].direct ==> Block(pages[r.page].level, gfn) == Place(r)
      modifies this`spt, this`unsync, this`childBits, this`childCount
      ensures old(unsync) <= unsync
      ensures if write && hostW && Disallowed(disallow, pages[r.page].level, gfn)
              then spt == old(spt) && !ret
              else spt == old(spt)[r := Leaf(gfn, pfn, write && hostW && !ret, hostW, write && hostW && !ret)]
      ensures !canUnsync ==> unsync == old(unsync) && childBits == old(childBits) && childCount == old(childCount)
      ensures ret <==>
                && write && hostW && !Disallowed(disallow, pages[r.page].level, gfn)
                && (canUnsync || !old(AlreadyWritable(r)))
                && (TrackActive(gfn) || (!canUnsync && IndirectValid(pages, invalid, validGen, gfn) != {}))
      ensures !canUnsync && r in spt && Writable(spt[r]) ==>
                || (r in old(spt) && old(spt)[r].Leaf? && Writable(old(spt)[r]))
                || IndirectValid(pages, invalid, validGen, gfn) == {}
      ensures Core({})
    {
      hide Graph, Marks, Mapped, Balanced, Guarded, Backed, ListShape, Detached, Held, Ordered, Get, Harmless;
      ListFacts(pages, invalid, rootCount, active, zapped, nUsed, r.page);
      PageFacts(pages, spt, parents, r.page);
      var level := pages[r.page].level;
      var w := write && hostW;
      ret := false;
      if w {
        if 1 < level && Get(disallow, BucketOf(level, gfn)) != 0 {
          return;
        }
        if !canUnsync && AlreadyWritable(r) {
          WritableCoversNone(pages, spt, unsync, invalid, validGen, r, Leaf(gfn, pfn, true, hostW, true));
        } else {
          ret := NeedWriteProtect(gfn, canUnsync);
          if ret {
            w := false;
          } else {
            CoversNone(pages, unsync, invalid, validGen, gfnTrack, disallow, aligned, indirect, level,
                       Leaf(gfn, pfn, true, hostW, true));
          }
        }
      }
      StoreLeaf(r, Leaf(gfn, pfn, w, hostW, w));
    }

    /** The store at the end of set_spte. */
    method StoreLeaf(r: SpteRef, e: Entry)
      requires Core({}) && r.page in active && r.page in pages && r.index < ENT_PER_PAGE && e.Leaf?
      requires (r in spt ==> !spt[r].Link?) && EntryFits(pages, pages[r.page].level, e) && (e.mmuW ==> e.hostW)
      requires pages[r.page].direct ==> Block(pages[r.page].level, e.gfn) == Place(r)
      requires Writable(e) ==> Harmless(pages, unsync, invalid, validGen, pages[r.page].level, e)
      modifies this`spt
      ensures spt == old(spt)[r := e]
      ensures Core({})
    {
      hide Graph, Marks, Mapped, Balanced, Guarded, Backed, ListShape, Detached, Held, Ordered, Harmless, EntryFits;
      ListFacts(pages, invalid, rootCount, active, zapped, nUsed, r.page);
      SetAll(pages, spt, parents, unsync, childBits, childCount, invalid, rootCount, zapped, validGen, changed, r, e);
      spt := spt[r := e];
    }

    /** drop_spte. */
    method DropMapped(r: SpteRef)
      requires Sound({}) && (r in spt ==> !spt[r].Link?)
      modifies this`spt, this`rmap
      ensures Sound({}) && spt == old(spt) - {r}
      ensures forall b :: Chain(rmap, b) == old(Chain(rmap, b)) - {r}
    {
      hide Graph, Marks, Mapped, Balanced, Guarded, Backed, ListShape, Detached, Held, Ordered;
      DropKeeps(pages, spt, parents, unsync, childBits, childCount, invalid, rootCount, zapped, validGen, r);
      DropSpte(r);
      BackedShrinks(old(spt), spt, changed);
      ChainsDropped(pages, old(spt), old(rmap), spt, rmap, r);
    }

    /** vmrun_zap_rmapp. */
    method ZapRmap(b: Bucket) returns (flush: bool)
      requires Sound({})
      modifies this`spt, this`rmap
      ensures Sound({}) && Chain(rmap, b) == {} && (flush <==> old(Chain(rmap, b)) != {})
      ensures forall r | r in spt :: r in old(spt) && spt[r] == old(spt)[r]
      ensures forall r | r in old(spt) :: r in spt <==> r !in old(Chain(rmap, b))
    {
      hide Sound, Chain;
      flush := false;
      ghost var chain := Chain(rmap, b);
      while Chain(rmap, b) != {}
        invariant Sound({}) && Chain(rmap, b) <= chain && (flush <==> Chain(rmap, b) != chain)
        invariant forall r | r in spt :: r in old(spt) && spt[r] == old(spt)[r]
        invariant forall r | r in old(spt) :: r in spt <==> r !in chain || r in Chain(rmap, b)
        decreases |Chain(rmap, b)|
      {
        var r :| r in Chain(rmap, b);
        ChainLeaf(b, r);
        DropMapped(r);
        ghost var rest := Chain(rmap, b);
        flush := true;
      }
    }

    lemma ChainLeaf(b: Bucket, r: SpteRef)
      requires Sound({}) && r in Chain(rmap, b)
      ensures r in spt && spt[r].Leaf?
    {
      hide Core;
      ChainFacts(pages, spt, rmap, b);
    }

    /** drop_parent_pte on an entry about to be overwritten. */
    method UnlinkEntry(r: SpteRef)
      requires Sound({}) && r in spt && spt[r].Link?
      modifies this`spt, this`parents
      ensures Sound({}) && spt == old(spt) - {r}
    {
      hide Graph, Marks, Mapped, Balanced, Guarded, Backed, ListShape, Detached, Held, Ordered;
      LinkChild(pages, spt, parents, r);
      DropKeeps(pages, spt, parents, unsync, childBits, childCount, invalid, rootCount, zapped, validGen, r);
      UnlinkDetached(spt - {r}, parents, unsync, invalid, rootCount, zapped, r, spt[r].child);
      DropParentPte(spt[r].child, r);
      BackedShrinks(old(spt), spt, changed);
    }

    /** mark_mmio_spte: the entry must not be present. */
    method SetMmio(r: SpteRef, gfn: Gfn)
      requires Sound({}) && r.page in active && r.page in pages && r.index < ENT_PER_PAGE && (r in spt ==> spt[r].Mmio?)
      modifies this`spt
      ensures Sound({}) && spt == old(spt)[r := Mmio(gfn)]
    {
      hide Graph, Marks, Mapped, Balanced, Guarded, Backed, ListShape, Detached, Held, Ordered;
      ListFacts(pages, invalid, rootCount, active, zapped, nUsed, r.page);
      SetAll(pages, spt, parents, unsync, childBits, childCount, invalid, rootCount, zapped, validGen, changed, r,
             Mmio(gfn));
      MapOther(pages, spt, rmap, r, Mmio(gfn));
      spt := spt[r := Mmio(gfn)];
    }

    /** The entry maps this page already and stays in its reverse map. */
    predicate Kept(r: SpteRef, pfn: Pfn)
      reads this`spt
    {
      r in spt && spt[r].Leaf? && spt[r].pfn == pfn
    }

    /** mmu_set_spte. `noslot` says that the frame has no backing page; `recycle` that the chain grew past the
      threshold. An entry kept because its page frame is unchanged must keep its guest frame block too. */
    method MmuSetSpte(r: SpteRef, write: bool, gfn: Gfn, pfn: Pfn, noslot: bool, hostW: bool, recycle: bool)
      returns (writeProtected: bool)
      requires Sound({}) && r.page in active && r.page in pages && pages[r.page].level <= MAX_HUGEPAGE_LEVEL
      requires r.index < ENT_PER_PAGE
      requires if pages[r.page].direct then Block(pages[r.page].level, gfn) == Place(r)
               else !noslot && r in spt && spt[r].Leaf? && spt[r].pfn == pfn ==>
                 Block(pages[r.page].level, gfn) == Block(pages[r.page].level, spt[r].gfn)
      modifies this`spt, this`parents, this`rmap, this`unsync, this`childBits, this`childCount
      ensures writeProtected <==>
                !noslot && write && hostW && !Disallowed(disallow, pages[r.page].level, gfn) && TrackActive(gfn)
      ensures var w := write && hostW && !writeProtected;
              spt == if noslot then old(spt)[r := Mmio(gfn)]
                     else if write && hostW && Disallowed(disallow, pages[r.page].level, gfn) then
                       if old(Kept(r, pfn) || (r in spt && spt[r].Mmio?)) then old(spt) else old(spt) - {r}
                     else if recycle && !old(Kept(r, pfn)) then
                       old(spt) - {r} - old(Chain(rmap, BucketOf(pages[r.page].level, gfn)))
                     else old(spt)[r := Leaf(gfn, pfn, w, hostW, w)]
      ensures forall q | q in old(spt) && q != r && old(spt)[q].Link? :: q in spt
      ensures Sound({})
    {
      hide Core, Mapped, Graph, Chain;
      var wasRmapped := Vacate(r, pfn, noslot);
      if noslot {
        SetAfterDrop(old(spt), r, Mmio(gfn));
        SetMmio(r, gfn);
        return false;
      }
      if wasRmapped && pages[r.page].direct {
        SoundPlace(r);
      }
      ghost var before := spt;
      writeProtected := SetSpte(r, write, gfn, pfn, hostW, true);
      if wasRmapped {
        if spt != before {
          KeptInRmap(pages, before, rmap, r, spt[r]);
        }
      } else if r in spt && spt[r].Leaf? {
        ghost var b := BucketOf(pages[r.page].level, gfn);
        SetAfterDrop(old(spt), r, spt[r]);
        DropAfterSet(old(spt), r, spt[r], Chain(rmap, b), old(Chain(rmap, b)));
        Record(r, before, recycle);
      }
    }

    /** The first part of mmu_set_spte: a link or a mapping of another page makes room. An entry that already maps the
      page stays, and with it its place in the reverse map. */
    method Vacate(r: SpteRef, pfn: Pfn, noslot: bool) returns (wasRmapped: bool)
      requires Sound({})
      modifies this`spt, this`parents, this`rmap
      ensures wasRmapped <==> !noslot && old(Kept(r, pfn))
      ensures spt == if wasRmapped || (r in old(spt) && old(spt)[r].Mmio?) then old(spt) else old(spt) - {r}
      ensures forall b :: Chain(rmap, b) - {r} == old(Chain(rmap, b)) - {r}
      ensures Sound({})
    {
      hide Core, Mapped, Graph, Chain;
      wasRmapped := false;
      if r in spt && !spt[r].Mmio? {
        if spt[r].Link? {
          UnlinkEntry(r);
        } else if noslot || spt[r].pfn != pfn {
          DropMapped(r);
        } else {
          wasRmapped := true;
        }
      }
    }

    /** rmap_add for a leaf that has just been set, and rmap_recycle if its chain grew too long. */
    method Record(r: SpteRef, ghost before: Spt, recycle: bool)
      requires Core({}) && Mapped(pages, before, rmap) && (r in before ==> !before[r].Leaf?)
      requires r in spt && spt[r].Leaf? && r.page in pages && spt == before[r := spt[r]]
      modifies this`spt, this`rmap
      ensures spt == if recycle then old(spt) - {r} - old(Chain(rmap, BucketOf(pages[r.page].level, spt[r].gfn)))
                     else old(spt)
      ensures forall q | q in old(spt) && q != r && old(spt)[q].Link? :: q in spt
      ensures Sound({})
    {
      hide Core, Mapped, Graph;
      MapLeaf(pages, before, rmap, r, spt[r]);
      var b := BucketOf(pages[r.page].level, spt[r].gfn);
      rmap := rmap[b := Chain(rmap, b) + {r}];
      if recycle {
        forall q | q in Chain(rmap, b)
          ensures q in spt && spt[q].Leaf?
        {
          ChainLeaf(b, q);
        }
        var flush := ZapRmap(b);
      }
    }

    // -------------------------------------------------- syncing

    /** A leaf that is kept becomes writable if that is asked for, the host page is, and either it was before or nothing
      that shadows or tracks its frame objects. */
    ghost function Granted(e: Entry, write: bool): Entry
      requires e.Leaf?
      reads this`pages, this`invalid, this`validGen, this`gfnTrack
    {
      var free := !TrackActive(e.gfn) && IndirectValid(pages, invalid, validGen, e.gfn) == {};
      var w := write && e.hostW && (e.w || free);
      e.(w := w, mmuW := w)
    }

    /** The entries with the leaves of `p` below index `n` as the guest's entries ask. */
    ghost function Synced(was: Spt, p: PageId, asks: Asks, n: nat): Spt
      reads this`pages, this`invalid, this`validGen, this`gfnTrack
    {
      map r | r in was && !(Asked(was, r, p, asks, n) && asks[r.index].Drop?) ::
        if Asked(was, r, p, asks, n) then Granted(was[r], asks[r.index].write) else was[r]
    }

    static predicate Asked(was: Spt, r: SpteRef, p: PageId, asks: Asks, n: nat)
      requires r in was
    {
      r.page == p && r.index < n && r.index in asks && was[r].Leaf?
    }

    /** One leaf of a page brought in line with its guest entry, as the guest's sync_page callback does. */
    method ApplyUpdate(p: PageId, index: nat, ask: Ask)
      requires Sound({}) && p in active && p in pages && pages[p].level == 1
      modifies this`spt, this`rmap, this`unsync, this`childBits, this`childCount
      ensures unsync == old(unsync) && childBits == old(childBits) && childCount == old(childCount)
      ensures LinksWithin(spt, old(spt)) && StillProtected(pages, old(spt), spt, invalid, validGen)
      ensures var r := SpteRef(p, index);
              spt == if r !in old(spt) || !old(spt)[r].Leaf? then old(spt) else if ask.Drop? then old(spt) - {r}
                     else old(spt)[r := Granted(old(spt)[r], ask.write)]
      ensures Sound({})
    {
      hide Core, Mapped, StillProtected, LinksWithin, IndirectValid, TrackActive;
      var r := SpteRef(p, index);
      StillProtectedDrop(pages, spt, spt, invalid, validGen);
      LinksRefl(spt);
      if r !in spt || !spt[r].Leaf? {
        return;
      }
      if ask.Drop? {
        DropMapped(r);
        StillProtectedDrop(pages, old(spt), spt, invalid, validGen);
        LinksDropped(old(spt), r);
      } else {
        var e := spt[r];
        SpteIndex(r);
        if pages[p].direct {
          SoundPlace(r);
        }
        var ret := SetSpte(r, ask.write, e.gfn, e.pfn, e.hostW, false);
        KeptInRmap(pages, old(spt), rmap, r, spt[r]);
        StillProtectedSet(pages, old(spt), invalid, validGen, r, spt[r]);
        LinksSet(old(spt), r, spt[r]);
      }
    }

    lemma SpteIndex(r: SpteRef)
      requires Sound({}) && r in spt
      ensures r.index < ENT_PER_PAGE
    {
      hide Marks, Mapped, Balanced, Guarded, Backed, Listed;
      IndexBound(pages, spt, parents);
    }

    lemma SyncedStep(was: Spt, p: PageId, asks: Asks, i: nat)
      ensures Synced(was, p, asks, 0) == was
      ensures var s, r := Synced(was, p, asks, i), SpteRef(p, i);
              Synced(was, p, asks, i + 1) ==
              if i !in asks || r !in s || !s[r].Leaf? then s
              else if asks[i].Drop? then s - {r} else s[r := Granted(s[r], asks[i].write)]
    {
      hide Granted;
    }

    /** The loop of the guest's sync_page callback. */
    method ApplySync(p: PageId, asks: Asks)
      requires Sound({}) && p in active && p in pages && pages[p].level == 1
      modifies this`spt, this`rmap, this`unsync, this`childBits, this`childCount
      ensures unsync == old(unsync) && childBits == old(childBits) && childCount == old(childCount)
      ensures LinksWithin(spt, old(spt)) && StillProtected(pages, old(spt), spt, invalid, validGen)
      ensures spt == Synced(old(spt), p, asks, ENT_PER_PAGE)
      ensures Sound({})
    {
      hide Sound, StillProtected, LinksWithin, Synced, Granted;
      StillProtectedDrop(pages, spt, spt, invalid, validGen);
      LinksRefl(spt);
      SyncedStep(spt, p, asks, 0);
      for i := 0 to ENT_PER_PAGE
        invariant Sound({}) && unsync == old(unsync) && childBits == old(childBits) && childCount == old(childCount)
        invariant LinksWithin(spt, old(spt)) && StillProtected(pages, old(spt), spt, invalid, validGen)
        invariant spt == Synced(old(spt), p, asks, i)
      {
        ghost var before := spt;
        SyncedStep(old(spt), p, asks, i);
        if i in asks {
          ApplyUpdate(p, i, asks[i]);
          StillProtectedThen(pages, old(spt), before, spt, invalid, validGen);
          LinksThen(old(spt), before, spt);
        }
      }
    }

    /** __vmrun_sync_page. `sync` gives, for each page the guest's sync_page callback accepts, what its guest entries
      ask; a page it refuses is zapped. */
    method SyncOrZap(p: PageId, sync: map<PageId, Asks>) returns (ok: bool)
      requires Sound({}) && p in active && p in pages && pages[p].level == 1
      modifies this`spt, this`parents, this`unsync, this`childBits, this`childCount, this`rmap, this`invalid,
               this`active, this`zapped, this`nUsed, this`gfnTrack, this`disallow, this`indirect
      ensures childBits == old(childBits) && childCount == old(childCount) && (ok <==> p in sync)
      ensures unsync == (if ok then old(unsync) else old(unsync) - {p})
      ensures ok ==> active == old(active) && zapped == old(zapped) && invalid == old(invalid)
      ensures ok ==> spt == Synced(old(spt), p, sync[p], ENT_PER_PAGE)
      ensures !ok ==> zapped == old(zapped) + {p} && invalid == old(invalid) + {p}
      ensures forall q | q in old(active) && q != p :: q in active
      ensures LinksWithin(spt, old(spt)) && StillProtected(pages, old(spt), spt, invalid, validGen)
      ensures Sound({})
    {
      hide Sound, StillProtected, LinksWithin, Took, Shrunk, Synced;
      ok := p in sync;
      if ok {
        ApplySync(p, sync[p]);
      } else {
        ZapReady(p);
        var n := PrepareZap(p, {});
        TookLeafFacts(old(Lists()), Lists(), p, n);
        StillProtectedDrop(pages, old(spt), spt, invalid, validGen);
      }
    }

    lemma ZapReady(p: PageId)
      requires Sound({}) && p in active
      ensures Sound({} + {p}) && p !in zapped
    {
      hide Graph, Marks, Mapped, Balanced, Guarded, Backed, ListShape, Detached, Held, Ordered;
      ListFacts(pages, invalid, rootCount, active, zapped, nUsed, p);
      HeldMore(invalid, rootCount, active, {}, {} + {p});
    }

    /** vmrun_sync_page: the page's guest frame must be write-protected at the call. */
    method SyncPage(p: PageId, sync: map<PageId, Asks>) returns (ok: bool)
      requires Sound({}) && p in unsync && p in active && p in pages
      requires ValidSp(pages, invalid, validGen, p) ==> Protected(pages, spt, pages[p].gfn)
      modifies this`spt, this`parents, this`unsync, this`childBits, this`childCount, this`rmap, this`invalid,
               this`active, this`zapped, this`nUsed, this`gfnTrack, this`disallow, this`indirect
      ensures Sound({}) && childBits == old(childBits) && childCount == old(childCount)
      ensures unsync == old(unsync) - {p} && pages[p].level == 1
      ensures old(invalid) <= invalid <= old(invalid) + {p} && old(zapped) <= zapped <= old(zapped) + {p}
      ensures forall q | q in old(active) && q != p :: q in active
      ensures LinksWithin(spt, old(spt)) && StillProtected(pages, old(spt), spt, invalid, validGen)
    {
      hide Core, Mapped, StillProtected, LinksWithin, Protected, ValidSp;
      MarkSynced(p);
      ok := SyncOrZap(p, sync);
      assert old(unsync) - {p} - {p} == old(unsync) - {p};
    }

    /** vmrun_unlink_unsync_page. */
    method MarkSynced(p: PageId)
      requires Sound({}) && p in unsync && p in pages
      requires ValidSp(pages, invalid, validGen, p) ==> Protected(pages, spt, pages[p].gfn)
      modifies this`unsync
      ensures Sound({}) && unsync == old(unsync) - {p} && pages[p].level == 1
    {
      hide Graph, Marks, Mapped, Balanced, Guarded, Backed, ListShape, Held, Ordered, Protected;
      SyncGuarded(pages, spt, unsync, invalid, validGen, p);
      LinksRefl(spt);
      UnsyncIsLevelOne(pages, spt, unsync, childBits, childCount, p);
      MarksShrink(pages, spt, spt, unsync, unsync - {p}, childBits, childCount);
      unsync := unsync - {p};
    }

    /** rmap_write_protect. */
    method ProtectGfn(gfn: Gfn) returns (flush: bool)
      requires Sound({})
      modifies this`spt
      ensures Sound({}) && Weakened(old(spt), spt) && LinksWithin(spt, old(spt)) && Protected(pages, spt, gfn)
      ensures spt == GfnProtected(pages, old(spt), gfn) && (flush <==> spt != old(spt))
    {
      hide Graph, Marks, Mapped, Balanced, Guarded, Backed, ListShape, Detached, Held, Ordered, Protected, Weakened,
           LinksWithin, GfnProtected;
      flush := GfnWriteProtect(gfn);
      GfnProtectedBacked(pages, old(spt), gfn, changed);
      WeakenKeeps(pages, old(spt), spt, parents, unsync, childBits, childCount, invalid, rootCount, zapped, validGen);
    }

    /** The first pass of mmu_sync_children: write-protect the frame of every listed leaf. */
    method ProtectListed(root: PageId, pvec: seq<PvecEntry>, ghost paths: seq<seq<SpteRef>>) returns (flush: bool)
      requires Sound({}) && root in pages && 1 < pages[root].level
      requires Reading(pages, spt, parents, spt, unsync, childBits, root, pvec, paths, 0)
      modifies this`spt
      ensures Sound({}) && Reading(pages, old(spt), parents, spt, unsync, childBits, root, pvec, paths, 0)
      ensures LeavesProtected(pages, spt, invalid, validGen, pvec, 0, |pvec|)
      ensures Lowered(old(spt), spt) && (flush <==> spt != old(spt))
    {
      hide Sound, GfnProtected, Lowered, Reading, Graph, Listing, Holds, LeavesProtected, Protected, Weakened,
           LinksWithin;
      ReadingStart(pages, spt, parents, unsync, childBits, root, pvec, paths);
      flush := false;
      LoweredRefl(spt);
      var i, buf := PagesFirst(pvec, spt, parents, root, paths);
      NoneProtected(pages, spt, invalid, validGen, pvec, i);
      while i < |pvec|
        invariant 0 < i <= |pvec|
        invariant Sound({}) && Reading(pages, old(spt), parents, spt, unsync, childBits, root, pvec, paths, 0)
        invariant LeavesProtected(pages, spt, invalid, validGen, pvec, 0, i)
        invariant i < |pvec| ==> IsLeafEntry(pages, pvec[i]) && Holds(buf, pages[root].level, paths[i], pvec[i].page)
        invariant Lowered(old(spt), spt) && (flush <==> spt != old(spt))
      {
        ghost var before := spt;
        var f := ProtectGfn(pages[pvec[i].page].gfn);
        GfnProtectedLowers(pages, before, pages[pvec[i].page].gfn);
        LoweredThen(old(spt), before, spt);
        ReadingWithin(pages, old(spt), parents, before, spt, unsync, childBits, root, pvec, paths, 0);
        flush := flush || f;
        var next;
        next, buf := PagesNext(pvec, buf, i, old(spt), parents, root, paths);
        ProtectOneMore(pages, before, spt, invalid, validGen, pvec, i, next);
        i := next;
      }
    }

    /** One round of the second pass of mmu_sync_children. */
    method SyncEntry(buf: PagePath, pvec: seq<PvecEntry>, ghost paths: seq<seq<SpteRef>>, i: nat, ghost root: PageId,
                     sync: map<PageId, Asks>, ghost spt0: Spt, ghost parents0: Parents)
      requires Sound({}) && root in active && root in pages && 1 < pages[root].level
      requires Reading(pages, spt0, parents0, spt, unsync, childBits, root, pvec, paths, i)
      requires i < |pvec| == |paths| && IsLeafEntry(pages, pvec[i])
               && Holds(buf, pages[root].level, paths[i], pvec[i].page)
      requires LeavesProtected(pages, spt, invalid, validGen, pvec, i, |pvec|)
      modifies this`spt, this`parents, this`unsync, this`childBits, this`childCount, this`rmap, this`invalid,
               this`active, this`zapped, this`nUsed, this`gfnTrack, this`disallow, this`indirect
      ensures Sound({}) && root in active && unsync == old(unsync) - {pvec[i].page}
      ensures Reading(pages, spt0, parents0, spt, unsync, childBits, root, pvec, paths, i + 1)
      ensures LeavesProtected(pages, spt, invalid, validGen, pvec, i + 1, |pvec|)
      ensures Shrunk(old(childBits), childBits) && childBits != old(childBits)
      ensures root !in zapped - old(zapped)
    {
      hide Graph, Marks, Mapped, Balanced, Guarded, Backed, ListShape, Detached, Held, Ordered;
      hide Reading, Holds, PathSet, Shrunk, StillProtected, LinksWithin, Protected;
      var leaf := pvec[i].page;
      ReadingFacts(pages, spt0, parents0, spt, unsync, childBits, root, pvec, paths, i, i);
      UnsyncActive(pages, spt, parents, unsync, invalid, rootCount, active, zapped, nUsed, leaf);
      var ok := SyncPage(leaf, sync);
      ReadOn(pages, spt0, parents0, old(spt), old(unsync), childBits, root, pvec, paths, i, spt, unsync);
      ProtectedStep(pages, spt0, parents0, old(spt), spt, old(unsync), childBits, childCount, old(invalid), invalid,
                    validGen, root, pvec, paths, i, i + 1);
      ClearAbove(buf, spt0, parents0, root, pvec, paths, i, {});
    }

    /** The second pass of mmu_sync_children. */
    method SyncListed(root: PageId, pvec: seq<PvecEntry>, ghost paths: seq<seq<SpteRef>>,
                      sync: map<PageId, Asks>, ghost bits0: Bits, ghost spt0: Spt, ghost parents0: Parents)
      requires Sound({}) && root in active && root in pages && 1 < pages[root].level
      requires Reading(pages, spt0, parents0, spt, unsync, childBits, root, pvec, paths, 0)
      requires LeavesProtected(pages, spt, invalid, validGen, pvec, 0, |pvec|)
      requires Shrunk(bits0, childBits) && (childBits == bits0 ==> HasLeaf(pages, pvec))
      modifies this`spt, this`parents, this`unsync, this`childBits, this`childCount, this`rmap, this`invalid,
               this`active, this`zapped, this`nUsed, this`gfnTrack, this`disallow, this`indirect
      ensures Sound({}) && root in active && unsync <= old(unsync)
      ensures Shrunk(bits0, childBits) && childBits != bits0
    {
      hide Sound, Reading, Graph, Listing, Holds, LeavesProtected, Shrunk, HasLeaf;
      ReadingBack(pages, spt0, parents0, spt, unsync, childBits, root, pvec, paths, 0);
      var i, buf := PagesFirst(pvec, spt0, parents0, root, paths);
      SkipTo(pages, spt0, parents0, spt, unsync, childBits, root, pvec, paths, 0, i);
      SkipProtected(pages, spt, invalid, validGen, pvec, 0, i);
      NoLeafBefore(pages, pvec, i);
      while i < |pvec|
        invariant 0 < i <= |pvec| == |paths|
        invariant Sound({}) && root in active && unsync <= old(unsync)
        invariant Reading(pages, spt0, parents0, spt, unsync, childBits, root, pvec, paths, i)
        invariant LeavesProtected(pages, spt, invalid, validGen, pvec, i, |pvec|)
        invariant i < |pvec| ==> IsLeafEntry(pages, pvec[i]) && Holds(buf, pages[root].level, paths[i], pvec[i].page)
        invariant Shrunk(bits0, childBits) && (childBits == bits0 ==> i < |pvec|)
      {
        ghost var before := childBits;
        SyncEntry(buf, pvec, paths, i, root, sync, spt0, parents0);
        ShrunkTransitive(bits0, before, childBits);
        var next;
        next, buf := PagesNext(pvec, buf, i, spt0, parents0, root, paths);
        SkipTo(pages, spt0, parents0, spt, unsync, childBits, root, pvec, paths, i + 1, next);
        SkipProtected(pages, spt, invalid, validGen, pvec, i + 1, next);
        i := next;
      }
    }

    /** mmu_sync_children: afterwards no unsync page is reachable from `root`. */
    method SyncChildren(root: PageId, sync: map<PageId, Asks>)
      requires Sound({}) && root in active && root in pages && 1 < pages[root].level
      modifies this`pages, this`spt, this`parents, this`unsync, this`childBits, this`childCount, this`rmap,
               this`invalid, this`active, this`zapped, this`nUsed, this`gfnTrack, this`disallow, this`indirect,
               this`rootCount
      ensures Sound({}) && unsync <= old(unsync) && zapped == {}
      ensures root in pages && root in active && UnsyncBelow(spt, unsync, root) == {}
    {
      hide Sound, Reading, HasLeaf, Shrunk, BitSet, LeavesProtected, UnsyncBelow;
      while true
        invariant Sound({}) && root in active && unsync <= old(unsync) && pages == old(pages)
        decreases |BitSet(childBits)|
      {
        ghost var bits0 := childBits;
        var walked, pvec;
        ghost var paths;
        walked, pvec, paths := UnsyncWalk(root, {});
        if walked == 0 {
          break;
        }
        ghost var spt0, parents0 := spt, parents;
        var flush := ProtectListed(root, pvec, paths);
        SyncListed(root, pvec, paths, sync, bits0, spt0, parents0);
        FewerBits(bits0, childBits);
      }
      SyncedBelow(root);
      CommitZap({});
      SoundRoot(root);
    }

    lemma SyncedBelow(root: PageId)
      requires Sound({}) && root in active && root in pages && 1 < pages[root].level && root in childCount
               && childCount[root] == 0
      ensures UnsyncBelow(spt, unsync, root) == {} && root !in zapped
    {
      hide Graph, Marks, Mapped, Balanced, Guarded, Backed, ListShape, Detached, Held, Ordered, UnsyncBelow;
      ListFacts(pages, invalid, rootCount, active, zapped, nUsed, root);
      if root in unsync {
        UnsyncIsLevelOne(pages, spt, unsync, childBits, childCount, root);
      }
      CleanBelow(pages, spt, parents, unsync, childBits, childCount, root);
    }

    lemma SoundRoot(p: PageId)
      requires Sound({}) && p in active
      ensures p in pages && p in rootCount
    {
      hide Graph, Marks, Mapped, Balanced, Guarded, Backed, ListShape, Detached, Held, Ordered;
      ListFacts(pages, invalid, rootCount, active, zapped, nUsed, p);
    }

    /** vmrun_sync_pages: afterwards no valid page shadowing `gfn` is unsync. */
    method SyncPages(gfn: Gfn, sync: map<PageId, Asks>)
      requires Sound({}) && Protected(pages, spt, gfn)
      modifies this`spt, this`parents, this`unsync, this`childBits, this`childCount, this`rmap, this`invalid,
               this`active, this`zapped, this`nUsed, this`gfnTrack, this`disallow, this`indirect
      ensures Sound({}) && unsync <= old(unsync) && old(invalid) <= invalid && invalid - old(invalid) <= old(unsync)
      ensures IndirectValid(pages, invalid, validGen, gfn) !! unsync
      ensures forall q | q in old(active) && q !in old(unsync) :: q in active
    {
      hide Sound, Protected, StillProtected, LinksWithin;
      var sps := IndirectValid(pages, invalid, validGen, gfn);
      var todo := sps;
      while todo != {}
        invariant todo <= sps
        invariant Sound({}) && unsync <= old(unsync) && old(invalid) <= invalid && invalid - old(invalid) <= old(unsync)
        invariant unsync * sps <= todo
        invariant IndirectValid(pages, invalid, validGen, gfn) != {} ==> Protected(pages, spt, gfn)
        invariant forall q | q in old(active) && q !in old(unsync) :: q in active
        decreases |todo|
      {
        var s :| s in todo;
        todo := todo - {s};
        if s in unsync {
          SoundUnsync(s);
          assert ValidSp(pages, invalid, validGen, s) ==> s in IndirectValid(pages, invalid, validGen, gfn);
          label step:
          var ok := SyncPage(s, sync);
          FewerValid(pages, old@step(invalid), invalid, validGen, gfn);
          KeepProtected(pages, old@step(spt), spt, invalid, validGen, gfn);
        }
      }
      FewerValid(pages, old(invalid), invalid, validGen, gfn);
      forall q | q in unsync
        ensures q !in sps
      {
        assert q in sps ==> q in unsync * sps;
      }
    }

    /** A page that is linked to is on the list. */
    lemma SoundChild(r: SpteRef)
      requires Sound({}) && r in spt && spt[r].Link?
      ensures spt[r].child in active
    {
      hide Marks, Mapped, Balanced, Guarded, Backed, Held, Ordered;
    }

    lemma SoundUnsync(p: PageId)
      requires Sound({}) && p in unsync
      ensures p in pages && p in active && pages[p].level == 1 && !pages[p].direct
    {
      hide Graph, Marks, Mapped, Balanced, Guarded, Backed, ListShape, Detached, Held, Ordered;
      UnsyncIsLevelOne(pages, spt, unsync, childBits, childCount, p);
      UnsyncActive(pages, spt, parents, unsync, invalid, rootCount, active, zapped, nUsed, p);
    }

    /** Nothing to take: no such page, or one whose sync callback refuses. */
    static ghost predicate NoneUsable(same: set<PageId>, unsync: set<PageId>, sync: map<PageId, Asks>) {
      same == {} || exists q | q in same :: q in unsync && q !in sync
    }

    /** The valid current pages with this header. */
    ghost function Matching(h: Header): set<PageId>
      reads this`pages, this`invalid, this`validGen
    {
      set q | q in pages && ValidSp(pages, invalid, validGen, q) && pages[q] == h
    }

    /** vmrun_mmu_get_page: a valid current page for the given frame and role, found or made. `newPage` is what
      the allocator would return. */
    method GetPage(gfn: Gfn, level: nat, direct: bool, role: nat, newPage: PageId, sync: map<PageId, Asks>)
      returns (p: PageId)
      requires Sound({}) && newPage !in pages && 1 <= level <= ROOT_MAX_LEVEL
      requires !direct && 1 < level ==> Get(gfnTrack, gfn) < USHRT_MAX
      modifies this`pages, this`spt, this`parents, this`unsync, this`childBits, this`childCount, this`rmap,
               this`invalid, this`active, this`zapped, this`nUsed, this`gfnTrack, this`disallow, this`indirect,
               this`rootCount
      ensures p in active && p in pages && p !in invalid
      ensures pages[p] == Header(gfn, level, direct, role, validGen)
      ensures p == newPage && 1 < level && !direct ==>
                forall q | q in IndirectValid(pages, invalid, validGen, gfn) :: q !in unsync
      ensures p != newPage ==> p in old(pages) && pages == old(pages) && active == old(active)
      ensures direct ==>
                && spt == old(spt) && active == (if p == newPage then [newPage] + old(active) else old(active))
                && forall q | q in pages && q != newPage :: q in old(pages) && pages[q] == old(pages)[q]
      ensures p == newPage ==>
                NoneUsable(old(Matching(Header(gfn, level, direct, role, validGen))), old(unsync), sync)
      ensures Sound({})
    {
      hide Sound, Protected, StillProtected, LinksWithin, Weakened, Get;
      var found, needSync;
      found, needSync, p := FindPage(gfn, level, direct, role, sync);
      if !found {
        p := newPage;
        MakePage(newPage, gfn, level, direct, role, needSync, sync);
      }
    }

    /** The rest of vmrun_mmu_get_page where no page was found: a new one, and the other pages of its frame synced. */
    method MakePage(p: PageId, gfn: Gfn, level: nat, direct: bool, role: nat, needSync: bool,
                    sync: map<PageId, Asks>)
      requires Sound({}) && p !in pages && 1 <= level <= ROOT_MAX_LEVEL
      requires !direct && 1 < level ==> Get(gfnTrack, gfn) < USHRT_MAX
      requires !needSync ==> forall q | q in IndirectValid(pages, invalid, validGen, gfn) :: q !in unsync
      modifies this`pages, this`spt, this`parents, this`unsync, this`childBits, this`childCount, this`rmap,
               this`invalid, this`active, this`zapped, this`nUsed, this`gfnTrack, this`disallow, this`indirect,
               this`rootCount
      ensures p in active && p in pages && p !in invalid && pages[p] == Header(gfn, level, direct, role, validGen)
      ensures 1 < level && !direct ==>
                forall q | q in IndirectValid(pages, invalid, validGen, gfn) :: q !in unsync
      ensures direct ==>
                && spt == old(spt) && active == [p] + old(active)
                && forall q | q in pages && q != p :: q in old(pages) && pages[q] == old(pages)[q]
      ensures Sound({})
    {
      hide Sound, Protected, StillProtected, LinksWithin, Weakened, Get, GfnProtected;
      UnsyncKnown(p);
      CreatePage(p, gfn, level, direct, role);
      if !direct && 1 < level && needSync {
        SyncPages(gfn, sync);
      }
      if zapped != {} {
        CommitZap({});
      }
      SoundRoot(p);
    }

    /** The for_each_valid_sp loop of vmrun_mmu_get_page. */
    method FindPage(gfn: Gfn, level: nat, direct: bool, role: nat, sync: map<PageId, Asks>)
      returns (found: bool, needSync: bool, p: PageId)
      requires Sound({})
      modifies this`spt, this`parents, this`unsync, this`childBits, this`childCount, this`rmap, this`invalid,
               this`active, this`zapped, this`nUsed, this`gfnTrack, this`disallow, this`indirect
      ensures 1 < level ==> gfnTrack == old(gfnTrack)
      ensures direct ==> spt == old(spt) && active == old(active)
      ensures found ==> p in active && p in pages && p !in invalid && active == old(active)
      ensures found ==> pages[p] == Header(gfn, level, direct, role, validGen)
      ensures !found && !needSync ==> forall q | q in IndirectValid(pages, invalid, validGen, gfn) :: q !in unsync
      ensures !found ==>
                NoneUsable(old(Matching(Header(gfn, level, direct, role, validGen))), old(unsync), sync)
      ensures Sound({})
    {
      hide Sound, Protected, StillProtected, LinksWithin, Weakened, Get;
      found, needSync, p := false, false, 0;
      var todo := set q | q in pages && ValidSp(pages, invalid, validGen, q) && pages[q].gfn == gfn;
      ghost var seen := {};
      while todo != {}
        invariant Sound({}) && (!needSync ==> seen !! unsync)
        invariant forall q | q in pages && ValidSp(pages, invalid, validGen, q) && pages[q].gfn == gfn ::
                    q in todo || q in seen
        invariant forall q | q in todo :: q in pages && ValidSp(pages, invalid, validGen, q) && pages[q].gfn == gfn
        invariant spt == old(spt) && active == old(active) && invalid == old(invalid) && unsync == old(unsync)
                  && gfnTrack == old(gfnTrack)
        invariant forall q | q in seen :: q in pages && pages[q] != Header(gfn, level, direct, role, validGen)
        decreases |todo|
      {
        var s :| s in todo;
        todo, seen := todo - {s}, seen + {s};
        if s in unsync {
          needSync := true;
        }
        if pages[s].level != level || pages[s].direct != direct || pages[s].role != role {
          continue;
        }
        SoundValid(s);
        if s in unsync {
          SoundUnsync(s);
          var ok := SyncOrZap(s, sync);
          if !ok {
            return;
          }
        }
        return true, needSync, s;
      }
    }

    lemma UnsyncKnown(p: PageId)
      requires Sound({}) && p !in pages
      ensures p !in unsync && p !in invalid
    {
      hide Graph, Mapped, Balanced, Guarded, Backed, Detached, Held, Ordered;
    }

    lemma SoundValid(p: PageId)
      requires Sound({}) && ValidSp(pages, invalid, validGen, p)
      ensures p in active
    {
      hide Graph, Marks, Mapped, Balanced, Guarded, Backed, Detached, Held, Ordered;
    }

    // -------------------------------------------------- roots

    /** ++sp->root_count, on a page just returned by GetPage. */
    method HoldRoot(p: PageId)
      requires Sound({}) && p in active && p in pages && p !in invalid && p in rootCount && 1 < pages[p].level
      modifies this`rootCount
      ensures Sound({}) && rootCount == old(rootCount)[p := old(rootCount)[p] + 1]
    {
      hide Graph, Marks, Mapped, Balanced, Guarded, Backed, Ordered, NoDup;
      rootCount := rootCount[p := rootCount[p] + 1];
    }

    /** mmu_free_roots for one root: an invalid page is zapped when its last holder lets go. */
    method FreeRoot(p: PageId)
      requires Sound({}) && p in active && p in rootCount && 0 < rootCount[p]
      modifies this`pages, this`spt, this`parents, this`unsync, this`childBits, this`childCount, this`rmap,
               this`invalid, this`active, this`zapped, this`nUsed, this`gfnTrack, this`disallow, this`indirect,
               this`rootCount
      ensures Sound({})
      ensures old(rootCount)[p] == 1 && p in old(invalid) ==> p !in pages && p !in active
      ensures old(rootCount)[p] != 1 || p !in old(invalid) ==>
                active == old(active) && spt == old(spt) && rootCount == old(rootCount)[p := old(rootCount)[p] - 1]
    {
      hide Graph, Marks, Mapped, Balanced, Guarded, Backed, ListShape, Detached, Held, Ordered, Took, Remove, Shrunk;
      ReleaseRoot(p);
      if rootCount[p] == 0 && p in invalid {
        assert {} + {p} == {p};
        var n := PrepareZap(p, {});
        CommitZap({});
        GoneFromList(pages, invalid, rootCount, active, zapped, nUsed, p);
      } else {
        ReleaseDone(p);
      }
    }

    /** --sp->root_count. */
    method ReleaseRoot(p: PageId)
      requires Sound({}) && p in active && p in rootCount && 0 < rootCount[p]
      modifies this`rootCount
      ensures Sound({p}) && rootCount == old(rootCount)[p := old(rootCount)[p] - 1]
    {
      hide Graph, Marks, Mapped, Balanced, Guarded, Backed, Ordered, NoDup;
      rootCount := rootCount[p := rootCount[p] - 1];
    }

    lemma ReleaseDone(p: PageId)
      requires Sound({p}) && p in rootCount && (rootCount[p] != 0 || p !in invalid)
      ensures Sound({})
    {
      hide Graph, Marks, Mapped, Balanced, Guarded, Backed, Ordered, Detached, ListShape;
    }

    // -------------------------------------------------- shrinking

    /** An invalid page that a root still holds. */
    predicate HeldInvalid(p: PageId)
      reads this`invalid, this`rootCount
    {
      p in invalid && p in rootCount && 0 < rootCount[p]
    }

    /** prepare_zap_oldest_mmu_page: if nothing was zapped the oldest page is a root, and now at the head. */
    method ZapOldest() returns (zappedAny: bool)
      requires Sound({})
      modifies this`spt, this`parents, this`unsync, this`childBits, this`childCount, this`rmap, this`invalid,
               this`active, this`zapped, this`nUsed, this`gfnTrack, this`disallow, this`indirect
      ensures Sound({})
      ensures if zappedAny then nUsed < old(nUsed) else nUsed == old(nUsed)
      ensures Aged(old(active), active, invalid) && old(invalid) <= invalid
      ensures !zappedAny && old(active) != [] ==> Rotated(old(active), active) && HeldInvalid(active[0])
      ensures !zappedAny && old(active) == [] ==> active == []
    {
      hide Graph, Marks, Mapped, Balanced, Guarded, Backed, Detached, Held, Ordered, Took, Remove, Shrunk, NoDup, Aged;
      if active == [] {
        AgedNone(active, invalid);
        return false;
      }
      var p := active[|active| - 1];
      ZapReady(p);
      SoundList();
      RemoveLast(active);
      var n := PrepareZap(p, {});
      TookCount(old(Lists()), Lists(), p, n);
      zappedAny := n != 0;
    }

    /** The head of the list is an invalid page that a root holds, and in the list `was` it was older than every page
      left that is not invalid. */
    ghost predicate StuckOnOldest(was: seq<PageId>)
      reads this`active, this`invalid, this`rootCount
    {
      active != [] && HeldInvalid(active[0]) && forall q | q in active && q !in invalid :: Before(was, q, active[0])
    }

    /** vmrun_mmu_change_mmu_pages: the new limit is the goal, or what is still in use when the oldest page is a
      root. */
    method ChangeMmuPages(goal: nat) returns (nMax: int)
      requires Sound({})
      modifies this`pages, this`spt, this`parents, this`unsync, this`childBits, this`childCount, this`rmap,
               this`invalid, this`active, this`zapped, this`nUsed, this`gfnTrack, this`disallow, this`indirect,
               this`rootCount
      ensures Sound({}) && nUsed <= old(nUsed)
      ensures old(nUsed) <= goal ==> nMax == goal && active == old(active)
      ensures goal < old(nUsed) ==> nMax == nUsed
      ensures Aged(old(active), active, invalid)
      ensures goal < nUsed ==> StuckOnOldest(old(active))
    {
      hide Core, Mapped, Rotated, Aged, Before;
      nMax := goal;
      SoundList();
      AgedNone(active, invalid);
      if goal < nUsed {
        while goal < nUsed
          invariant Sound({}) && nUsed <= old(nUsed) && nUsed == |active| && Aged(old(active), active, invalid)
        {
          ghost var was, before := active, invalid;
          var any := ZapOldest();
          AgedThen(old(active), was, active, before, invalid);
          if !any {
            AgedMore(old(active), was, before, invalid);
            Stuck(old(active), was);
            break;
          }
          SoundList();
        }
        Commit(old(active));
        nMax := nUsed;
      }
    }

    lemma Stuck(s: seq<PageId>, was: seq<PageId>)
      requires Aged(s, was, invalid) && Rotated(was, active) && HeldInvalid(active[0])
      ensures StuckOnOldest(s)
    {
      forall q | q in active && q !in invalid
        ensures Before(s, q, active[0])
      {
        LastIsOldest(s, was, active, invalid, q);
      }
    }

    /** Freeing the zapped pages leaves the list and the flags of the pages on it alone. */
    method Commit(ghost was: seq<PageId>)
      requires Sound({}) && Aged(was, active, invalid)
      modifies this`pages, this`parents, this`childBits, this`childCount, this`rootCount, this`invalid, this`zapped
      ensures Sound({}) && Aged(was, active, invalid) && nUsed == |active|
      ensures old(StuckOnOldest(was)) ==> StuckOnOldest(was)
    {
      hide Core, Mapped, Before;
      SoundList();
      CommitZap({});
    }

    /** vmrun_mmu_available_pages under the limit `nMax`. */
    function Available(nMax: nat): nat
      reads this`nUsed
    {
      if nMax > nUsed then nMax - nUsed else 0
    }

    /** make_mmu_pages_available: a page is available afterwards unless -ENOSPC is returned, and short of the refill
      mark the oldest page, now at the head, is a root and invalid. */
    method MakePagesAvailable(nMax: nat, minFree: nat, refill: nat) returns (r: int)
      requires Sound({}) && 0 < minFree
      modifies this`pages, this`spt, this`parents, this`unsync, this`childBits, this`childCount, this`rmap,
               this`invalid, this`active, this`zapped, this`nUsed, this`gfnTrack, this`disallow, this`indirect,
               this`rootCount
      ensures Sound({}) && nUsed <= old(nUsed) && r in {0, -ENOSPC}
      ensures r == 0 <==> 0 < Available(nMax)
      ensures old(Available(nMax)) >= minFree ==> active == old(active) && pages == old(pages)
      ensures old(Available(nMax)) < minFree && Available(nMax) < refill ==>
                active == [] || StuckOnOldest(old(active))
      ensures Aged(old(active), active, invalid)
    {
      hide Core, Mapped, Rotated, Aged, Before;
      AgedNone(active, invalid);
      if Available(nMax) >= minFree {
        return 0;
      }
      SoundList();
      while Available(nMax) < refill
        invariant Sound({}) && 0 <= nUsed <= old(nUsed) && Aged(old(active), active, invalid)
        decreases nUsed
      {
        ghost var was, before := active, invalid;
        var any := ZapOldest();
        AgedThen(old(active), was, active, before, invalid);
        SoundList();
        if !any {
          if was != [] {
            AgedMore(old(active), was, before, invalid);
            Stuck(old(active), was);
          }
          break;
        }
      }
      Commit(old(active));
      r := if Available(nMax) == 0 then -ENOSPC else 0;
    }

    // -------------------------------------------------- obsolete pages

    predicate Obsolete(p: PageId)
      reads this`pages, this`validGen
    {
      p in pages && pages[p].gen != validGen
    }

    /** vmrun_zap_obsolete_pages: afterwards an obsolete page is on the list only as an invalid root. */
    method ZapObsolete()
      requires Sound({})
      modifies this`pages, this`spt, this`parents, this`unsync, this`childBits, this`childCount, this`rmap,
               this`invalid, this`active, this`zapped, this`nUsed, this`gfnTrack, this`disallow, this`indirect,
               this`rootCount
      ensures Sound({}) && zapped == {} && nUsed <= old(nUsed)
      ensures forall p | p in active && Obsolete(p) :: p in invalid && p in rootCount && 0 < rootCount[p]
      ensures forall p | p in active :: p in old(active)
      ensures forall p | p in pages :: p in old(pages) && pages[p] == old(pages)[p]
    {
      hide Core, Mapped, Took, Remove, Shrunk, NoDup, Live;
      SoundList();
      var k, moved := |active| - 1, 0;
      while moved <= k
        invariant Sound({}) && pages == old(pages) && nUsed == |active| <= old(nUsed) && -1 <= k < |active|
                  && 0 <= moved
        invariant forall j | k < j < |active| :: active[j] in invalid
        invariant forall j | 0 <= j < moved && j < |active| :: active[j] in invalid
        invariant forall p | p in active :: p in old(active)
        decreases Live(Lists()), k
      {
        var p := active[k];
        if !Obsolete(p) {
          break;
        }
        if p in invalid {
          k := k - 1;
          continue;
        }
        ZapReady(p);
        label step:
        SoundList();
        var n := PrepareZap(p, {});
        TookShrinks(old@step(Lists()), Lists(), p, n);
        SoundList();
        if n != 0 {
          k, moved := |active| - 1, 0;
        } else {
          MovedToHead(old@step(active), p, k);
          moved := moved + 1;
        }
      }
      NoneLeft(k, moved);
      CommitZap({});
    }

    lemma SoundList()
      requires Sound({})
      ensures nUsed == |active| && NoDup(active) && forall p | p in active :: p !in zapped && p in pages
    {
      hide Graph, Marks, Mapped, Balanced, Guarded, Backed, Detached, Held, Ordered, NoDup;
    }

    /** Where the reverse walk stops, the list order has the rest. */
    lemma NoneLeft(k: int, moved: nat)
      requires Sound({}) && -1 <= k < |active|
      requires k < moved || !Obsolete(active[k])
      requires forall j | k < j < |active| :: active[j] in invalid
      requires forall j | 0 <= j < moved && j < |active| :: active[j] in invalid
      ensures forall p | p in active && Obsolete(p) :: p in invalid && p in rootCount && 0 < rootCount[p]
      ensures forall p | p in active :: p !in zapped
    {
      hide Graph, Marks, Mapped, Balanced, Guarded, Backed, Detached, NoDup;
      forall p | p in active && Obsolete(p)
        ensures p in invalid
      {
        var j :| 0 <= j < |active| && active[j] == p;
        if moved <= j < k {
          assert NoNewer(pages, invalid, active[j], active[k]);
        }
      }
    }

    /** mmu_valid_gen++. */
    method BumpGeneration()
      requires Sound({})
      modifies this`validGen
      ensures Sound({}) && validGen == old(validGen) + 1 && forall p | p in pages :: Obsolete(p)
    {
      hide Graph, Marks, Mapped, Balanced, Detached, ListShape, Held;
      validGen := validGen + 1;
    }

    /** vmrun_mmu_invalidate_zap_all_pages: only invalid roots survive. */
    method InvalidateZapAll()
      requires Sound({})
      modifies this`pages, this`spt, this`parents, this`unsync, this`childBits, this`childCount, this`rmap,
               this`invalid, this`active, this`zapped, this`nUsed, this`gfnTrack, this`disallow, this`indirect,
               this`rootCount, this`validGen
      ensures Sound({}) && validGen == old(validGen) + 1
      ensures forall p | p in active :: p in invalid && p in rootCount && 0 < rootCount[p]
    {
      hide Core, Mapped;
      BumpGeneration();
      ZapObsolete();
      SoundList();
    }

    // -------------------------------------------------- entries changed without mmu_need_write_protect

    /** fast_page_fault on a leaf of a direct level-1 page: the lockless path may set W only where both
      software bits allow it. */
    method FastFault(r: SpteRef)
      requires Sound({}) && r in spt && spt[r].Leaf? && spt[r].hostW && spt[r].mmuW
      modifies this`spt
      ensures Sound({}) && spt == old(spt)[r := old(spt)[r].(w := true)]
    {
      hide Graph, Marks, Mapped, Balanced, Guarded, Backed, ListShape, Detached, Held, Ordered;
      WeakenedKeeps(pages, spt, spt[r := spt[r].(w := true)], parents, rmap);
      WeakenKeeps(pages, spt, spt[r := spt[r].(w := true)], parents, unsync, childBits, childCount, invalid, rootCount,
                  zapped, validGen);
      BackedSet(spt, r, spt[r].(w := true), changed);
      spt := spt[r := spt[r].(w := true)];
    }

    /** __rmap_write_protect for dirty logging: only W is cleared. */
    method DirtyLogProtect(b: Bucket) returns (flush: bool)
      requires Sound({})
      modifies this`spt
      ensures Sound({}) && Weakened(old(spt), spt)
      ensures forall r | r in Chain(rmap, b) ::
                && r in spt && r in old(spt) && old(spt)[r].Leaf? && spt[r] == WriteProtected(old(spt)[r], false)
                && spt[r].mmuW == old(spt)[r].mmuW
      ensures forall r | r in spt && r !in Chain(rmap, b) :: r in old(spt) && spt[r] == old(spt)[r]
      ensures flush <==> spt != old(spt)
    {
      hide Graph, Marks, Mapped, Balanced, Guarded, Backed, ListShape, Detached, Held, Ordered, Weakened;
      ChainFacts(pages, spt, rmap, b);
      flush := RmapWriteProtect(b, false);
      BackedProtect(old(spt), spt, changed, false);
      WeakenKeeps(pages, old(spt), spt, parents, unsync, childBits, childCount, invalid, rootCount, zapped, validGen);
    }

    /** vmrun_set_pte_rmapp for one entry whose host page became read-only at another frame. */
    method ChangePte(r: SpteRef, pfn: Pfn)
      requires Sound({}) && r in spt && spt[r].Leaf?
      modifies this`spt, this`changed
      ensures Sound({}) && spt == old(spt)[r := old(spt)[r].(pfn := pfn, w := false, hostW := false)]
              && !Writable(spt[r])
      ensures changed == old(changed) + {r}
    {
      hide Graph, Marks, Mapped, Balanced, Guarded, Backed, ListShape, Detached, Held, Ordered;
      var e := spt[r].(pfn := pfn, w := false, hostW := false);
      WeakenedKeeps(pages, spt, spt[r := e], parents, rmap);
      WeakenKeeps(pages, spt, spt[r := e], parents, unsync, childBits, childCount, invalid, rootCount, zapped,
                  validGen);
      ChangeBacked(spt, r, e, changed);
      spt, changed := spt[r := e], changed + {r};
    }

    /** vmrun_mmu_unprotect_page. */
    method UnprotectPage(gfn: Gfn) returns (any: bool)
      requires Sound({})
      modifies this`pages, this`spt, this`parents, this`unsync, this`childBits, this`childCount, this`rmap,
               this`invalid, this`active, this`zapped, this`nUsed, this`gfnTrack, this`disallow, this`indirect,
               this`rootCount
      ensures Sound({}) && IndirectValid(pages, invalid, validGen, gfn) == {}
      ensures any <==> old(IndirectValid(pages, invalid, validGen, gfn)) != {}
    {
      hide Sound, Took, Shrunk, Remove;
      any := false;
      var sps := IndirectValid(pages, invalid, validGen, gfn);
      var todo := sps;
      while todo != {}
        invariant todo <= sps && (any <==> todo != sps)
        invariant Sound({}) && old(invalid) <= invalid && sps - todo <= invalid && pages == old(pages)
        decreases |todo|
      {
        var p :| p in todo;
        todo, any := todo - {p}, true;
        if p !in invalid {
          SoundValid(p);
          ZapReady(p);
          label step:
          var n := PrepareZap(p, {});
          TookShrinks(old@step(Lists()), Lists(), p, n);
        }
      }
      FewerValid(pages, old(invalid), invalid, validGen, gfn);
      assert sps <= invalid;
      CommitZap({});
    }
  }
}
