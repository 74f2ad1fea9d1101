/** Mapping a guest frame through direct shadow pages, and what the hardware walk then finds. */
module DirectMaps {
  import opened Options
  import opened ShadowState
  import opened Protection
  import opened UnsyncPaths
  import opened ShadowMmus
  import opened Division
  import Accounts

  /** SHADOW_PT_INDEX of the address of a frame. */
  function Index(gfn: Gfn, level: nat): (i: nat)
    ensures i < ENT_PER_PAGE
  {
    gfn / Span(level) % ENT_PER_PAGE
  }

  /** The first frame of the page of that level that maps `gfn`. */
  function Base(gfn: Gfn, level: nat): Gfn {
    gfn - gfn % (ENT_PER_PAGE * Span(level))
  }

  /** The hardware walk from page `p`: the entry it ends in. */
  ghost function Translate(pages: Pages, spt: Spt, p: PageId, gfn: Gfn): Option<Entry>
    decreases if p in pages then pages[p].level else 0
  {
    if p !in pages then None
    else
      var r := SpteRef(p, Index(gfn, pages[p].level));
      if r !in spt then None
      else if !spt[r].Link? then Some(spt[r])
      else if spt[r].child in pages && pages[spt[r].child].level < pages[p].level
      then Translate(pages, spt, spt[r].child, gfn)
      else None
  }

  /** The path takes the index of `gfn` at every level. */
  ghost predicate Follows(pages: Pages, path: seq<SpteRef>, gfn: Gfn) {
    forall k | 0 <= k < |path| :: path[k].page in pages && path[k].index == Index(gfn, pages[path[k].page].level)
  }

  // ---------------------------------------------------------------- arithmetic

  lemma Distribute(span: nat, q: nat, i: nat)
    ensures span * (512 * q + i) == 512 * span * q + span * i
    ensures span * (512 * q) == 512 * span * q
  {
  }

  lemma Fits(span: nat, i: nat, r: nat)
    requires i < 512 && r < span
    ensures span * i + r < 512 * span
  {
    assert span * i <= span * 511;
  }

  /** The first frame of a page, the index in it and the first frame behind the entry. */
  lemma BaseDigits(gfn: Gfn, span: nat)
    requires 0 < span
    ensures 0 < 512 * span && gfn % (512 * span) <= gfn
    ensures var base := gfn - gfn % (512 * span); base / span + gfn / span % 512 == gfn / span
    ensures gfn / span * span == gfn - gfn % span
  {
    var g, r := gfn / span, gfn % span;
    var q, i := g / 512, g % 512;
    Distribute(span, q, i);
    Fits(span, i, r);
    DivMod(gfn, 512 * span, q, span * i + r);
    DivMod(512 * span * q, span, 512 * q, 0);
  }

  lemma EntryPlace(gfn: Gfn, level: nat)
    requires 1 <= level <= ROOT_MAX_LEVEL
    ensures 0 <= Base(gfn, level) && Base(gfn, level) / Span(level) + Index(gfn, level) == gfn / Span(level)
    ensures 1 < level ==> 0 <= Base(gfn, level - 1) && gfn / Span(level) * Span(level) == Base(gfn, level - 1)
  {
    BaseDigits(gfn, Span(level));
    if 1 < level {
      assert 512 * Span(level - 1) == Span(level);
    }
  }

  // ---------------------------------------------------------------- walks

  /** Along a path that takes the index of the frame at every level, the walk goes on. */
  lemma {:induction false} TranslateAlong(pages: Pages, spt: Spt, parents: Parents, root: PageId, path: seq<SpteRef>,
                                          p: PageId, gfn: Gfn)
    requires Graph(pages, spt, parents) && root in pages && IsPath(spt, root, path, p) && Follows(pages, path, gfn)
    ensures Translate(pages, spt, root, gfn) == Translate(pages, spt, p, gfn)
    decreases |path|
  {
    if path != [] {
      var rest := path[1..];
      var c := NodeAt(path, p, 1);
      assert path[0] in spt && spt[path[0]] == Link(c) && path[0].page == root;
      assert EntryFits(pages, pages[root].level, spt[path[0]]);
      assert forall k | 0 <= k <= |rest| :: NodeAt(rest, p, k) == NodeAt(path, p, k + 1);
      forall k | 0 <= k < |rest|
        ensures rest[k] in spt && spt[rest[k]] == Link(NodeAt(rest, p, k + 1))
      {
        assert rest[k] == path[k + 1];
      }
      TranslateAlong(pages, spt, parents, c, rest, p, gfn);
    }
  }

  /** Changes to the entries of the last page leave the path to it alone. */
  lemma PathKept(pages: Pages, spt: Spt, spt': Spt, parents: Parents, root: PageId, path: seq<SpteRef>, p: PageId)
    requires Graph(pages, spt, parents) && root in pages && IsPath(spt, root, path, p)
    requires forall q | q in spt && spt[q].Link? && q.page != p :: q in spt' && spt'[q] == spt[q]
    ensures IsPath(spt', root, path, p)
  {
    PathLevel(pages, spt, parents, root, path, p, |path|);
    forall k | 0 <= k < |path|
      ensures path[k] in spt' && spt'[path[k]] == Link(NodeAt(path, p, k + 1))
    {
      PathLevel(pages, spt, parents, root, path, p, k);
      assert spt[path[k]] == Link(NodeAt(path, p, k + 1));
    }
  }

  /** A page on the way: direct, and the one that maps the frame at its level. */
  ghost predicate OnTheWay(pages: Pages, p: PageId, gfn: Gfn) {
    p in pages && pages[p].direct && 1 <= pages[p].level <= ROOT_MAX_LEVEL && pages[p].gfn == Base(gfn, pages[p].level)
  }

  lemma InPlace(pages: Pages, p: PageId, gfn: Gfn)
    requires OnTheWay(pages, p, gfn)
    ensures var l := pages[p].level; Block(l, gfn) == Block(l, pages[p].gfn) + Index(gfn, l)
  {
    EntryPlace(gfn, pages[p].level);
  }

  lemma LinkInPlace(pages: Pages, p: PageId, gfn: Gfn, c: PageId)
    requires OnTheWay(pages, p, gfn) && 1 < pages[p].level
    requires OnTheWay(pages, c, gfn) && pages[c].level + 1 == pages[p].level
    ensures DirectEntry(pages, pages[p], Index(gfn, pages[p].level), Link(c))
  {
    EntryPlace(gfn, pages[p].level);
  }

  lemma ChildInPlace(pages: Pages, spt: Spt, parents: Parents, p: PageId, gfn: Gfn)
    requires Graph(pages, spt, parents) && OnTheWay(pages, p, gfn)
    requires var r := SpteRef(p, Index(gfn, pages[p].level)); r in spt && spt[r].Link?
    ensures var r := SpteRef(p, Index(gfn, pages[p].level));
            OnTheWay(pages, spt[r].child, gfn) && pages[spt[r].child].level + 1 == pages[p].level
  {
    var l := pages[p].level;
    var r := SpteRef(p, Index(gfn, l));
    assert EntryFits(pages, l, spt[r]) && DirectEntry(pages, pages[p], r.index, spt[r]);
    PageFacts(pages, spt, parents, spt[r].child);
    EntryPlace(gfn, l);
  }

  // ---------------------------------------------------------------- walks of other frames

  lemma {:induction false} Coarser(a: Gfn, b: Gfn, fine: nat, coarse: nat)
    requires 1 <= fine <= coarse <= ROOT_MAX_LEVEL && Block(fine, a) == Block(fine, b)
    ensures Block(coarse, a) == Block(coarse, b)
    decreases coarse - fine
  {
    if fine < coarse {
      BlockAbove(a, fine);
      BlockAbove(b, fine);
      Coarser(a, b, fine + 1, coarse);
    }
  }

  lemma BlockAbove(gfn: Gfn, level: nat)
    requires 1 <= level < ROOT_MAX_LEVEL
    ensures Block(level + 1, gfn) == Block(level, gfn) / 512
  {
    var span := Span(level);
    assert Span(level + 1) == 512 * span;
    var g, r := gfn / span, gfn % span;
    var q, i := g / 512, g % 512;
    Distribute(span, q, i);
    Fits(span, i, r);
    DivMod(gfn, 512 * span, q, span * i + r);
  }

  ghost predicate Differs(spt: Spt, spt': Spt, r: SpteRef) {
    (r in spt) != (r in spt') || (r in spt && spt'[r] != spt[r])
  }

  /** Of the entries of direct pages, only those that stand for the block of `gfn` differ, up to level `top`. */
  ghost predicate OnlyFor(pages: Pages, spt: Spt, spt': Spt, gfn: Gfn, top: nat) {
    forall r | Differs(spt, spt', r) && r.page in pages && pages[r.page].direct ::
      var l := pages[r.page].level;
      l <= top && Block(l, gfn) == Block(l, pages[r.page].gfn) + r.index
  }

  /** Such a change leaves the walk of every frame outside the block of `gfn` at level `top` alone. */
  lemma {:induction false} WalkElsewhere(pages: Pages, spt: Spt, parents: Parents, pages': Pages, spt': Spt,
                                         parents': Parents, p: PageId, gfn: Gfn, top: nat, g: Gfn)
    requires Graph(pages, spt, parents) && Graph(pages', spt', parents') && OnlyFor(pages, spt, spt', gfn, top)
    requires forall q | q in pages && q in pages' :: pages'[q] == pages[q]
    requires OnTheWay(pages, p, g) && p in pages'
    requires top <= ROOT_MAX_LEVEL && Block(top, g) != Block(top, gfn)
    ensures Translate(pages', spt', p, g) == Translate(pages, spt, p, g)
    decreases pages[p].level
  {
    var l := pages[p].level;
    var r := SpteRef(p, Index(g, l));
    InPlace(pages, p, g);
    if l <= top && Block(l, g) == Block(l, gfn) {
      Coarser(g, gfn, l, top);
    }
    assert !Differs(spt, spt', r);
    if r in spt && spt[r].Link? {
      ChildInPlace(pages, spt, parents, p, g);
      assert EntryFits(pages', l, spt'[r]);
      WalkElsewhere(pages, spt, parents, pages', spt', parents', spt[r].child, gfn, top, g);
    }
  }

  /** The walks from `root` are as they were, but for the frames of the block of `gfn` at level `top`. */
  ghost predicate SameElsewhere(pages: Pages, spt: Spt, pages': Pages, spt': Spt, root: PageId, gfn: Gfn, top: nat) {
    forall g | OnTheWay(pages, root, g) && Block(top, g) != Block(top, gfn) ::
      Translate(pages', spt', root, g) == Translate(pages, spt, root, g)
  }

  lemma WalksElsewhere(pages: Pages, spt: Spt, parents: Parents, pages': Pages, spt': Spt, parents': Parents,
                       root: PageId, gfn: Gfn, top: nat)
    requires Graph(pages, spt, parents) && Graph(pages', spt', parents') && OnlyFor(pages, spt, spt', gfn, top)
    requires forall q | q in pages && q in pages' :: pages'[q] == pages[q]
    requires root in pages' && top <= ROOT_MAX_LEVEL
    ensures SameElsewhere(pages, spt, pages', spt', root, gfn, top)
  {
    forall g | OnTheWay(pages, root, g) && Block(top, g) != Block(top, gfn)
      ensures Translate(pages', spt', root, g) == Translate(pages, spt, root, g)
    {
      WalkElsewhere(pages, spt, parents, pages', spt', parents', root, gfn, top, g);
    }
  }

  lemma ElsewhereThen(pages: Pages, spt: Spt, pages': Pages, spt': Spt, pages'': Pages, spt'': Spt, root: PageId,
                      gfn: Gfn, top: nat)
    requires SameElsewhere(pages, spt, pages', spt', root, gfn, top)
    requires SameElsewhere(pages', spt', pages'', spt'', root, gfn, top)
    requires root in pages && root in pages' && pages'[root] == pages[root]
    ensures SameElsewhere(pages, spt, pages'', spt'', root, gfn, top)
  {
    forall g | OnTheWay(pages, root, g) && Block(top, g) != Block(top, gfn)
      ensures Translate(pages'', spt'', root, g) == Translate(pages, spt, root, g)
    {
      assert OnTheWay(pages', root, g);
    }
  }

  /** A change of the one entry that stands for the frame on its way. */
  lemma OneEntryOnly(pages: Pages, spt: Spt, spt': Spt, p: PageId, gfn: Gfn, top: nat)
    requires OnTheWay(pages, p, gfn) && pages[p].level <= top
    requires var r := SpteRef(p, Index(gfn, pages[p].level)); spt' - {r} == spt - {r}
    ensures OnlyFor(pages, spt, spt', gfn, top)
  {
    var r := SpteRef(p, Index(gfn, pages[p].level));
    InPlace(pages, p, gfn);
    forall q | q != r
      ensures !Differs(spt, spt', q)
    {
      assert q in spt <==> q in spt - {r};
      assert q in spt' <==> q in spt' - {r};
    }
  }

  /** A recycled chain: its entries on direct pages stand for the block too. */
  lemma ChainOnly(pages: Pages, spt: Spt, parents: Parents, rmap: Rmap, p: PageId, gfn: Gfn, top: nat)
    requires Graph(pages, spt, parents) && Mapped(pages, spt, rmap) && OnTheWay(pages, p, gfn) && pages[p].level <= top
    ensures var r := SpteRef(p, Index(gfn, pages[p].level));
            OnlyFor(pages, spt, spt - {r} - Chain(rmap, BucketOf(pages[p].level, gfn)), gfn, top)
  {
    var l := pages[p].level;
    var r, chain := SpteRef(p, Index(gfn, l)), Chain(rmap, BucketOf(l, gfn));
    InPlace(pages, p, gfn);
    forall q | q in chain && q.page in pages && pages[q.page].direct
      ensures pages[q.page].level == l && Block(l, gfn) == Block(l, pages[q.page].gfn) + q.index
    {
      assert q in spt && BucketOf(pages[q.page].level, spt[q].gfn) == BucketOf(l, gfn);
      assert DirectEntry(pages, pages[q.page], q.index, spt[q]);
    }
    forall q | Differs(spt, spt - {r} - chain, q)
      ensures q == r || q in chain
    {
    }
  }

  /** The level at which the walk of `gfn` leaves the links that are there, or `level` if that comes first. */
  ghost function StopLevel(pages: Pages, spt: Spt, p: PageId, gfn: Gfn, level: nat): (stop: nat)
    requires p in pages
    ensures stop <= pages[p].level
    decreases pages[p].level
  {
    var l := pages[p].level;
    var r := SpteRef(p, Index(gfn, l));
    if level < l && r in spt && spt[r].Link? && spt[r].child in pages && pages[spt[r].child].level < l
    then StopLevel(pages, spt, spt[r].child, gfn, level) else l
  }

  // ---------------------------------------------------------------- __direct_map

  /** The walk from `root` has come to page `p`. */
  ghost predicate At(mmu: ShadowMmu, root: PageId, path: seq<SpteRef>, p: PageId, gfn: Gfn)
    reads mmu
  {
    && mmu.Sound({}) && root in mmu.pages && IsPath(mmu.spt, root, path, p) && Follows(mmu.pages, path, gfn)
    && OnTheWay(mmu.pages, p, gfn) && p in mmu.active
  }

  lemma FollowsKept(pages: Pages, pages': Pages, spt: Spt, parents: Parents, parents': Parents, root: PageId,
                    path: seq<SpteRef>, p: PageId, gfn: Gfn, added: PageId)
    requires Graph(pages, spt, parents) && Graph(pages', spt, parents') && added !in pages && root in pages
    requires forall q | q in pages' && q != added :: q in pages && pages'[q] == pages[q]
    requires IsPath(spt, root, path, p) && Follows(pages, path, gfn) && p in pages'
    ensures root in pages' && Follows(pages', path, gfn)
  {
    forall k | 0 <= k < |path|
      ensures path[k].page in pages' && path[k].page in pages
    {
      assert path[k] in spt;
    }
    assert root == NodeAt(path, p, 0);
  }

  /** What drop_large_spte drops, and an MMIO entry that a link will replace. */
  method ClearTheWay(mmu: ShadowMmu, p: PageId, gfn: Gfn, ghost root: PageId, ghost path: seq<SpteRef>)
    requires At(mmu, root, path, p, gfn)
    modifies mmu`spt, mmu`rmap
    ensures At(mmu, root, path, p, gfn)
    ensures var r := SpteRef(p, Index(gfn, mmu.pages[p].level));
            && mmu.spt == (if r in old(mmu.spt) && !old(mmu.spt)[r].Link? then old(mmu.spt) - {r} else old(mmu.spt))
            && (r in mmu.spt ==> mmu.spt[r].Link?)
  {
    hide Graph, Mapped, Marks, Accounts.Balanced, Guarded, Backed, ShadowMmu.Listed, IsPath, Follows, Index, Base;
    var r := SpteRef(p, Index(gfn, mmu.pages[p].level));
    if r in mmu.spt && !mmu.spt[r].Link? {
      PathKept(mmu.pages, mmu.spt, mmu.spt - {r}, mmu.parents, root, path, p);
      mmu.DropMapped(r);
    }
  }

  /** A missing page is found or made, and linked. */
  method LinkMissing(mmu: ShadowMmu, p: PageId, gfn: Gfn, role: nat, newPage: PageId, ghost root: PageId,
                     ghost path: seq<SpteRef>)
    requires At(mmu, root, path, p, gfn) && 1 < mmu.pages[p].level && newPage !in mmu.pages
    requires SpteRef(p, Index(gfn, mmu.pages[p].level)) !in mmu.spt
    modifies mmu
    ensures p in mmu.pages && mmu.pages[p] == old(mmu.pages[p])
    ensures var r := SpteRef(p, Index(gfn, mmu.pages[p].level));
            r in mmu.spt && mmu.spt[r].Link? && mmu.spt == old(mmu.spt)[r := mmu.spt[r]]
    ensures forall q | q in mmu.pages && q != newPage :: q in old(mmu.pages) && mmu.pages[q] == old(mmu.pages)[q]
    ensures At(mmu, root, path, p, gfn)
  {
    hide Graph, Mapped, Marks, Accounts.Balanced, Guarded, Backed, ShadowMmu.Listed, IsPath, Follows, Index, Base;
    var l := mmu.pages[p].level;
    var r := SpteRef(p, Index(gfn, l));
    EntryPlace(gfn, l);
    ghost var pages, parents := mmu.pages, mmu.parents;
    BaseOf(gfn, l);
    var c := mmu.GetPage(gfn - gfn % Span(l), l - 1, true, role, newPage, map[]);
    mmu.SoundRoot(p);
    FollowsKept(pages, mmu.pages, mmu.spt, parents, mmu.parents, root, path, p, gfn, newPage);
    LinkInPlace(mmu.pages, p, gfn, c);
    PathKept(mmu.pages, mmu.spt, mmu.spt[r := Link(c)], mmu.parents, root, path, p);
    mmu.LinkShadowPage(r, c);
  }

  /** PT64_LVL_ADDR_MASK: the first frame of the page below an entry. */
  lemma BaseOf(gfn: Gfn, level: nat)
    requires 1 < level <= ROOT_MAX_LEVEL
    ensures gfn % Span(level) <= gfn && gfn - gfn % Span(level) == Base(gfn, level - 1)
  {
    assert 512 * Span(level - 1) == Span(level);
  }

  /** One step down. */
  method Descend(mmu: ShadowMmu, p: PageId, gfn: Gfn, role: nat, newPage: PageId, ghost root: PageId,
                 ghost path: seq<SpteRef>)
    returns (c: PageId)
    requires At(mmu, root, path, p, gfn) && 1 < mmu.pages[p].level && newPage !in mmu.pages
    modifies mmu
    ensures c in mmu.pages && mmu.pages[c].level + 1 == old(mmu.pages[p].level)
    ensures forall q | q in mmu.pages && q != newPage :: q in old(mmu.pages) && mmu.pages[q] == old(mmu.pages)[q]
    ensures var r := SpteRef(p, Index(gfn, old(mmu.pages[p].level)));
            && mmu.spt - {r} == old(mmu.spt) - {r} && r in mmu.spt && mmu.spt[r] == Link(c)
            && (r in old(mmu.spt) && old(mmu.spt)[r].Link? ==> mmu.spt == old(mmu.spt) && mmu.pages == old(mmu.pages))
    ensures At(mmu, root, path + [SpteRef(p, Index(gfn, old(mmu.pages[p].level)))], c, gfn)
  {
    hide Graph, Mapped, Marks, Accounts.Balanced, Guarded, Backed, ShadowMmu.Listed, IsPath, Index, Base;
    var r := SpteRef(p, Index(gfn, mmu.pages[p].level));
    ClearTheWay(mmu, p, gfn, root, path);
    if r !in mmu.spt {
      LinkMissing(mmu, p, gfn, role, newPage, root, path);
    }
    c := mmu.spt[r].child;
    AppendPath(mmu.spt, root, path, p, r, c);
    ChildInPlace(mmu.pages, mmu.spt, mmu.parents, p, gfn);
    mmu.SoundChild(r);
  }

  /** What the walk ends in: the MMIO entry if no slot holds the frame; nothing new if the size is not allowed, so that
    only an MMIO entry or an older mapping to the same page is left; else the mapping, unless its chain was recycled. */
  predicate Outcome(t: Option<Entry>, refused: bool, write: bool, hostW: bool, gfn: Gfn, pfn: Pfn, noslot: bool,
                    recycle: bool)
  {
    if noslot then t == Some(Mmio(gfn))
    else if refused then t.Some? ==> t.value.Mmio? || (t.value.Leaf? && t.value.pfn == pfn)
    else t == Some(Leaf(gfn, pfn, write && hostW, hostW, write && hostW)) || (recycle && t == None)
  }

  /** __direct_map: afterwards the hardware walk of the frame from the root ends in an entry for it, which maps the page
    with the wanted access unless the frame is tracked; or in an MMIO entry if no slot holds the frame. The walk of
    every other frame is as it was, but for those behind the entry at which the walk of this frame first left the links
    that were there. `newPages[l]` is what the allocator would return for a page of level `l`. */
  method DirectMap(mmu: ShadowMmu, root: PageId, write: bool, hostW: bool, level: nat, gfn: Gfn, pfn: Pfn, noslot: bool,
                   recycle: bool, role: nat, newPages: seq<PageId>)
    returns (writeProtected: bool)
    requires mmu.Sound({}) && root in mmu.active && OnTheWay(mmu.pages, root, gfn)
    requires 1 <= level <= mmu.pages[root].level && level <= MAX_HUGEPAGE_LEVEL
    requires |newPages| == ROOT_MAX_LEVEL && forall i | 0 <= i < |newPages| :: newPages[i] !in mmu.pages
    requires forall i, j | 0 <= i < j < |newPages| :: newPages[i] != newPages[j]
    modifies mmu
    ensures var refused := write && hostW && Accounts.Disallowed(mmu.disallow, level, gfn);
            && Outcome(Translate(mmu.pages, mmu.spt, root, gfn), refused, write && !writeProtected, hostW, gfn, pfn,
                       noslot, recycle)
            && (writeProtected <==> !noslot && write && hostW && !refused && mmu.TrackActive(gfn))
    ensures SameElsewhere(old(mmu.pages), old(mmu.spt), mmu.pages, mmu.spt, root, gfn,
                          old(StopLevel(mmu.pages, mmu.spt, root, gfn, level)))
    ensures mmu.Sound({})
  {
    hide Graph, Mapped, Marks, Accounts.Balanced, Guarded, Backed, ShadowMmu.Listed, IsPath, Index, Base;
    hide SameElsewhere, OnlyFor;
    var p := root;
    ghost var path: seq<SpteRef> := [];
    assert IsPath(mmu.spt, root, path, p) by {
      RootPath(mmu.spt, root);
    }
    var l := mmu.pages[p].level;
    ghost var top := StopLevel(mmu.pages, mmu.spt, root, gfn, level);
    NothingElsewhere(mmu.pages, mmu.spt, root, gfn, top);
    while l != level
      invariant level <= l && p in mmu.pages && mmu.pages[p].level == l
      invariant forall i | 0 <= i < |newPages| && i < l :: newPages[i] !in mmu.pages
      invariant root in mmu.pages && mmu.pages[root] == old(mmu.pages[root])
      invariant || Unmoved(old(mmu.pages), old(mmu.spt), mmu.pages, mmu.spt, p, gfn, level, top)
                || l < top <= ROOT_MAX_LEVEL
      invariant SameElsewhere(old(mmu.pages), old(mmu.spt), mmu.pages, mmu.spt, root, gfn, top)
      invariant At(mmu, root, path, p, gfn)
    {
      ghost var r := SpteRef(p, Index(gfn, l));
      p := DescendElsewhere(mmu, p, gfn, role, newPages[l - 1], root, path, level, top, old(mmu.pages), old(mmu.spt));
      path := path + [r];
      l := l - 1;
    }
    ghost var spt, parents := mmu.spt, mmu.parents;
    writeProtected := Install(mmu, root, path, p, write, hostW, gfn, pfn, noslot, recycle);
    OnlyForMore(mmu.pages, spt, mmu.spt, gfn, level, top);
    WalksElsewhere(mmu.pages, spt, parents, mmu.pages, mmu.spt, mmu.parents, root, gfn, top);
    ElsewhereThen(old(mmu.pages), old(mmu.spt), mmu.pages, spt, mmu.pages, mmu.spt, root, gfn, top);
  }

  /** Nothing has changed yet, and the walk from `p` stops where that from the root does. */
  ghost predicate Unmoved(pages: Pages, spt: Spt, pages': Pages, spt': Spt, p: PageId, gfn: Gfn, level: nat, top: nat) {
    pages' == pages && spt' == spt && p in pages && StopLevel(pages, spt, p, gfn, level) == top <= ROOT_MAX_LEVEL
  }

  lemma NothingElsewhere(pages: Pages, spt: Spt, root: PageId, gfn: Gfn, top: nat)
    ensures SameElsewhere(pages, spt, pages, spt, root, gfn, top)
  {
  }

  lemma OnlyForMore(pages: Pages, spt: Spt, spt': Spt, gfn: Gfn, low: nat, top: nat)
    requires OnlyFor(pages, spt, spt', gfn, low) && low <= top
    ensures OnlyFor(pages, spt, spt', gfn, top)
  {
  }

  /** One step down, and the walks of other frames. */
  method DescendElsewhere(mmu: ShadowMmu, p: PageId, gfn: Gfn, role: nat, newPage: PageId, ghost root: PageId,
                          ghost path: seq<SpteRef>, ghost level: nat, ghost top: nat, ghost pages0: Pages,
                          ghost spt0: Spt)
    returns (c: PageId)
    requires At(mmu, root, path, p, gfn) && level < mmu.pages[p].level && 1 <= level && newPage !in mmu.pages
    requires root in pages0 && mmu.pages[root] == pages0[root]
    requires || Unmoved(pages0, spt0, mmu.pages, mmu.spt, p, gfn, level, top)
             || mmu.pages[p].level < top <= ROOT_MAX_LEVEL
    requires SameElsewhere(pages0, spt0, mmu.pages, mmu.spt, root, gfn, top)
    modifies mmu
    ensures c in mmu.pages && mmu.pages[c].level + 1 == old(mmu.pages[p].level)
    ensures forall q | q in mmu.pages && q != newPage :: q in old(mmu.pages) && mmu.pages[q] == old(mmu.pages)[q]
    ensures root in mmu.pages && mmu.pages[root] == pages0[root]
    ensures || Unmoved(pages0, spt0, mmu.pages, mmu.spt, c, gfn, level, top)
            || mmu.pages[c].level < top <= ROOT_MAX_LEVEL
    ensures SameElsewhere(pages0, spt0, mmu.pages, mmu.spt, root, gfn, top)
    ensures At(mmu, root, path + [SpteRef(p, Index(gfn, old(mmu.pages[p].level)))], c, gfn)
  {
    hide Graph, Mapped, Marks, Accounts.Balanced, Guarded, Backed, ShadowMmu.Listed, IsPath, Index, Base;
    hide SameElsewhere, OnlyFor;
    ghost var pages, spt, parents := mmu.pages, mmu.spt, mmu.parents;
    ghost var r := SpteRef(p, Index(gfn, mmu.pages[p].level));
    c := Descend(mmu, p, gfn, role, newPage, root, path);
    if !(r in spt && spt[r].Link?) {
      OneEntryOnly(pages, spt, mmu.spt, p, gfn, top);
      WalksElsewhere(pages, spt, parents, mmu.pages, mmu.spt, mmu.parents, root, gfn, top);
      ElsewhereThen(pages0, spt0, pages, spt, mmu.pages, mmu.spt, root, gfn, top);
    }
  }

  lemma RootPath(spt: Spt, root: PageId)
    ensures IsPath(spt, root, [], root)
  {
  }

  /** The last step: the entry of the page that the walk has come to. */
  method Install(mmu: ShadowMmu, ghost root: PageId, ghost path: seq<SpteRef>, p: PageId, write: bool, hostW: bool,
                 gfn: Gfn, pfn: Pfn, noslot: bool, recycle: bool)
    returns (writeProtected: bool)
    requires At(mmu, root, path, p, gfn) && mmu.pages[p].level <= MAX_HUGEPAGE_LEVEL
    modifies mmu
    ensures mmu.disallow == old(mmu.disallow) && mmu.pages == old(mmu.pages)
    ensures var refused := write && hostW && Accounts.Disallowed(mmu.disallow, mmu.pages[p].level, gfn);
            && Outcome(Translate(mmu.pages, mmu.spt, root, gfn), refused, write && !writeProtected, hostW, gfn, pfn,
                       noslot, recycle)
            && (writeProtected <==> !noslot && write && hostW && !refused && mmu.TrackActive(gfn))
    ensures OnlyFor(mmu.pages, old(mmu.spt), mmu.spt, gfn, mmu.pages[p].level)
    ensures mmu.Sound({})
  {
    hide Graph, Mapped, Marks, Accounts.Balanced, Guarded, Backed, ShadowMmu.Listed, IsPath, Index, Base;
    var r := SpteRef(p, Index(gfn, mmu.pages[p].level));
    InPlace(mmu.pages, p, gfn);
    ghost var spt, parents := mmu.spt, mmu.parents;
    ChainOnly(mmu.pages, spt, parents, mmu.rmap, p, gfn, mmu.pages[p].level);
    writeProtected := mmu.MmuSetSpte(r, write, gfn, pfn, noslot, hostW, recycle);
    if mmu.spt - {r} == spt - {r} {
      OneEntryOnly(mmu.pages, spt, mmu.spt, p, gfn, mmu.pages[p].level);
    }
    PathKept(mmu.pages, spt, mmu.spt, parents, root, path, p);
    TranslateAlong(mmu.pages, mmu.spt, mmu.parents, root, path, p, gfn);
  }
}
