/** The values the shadow MMU is made of, and the invariants over them.

  Each field of the C structures is a map of its own, indexed by the page or by
  the shadow entry it belongs to, so an invariant names only the fields it reads. */
module ShadowState {

  type PageId = nat
  type Gfn = nat
  type Pfn = nat

  const ENT_PER_PAGE: nat := 512
  const ROOT_MAX_LEVEL: nat := 5
  const MAX_HUGEPAGE_LEVEL: nat := 3
  const PAGE_ARRAY_NR: nat := 16
  const USHRT_MAX: nat := 65535
  const ENOSPC: int := 28

  /** A pointer to one shadow entry: `&page->spt[index]`. */
  datatype SpteRef = SpteRef(page: PageId, index: nat)

  /** A nonzero shadow entry. `w`, `hostW` and `mmuW` are PT_WRITABLE_MASK,
    SPTE_HOST_WRITEABLE and SPTE_MMU_WRITEABLE. */
  datatype Entry =
    | Link(child: PageId)
    | Leaf(gfn: Gfn, pfn: Pfn, w: bool, hostW: bool, mmuW: bool)
    | Mmio(gfn: Gfn)

  /** The part of a shadow page fixed at creation. `role` is the role word without
    its level, direct and invalid bits. */
  datatype Header = Header(gfn: Gfn, level: nat, direct: bool, role: nat, gen: nat)

  /** A reverse-map head: one per page size and block of guest frames. */
  datatype Bucket = Bucket(level: nat, block: nat)

  type Pages = map<PageId, Header>
  type Spt = map<SpteRef, Entry>
  type Bits = map<PageId, set<nat>>
  type Parents = map<PageId, set<SpteRef>>

  /** Guest frames behind one entry of a page of the given level: `1 << VMRUN_HPAGE_GFN_SHIFT(level)`. */
  function Span(level: nat): (n: nat)
    ensures 0 < n
  {
    if level <= 1 then 1
    else if level == 2 then 0x200
    else if level == 3 then 0x4_0000
    else if level == 4 then 0x800_0000
    else 0x10_0000_0000
  }

  function Block(level: nat, gfn: Gfn): nat {
    gfn / Span(level)
  }

  // ---------------------------------------------------------------- links

  /** W is set only with both software bits. */
  predicate Coherent(e: Entry) {
    e.Leaf? && e.w ==> e.hostW && e.mmuW
  }

  predicate EntryFits(pages: Pages, level: nat, e: Entry) {
    match e
    case Link(c) => c in pages && pages[c].level + 1 == level
    case Leaf(_, _, _, _, _) => level <= MAX_HUGEPAGE_LEVEL && Coherent(e)
    case Mmio(_) => true
  }

  /** What an entry of a direct page maps follows from its place. */
  predicate DirectEntry(pages: Pages, h: Header, index: nat, e: Entry) {
    var block := Block(h.level, h.gfn) + index;
    match e
    case Leaf(gfn, _, _, _, _) => Block(h.level, gfn) == block
    case Link(c) => c in pages && pages[c].direct && pages[c].gfn == block * Span(h.level)
    case Mmio(_) => true
  }

  ghost predicate DirectShape(pages: Pages, spt: Spt) {
    forall r | r in spt && r.page in pages && pages[r.page].direct ::
      DirectEntry(pages, pages[r.page], r.index, spt[r])
  }

  /** `parent_ptes` is the exact inverse of the links, levels fall by one along each, every entry fits the level of its
    page, and the entries of direct pages map what their place says. */
  ghost predicate Graph(pages: Pages, spt: Spt, parents: Parents) {
    && parents.Keys == pages.Keys
    && (forall p | p in pages :: 1 <= pages[p].level <= ROOT_MAX_LEVEL)
    && (forall r | r in spt ::
        r.page in pages && r.index < ENT_PER_PAGE && EntryFits(pages, pages[r.page].level, spt[r]))
    && (forall r | r in spt && spt[r].Link? :: r in parents[spt[r].child])
    && (forall c, r | c in pages && r in parents[c] :: r in spt && spt[r] == Link(c))
    && DirectShape(pages, spt)
  }

  /** A page that every page linking to it must have a bit set for. */
  predicate Stale(unsync: set<PageId>, count: map<PageId, int>, p: PageId) {
    p in unsync || (p in count && count[p] != 0)
  }

  ghost predicate MarksShape(pages: Pages, unsync: set<PageId>, bits: Bits, count: map<PageId, int>) {
    && bits.Keys == pages.Keys
    && count.Keys == pages.Keys
    && (forall p | p in pages :: count[p] == |bits[p]|)
    && (forall p, i | p in pages && i in bits[p] :: i < ENT_PER_PAGE && 1 < pages[p].level)
    && (forall p | p in unsync :: p in pages && pages[p].level == 1 && !pages[p].direct)
  }

  /** `unsync_children` counts the bitmap, and the bit of every link to a stale page
    is set, except perhaps for the links in `open`. */
  ghost predicate MarksExcept(pages: Pages, spt: Spt, unsync: set<PageId>, bits: Bits, count: map<PageId, int>,
                              open: set<SpteRef>)
  {
    && MarksShape(pages, unsync, bits, count)
    && (forall r | r in spt && spt[r].Link? && r !in open ::
          r.page in bits && spt[r].child in count && (Stale(unsync, count, spt[r].child) ==> r.index in bits[r.page]))
  }

  ghost predicate Marks(pages: Pages, spt: Spt, unsync: set<PageId>, bits: Bits, count: map<PageId, int>) {
    MarksExcept(pages, spt, unsync, bits, count, {})
  }

  // ---------------------------------------------------------------- paths

  /** The k-th page along a path of entries that ends at `target`. */
  function NodeAt(path: seq<SpteRef>, target: PageId, k: nat): PageId
    requires k <= |path|
  {
    if k == |path| then target else path[k].page
  }

  ghost predicate IsPath(spt: Spt, root: PageId, path: seq<SpteRef>, target: PageId) {
    && NodeAt(path, target, 0) == root
    && (forall k | 0 <= k < |path| :: path[k] in spt && spt[path[k]] == Link(NodeAt(path, target, k + 1)))
  }

  ghost predicate Reach(spt: Spt, root: PageId, target: PageId) {
    exists path :: IsPath(spt, root, path, target)
  }

  ghost function UnsyncBelow(spt: Spt, unsync: set<PageId>, root: PageId): set<PageId> {
    set x | x in unsync && Reach(spt, root, x)
  }

  /** The level falls by one along every step of a path. */
  lemma {:induction false} PathLevel(pages: Pages, spt: Spt, parents: Parents, root: PageId, path: seq<SpteRef>,
                                     target: PageId, k: nat)
    requires Graph(pages, spt, parents) && IsPath(spt, root, path, target) && k <= |path| && root in pages
    ensures NodeAt(path, target, k) in pages
    ensures pages[NodeAt(path, target, k)].level + k == pages[root].level
  {
    if k > 0 {
      PathLevel(pages, spt, parents, root, path, target, k - 1);
      assert path[k - 1] in spt && spt[path[k - 1]] == Link(NodeAt(path, target, k));
    }
  }

  /** If the marks hold, every page on a path to a stale page has unsynced children. */
  lemma {:induction false} StaleAbove(pages: Pages, spt: Spt, parents: Parents, unsync: set<PageId>, bits: Bits,
                                      count: map<PageId, int>, root: PageId, path: seq<SpteRef>, target: PageId, k: nat)
    requires Graph(pages, spt, parents) && Marks(pages, spt, unsync, bits, count)
    requires root in pages && IsPath(spt, root, path, target) && k < |path|
    requires target in count && Stale(unsync, count, target)
    ensures path[k].page in count && count[path[k].page] != 0
    decreases |path| - k
  {
    PathLevel(pages, spt, parents, root, path, target, k);
    PathLevel(pages, spt, parents, root, path, target, k + 1);
    if k + 1 < |path| {
      StaleAbove(pages, spt, parents, unsync, bits, count, root, path, target, k + 1);
    }
    assert path[k] in spt && spt[path[k]] == Link(NodeAt(path, target, k + 1));
    assert path[k].index in bits[path[k].page];
  }

  /** A page whose `unsync_children` is zero, and which is itself in sync, has no
    unsynced page below it. */
  lemma CleanBelow(pages: Pages, spt: Spt, parents: Parents, unsync: set<PageId>, bits: Bits, count: map<PageId, int>,
                   root: PageId)
    requires Graph(pages, spt, parents) && Marks(pages, spt, unsync, bits, count)
    requires root in pages && count[root] == 0 && root !in unsync
    ensures UnsyncBelow(spt, unsync, root) == {}
  {
    forall x, path | x in unsync && IsPath(spt, root, path, x)
      ensures false
    {
      if path != [] {
        StaleAbove(pages, spt, parents, unsync, bits, count, root, path, x, 0);
      }
    }
  }

  // ---------------------------------------------------------------- marking

  /** From (`b0`, `c0`) to (`b1`, `c1`) marks were only added, each at a link to a stale page. */
  ghost predicate Justified(spt: Spt, unsync: set<PageId>, b0: Bits, c0: map<PageId, int>, b1: Bits,
                            c1: map<PageId, int>)
  {
    && b1.Keys == b0.Keys && c1.Keys == c0.Keys
    && (forall p | p in b0 :: b0[p] <= b1[p])
    && (forall p | p in c0 :: 0 <= c0[p] <= c1[p])
    && (forall p, i | p in b1 && i in b1[p] && i !in b0[p] ::
          && SpteRef(p, i) in spt && spt[SpteRef(p, i)].Link?
          && spt[SpteRef(p, i)].child in c1 && Stale(unsync, c1, spt[SpteRef(p, i)].child))
  }

  lemma JustifiedRefl(pages: Pages, spt: Spt, unsync: set<PageId>, b: Bits, c: map<PageId, int>, open: set<SpteRef>)
    requires MarksExcept(pages, spt, unsync, b, c, open)
    ensures Justified(spt, unsync, b, c, b, c)
  {}

  lemma JustifiedTransitive(spt: Spt, unsync: set<PageId>, b0: Bits, c0: map<PageId, int>, b1: Bits,
                            c1: map<PageId, int>, b2: Bits, c2: map<PageId, int>)
    requires Justified(spt, unsync, b0, c0, b1, c1) && Justified(spt, unsync, b1, c1, b2, c2)
    ensures Justified(spt, unsync, b0, c0, b2, c2)
  {
    forall p, i | p in b2 && i in b2[p] && i !in b0[p]
      ensures SpteRef(p, i) in spt && spt[SpteRef(p, i)].Link?
      ensures spt[SpteRef(p, i)].child in c2 && Stale(unsync, c2, spt[SpteRef(p, i)].child)
    {
      if i in b1[p] {
        assert spt[SpteRef(p, i)].child in c1 && Stale(unsync, c1, spt[SpteRef(p, i)].child);
      }
    }
  }

  lemma SetBitShape(pages: Pages, unsync: set<PageId>, bits: Bits, count: map<PageId, int>, p: PageId, i: nat)
    requires MarksShape(pages, unsync, bits, count) && p in pages && 1 < pages[p].level && i < ENT_PER_PAGE
             && i !in bits[p]
    ensures MarksShape(pages, unsync, bits[p := bits[p] + {i}], count[p := count[p] + 1])
  {}

  lemma SetBitJustified(pages: Pages, spt: Spt, unsync: set<PageId>, bits: Bits, count: map<PageId, int>, r: SpteRef)
    requires MarksShape(pages, unsync, bits, count) && r in spt && spt[r].Link? && r.page in pages
             && spt[r].child in count
    requires Stale(unsync, count, spt[r].child)
    ensures Justified(spt, unsync, bits, count, bits[r.page := bits[r.page] + {r.index}],
                      count[r.page := count[r.page] + 1])
  {}

  /** Setting one bit closes that link; if it was the first bit of its page, the
    links to that page open instead. */
  lemma SetBit(pages: Pages, spt: Spt, parents: Parents, unsync: set<PageId>, bits: Bits, count: map<PageId, int>,
               open: set<SpteRef>, r: SpteRef)
    requires Graph(pages, spt, parents) && MarksExcept(pages, spt, unsync, bits, count, open + {r})
    requires r in spt && spt[r].Link? && r.index !in bits[r.page] && Stale(unsync, count, spt[r].child)
    ensures var bits' := bits[r.page := bits[r.page] + {r.index}];
            var count' := count[r.page := count[r.page] + 1];
            && MarksExcept(pages, spt, unsync, bits', count',
                           open + (if count[r.page] != 0 then {} else parents[r.page]))
            && Justified(spt, unsync, bits, count, bits', count')
            && Stale(unsync, count', r.page)
  {
    var bits' := bits[r.page := bits[r.page] + {r.index}];
    var count' := count[r.page := count[r.page] + 1];
    var open' := open + (if count[r.page] != 0 then {} else parents[r.page]);
    assert pages[r.page].level > 1 && 0 <= count[r.page];
    SetBitShape(pages, unsync, bits, count, r.page, r.index);
    SetBitJustified(pages, spt, unsync, bits, count, r);
    hide MarksShape, Justified;
    forall e | e in spt && spt[e].Link? && e !in open'
      ensures e.page in bits' && spt[e].child in count'
              && (Stale(unsync, count', spt[e].child) ==> e.index in bits'[e.page])
    {
      if e != r {
        assert e !in open + {r};
        assert spt[e].child == r.page ==> e in parents[r.page];
      }
    }
  }

  lemma LinkFacts(pages: Pages, spt: Spt, parents: Parents, unsync: set<PageId>, bits: Bits, count: map<PageId, int>,
                  open: set<SpteRef>, r: SpteRef)
    requires Graph(pages, spt, parents) && MarksExcept(pages, spt, unsync, bits, count, open)
    requires r in spt && spt[r].Link?
    ensures r.page in pages && r.page in bits && r.page in count && r.page in parents && spt[r].child in pages
    ensures 1 <= pages[r.page].level <= ROOT_MAX_LEVEL
    ensures Justified(spt, unsync, bits, count, bits, count)
  {}

  lemma CloseMarked(pages: Pages, spt: Spt, unsync: set<PageId>, bits: Bits, count: map<PageId, int>,
                    open: set<SpteRef>, r: SpteRef)
    requires MarksExcept(pages, spt, unsync, bits, count, open + {r})
    requires r in spt && spt[r].Link? && spt[r].child in pages
    requires r.page in bits && r.index in bits[r.page]
    ensures MarksExcept(pages, spt, unsync, bits, count, open)
  {
    forall e | e in spt && spt[e].Link? && e !in open
      ensures e.page in bits && spt[e].child in count
              && (Stale(unsync, count, spt[e].child) ==> e.index in bits[e.page])
    {
      if e != r {
        assert e !in open + {r};
      }
    }
  }

  lemma PageFacts(pages: Pages, spt: Spt, parents: Parents, p: PageId)
    requires Graph(pages, spt, parents) && p in pages
    ensures p in parents && 1 <= pages[p].level <= ROOT_MAX_LEVEL
    ensures forall r | r in parents[p] ::
      r in spt && spt[r] == Link(p) && r.page in pages && pages[r.page].level == pages[p].level + 1
  {}

  lemma StaleStays(spt: Spt, unsync: set<PageId>, b0: Bits, c0: map<PageId, int>, b1: Bits, c1: map<PageId, int>,
                   p: PageId)
    requires Justified(spt, unsync, b0, c0, b1, c1) && Stale(unsync, c0, p)
    ensures Stale(unsync, c1, p)
  {}

  // ---------------------------------------------------------------- removing entries

  ghost predicate LinksWithin(spt: Spt, spt0: Spt) {
    forall r | r in spt && spt[r].Link? :: r in spt0 && spt0[r] == spt[r]
  }

  /** `spt'` is `spt` without the entries of the pages in `gone` and the links to them. */
  ghost predicate Severed(spt: Spt, spt': Spt, gone: set<PageId>) {
    && (forall r | r in spt' :: r in spt && spt'[r] == spt[r] && Apart(r, spt[r], gone))
    && (forall r | r in spt && Apart(r, spt[r], gone) :: r in spt')
  }

  predicate Apart(r: SpteRef, e: Entry, gone: set<PageId>) {
    r.page !in gone && !(e.Link? && e.child in gone)
  }

  function ParentsWithout(spt: Spt, parents: Parents, r: SpteRef): Parents {
    if r in spt && spt[r].Link? && spt[r].child in parents
    then parents[spt[r].child := parents[spt[r].child] - {r}]
    else parents
  }

  lemma DropEntry(pages: Pages, spt: Spt, parents: Parents, r: SpteRef)
    requires Graph(pages, spt, parents)
    ensures Graph(pages, spt - {r}, ParentsWithout(spt, parents, r))
  {}

  lemma MarksShrink(pages: Pages, spt: Spt, spt': Spt, unsync: set<PageId>, unsync': set<PageId>, bits: Bits,
                    count: map<PageId, int>)
    requires Marks(pages, spt, unsync, bits, count) && LinksWithin(spt', spt) && unsync' <= unsync
    ensures Marks(pages, spt', unsync', bits, count)
  {}

  lemma SeveredWithin(spt: Spt, spt': Spt, gone: set<PageId>)
    requires Severed(spt, spt', gone)
    ensures LinksWithin(spt', spt)
  {}

  lemma SeveredTwice(spt: Spt, spt1: Spt, spt2: Spt, gone1: set<PageId>, gone2: set<PageId>)
    requires Severed(spt, spt1, gone1) && Severed(spt1, spt2, gone2)
    ensures Severed(spt, spt2, gone1 + gone2)
  {}

  lemma LinkChild(pages: Pages, spt: Spt, parents: Parents, r: SpteRef)
    requires Graph(pages, spt, parents) && r in spt && spt[r].Link?
    ensures spt[r].child in pages && spt[r].child in parents
  {}

  lemma IndexBound(pages: Pages, spt: Spt, parents: Parents)
    requires Graph(pages, spt, parents)
    ensures forall r | r in spt :: r.index < ENT_PER_PAGE
  {}

  lemma NoParents(pages: Pages, spt: Spt, parents: Parents, p: PageId)
    requires Graph(pages, spt, parents) && p in pages && parents[p] == {}
    ensures forall r | r in spt :: spt[r] != Link(p)
  {}

  lemma SeveredNone(spt: Spt)
    ensures Severed(spt, spt, {})
  {}

  lemma SeverOne(spt: Spt, spt1: Spt, spt2: Spt, p: PageId)
    requires forall r | r in spt && r.page != p :: r in spt1
    requires forall r | r in spt1 :: r.page != p && r in spt && spt1[r] == spt[r]
    requires forall r | r in spt1 && spt1[r] != Link(p) :: r in spt2
    requires forall r | r in spt2 :: r in spt1 && spt2[r] == spt1[r] && spt2[r] != Link(p)
    ensures Severed(spt, spt2, {p})
  {}

  lemma LinksRefl(spt: Spt)
    ensures LinksWithin(spt, spt)
  {}

  lemma LinksThen(a: Spt, b: Spt, c: Spt)
    requires LinksWithin(b, a) && LinksWithin(c, b)
    ensures LinksWithin(c, a)
  {}

  lemma LinksDropped(spt: Spt, r: SpteRef)
    ensures LinksWithin(spt - {r}, spt)
  {}

  lemma LinksSet(spt: Spt, r: SpteRef, e: Entry)
    requires !e.Link?
    ensures LinksWithin(spt[r := e], spt)
  {}

  lemma UnsyncIsLevelOne(pages: Pages, spt: Spt, unsync: set<PageId>, bits: Bits, count: map<PageId, int>, p: PageId)
    requires Marks(pages, spt, unsync, bits, count) && p in unsync
    ensures p in pages && pages[p].level == 1 && !pages[p].direct
  {}
}
