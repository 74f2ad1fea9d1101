/** The counters that stand for the indirect shadow pages: `gfn_track`, `disallow_lpage`
  and `indirect_shadow_pages`. */
module Accounts {
  import opened ShadowState
  import opened Protection

  function Get<K>(m: map<K, int>, k: K): int {
    if k in m then m[k] else 0
  }

  predicate Counted(pages: Pages, invalid: set<PageId>, p: PageId) {
    p in pages && p !in invalid && !pages[p].direct
  }

  function TrackedAt(pages: Pages, invalid: set<PageId>, gfn: Gfn): set<PageId> {
    set p | p in pages && Counted(pages, invalid, p) && 1 < pages[p].level && pages[p].gfn == gfn
  }

  function InBlock(pages: Pages, invalid: set<PageId>, b: Bucket): set<PageId> {
    set p | p in pages && Counted(pages, invalid, p) && Block(b.level, pages[p].gfn) == b.block
  }

  function Indirect(pages: Pages, invalid: set<PageId>): set<PageId> {
    set p | p in pages && Counted(pages, invalid, p)
  }

  /** mmu_gfn_lpage_is_disallowed. */
  predicate Disallowed(disallow: map<Bucket, int>, level: nat, gfn: Gfn) {
    1 < level && Get(disallow, BucketOf(level, gfn)) != 0
  }

  predicate IsHuge(b: Bucket) {
    2 <= b.level <= MAX_HUGEPAGE_LEVEL
  }

  ghost predicate Balanced(pages: Pages, invalid: set<PageId>, track: map<Gfn, int>, disallow: map<Bucket, int>,
                           aligned: map<Bucket, int>, indirect: int)
  {
    && TrackBalanced(pages, invalid, track)
    && LpageBalanced(pages, invalid, disallow, aligned)
    && indirect == |Indirect(pages, invalid)|
  }

  ghost predicate TrackBalanced(pages: Pages, invalid: set<PageId>, track: map<Gfn, int>) {
    forall g: Gfn :: Get(track, g) == |TrackedAt(pages, invalid, g)| <= USHRT_MAX
  }

  ghost predicate LpageBalanced(pages: Pages, invalid: set<PageId>, disallow: map<Bucket, int>,
                                aligned: map<Bucket, int>)
  {
    forall b: Bucket | IsHuge(b) ::
      0 <= Get(aligned, b) && Get(disallow, b) == Get(aligned, b) + |InBlock(pages, invalid, b)|
  }

  /** update_gfn_disallow_lpage_count. */
  function AddDisallow(disallow: map<Bucket, int>, gfn: Gfn, n: int): map<Bucket, int> {
    var b2, b3 := BucketOf(2, gfn), BucketOf(3, gfn);
    disallow[b2 := Get(disallow, b2) + n][b3 := Get(disallow, b3) + n]
  }

  /** update_gfn_track: a count that would leave the range of an unsigned short is not stored. */
  function AddTrack(track: map<Gfn, int>, gfn: Gfn, n: int): map<Gfn, int> {
    var v := Get(track, gfn) + n;
    if v < 0 || USHRT_MAX < v then track else track[gfn := v]
  }

  /** The step of the counters when one indirect page is accounted (+1) or unaccounted (-1). */
  ghost predicate Stepped(track: map<Gfn, int>, disallow: map<Bucket, int>, indirect: int, track': map<Gfn, int>,
                          disallow': map<Bucket, int>, indirect': int, h: Header, n: int)
  {
    && indirect' == indirect + n
    && disallow' == AddDisallow(disallow, h.gfn, n)
    && track' == (if 1 < h.level then AddTrack(track, h.gfn, n) else track)
  }

  lemma DisallowAt(disallow: map<Bucket, int>, gfn: Gfn, n: int, b: Bucket)
    requires IsHuge(b)
    ensures Get(AddDisallow(disallow, gfn, n), b) ==
            Get(disallow, b) + (if Block(b.level, gfn) == b.block then n else 0)
  {
    assert Block(b.level, gfn) == b.block <==> b == BucketOf(b.level, gfn);
    if b.level == 2 {
    } else {
      assert b.level == 3;
    }
  }

  /** `old` and `new` differ by one counted page `p`. */
  lemma SetStep(s: set<PageId>, t: set<PageId>, p: PageId, hit: bool)
    requires p !in s && t == (if hit then s + {p} else s)
    ensures |t| == |s| + (if hit then 1 else 0)
  {}

  /** (pages', invalid') counts exactly one page more than (pages, invalid), namely `p`. */
  ghost predicate OneMore(pages: Pages, invalid: set<PageId>, pages': Pages, invalid': set<PageId>, p: PageId) {
    && !Counted(pages, invalid, p) && Counted(pages', invalid', p)
    && (forall q | q != p :: Counted(pages, invalid, q) == Counted(pages', invalid', q))
    && (forall q | q != p && Counted(pages, invalid, q) :: pages[q] == pages'[q])
  }

  lemma TrackedStep(pages: Pages, invalid: set<PageId>, pages': Pages, invalid': set<PageId>, p: PageId, g: Gfn)
    requires OneMore(pages, invalid, pages', invalid', p)
    ensures |TrackedAt(pages', invalid', g)| ==
            |TrackedAt(pages, invalid, g)| + (if 1 < pages'[p].level && pages'[p].gfn == g then 1 else 0)
  {
    SetStep(TrackedAt(pages, invalid, g), TrackedAt(pages', invalid', g), p, 1 < pages'[p].level && pages'[p].gfn == g);
  }

  lemma InBlockStep(pages: Pages, invalid: set<PageId>, pages': Pages, invalid': set<PageId>, p: PageId, b: Bucket)
    requires OneMore(pages, invalid, pages', invalid', p)
    ensures |InBlock(pages', invalid', b)| ==
            |InBlock(pages, invalid, b)| + (if Block(b.level, pages'[p].gfn) == b.block then 1 else 0)
  {
    SetStep(InBlock(pages, invalid, b), InBlock(pages', invalid', b), p, Block(b.level, pages'[p].gfn) == b.block);
  }

  lemma IndirectStep(pages: Pages, invalid: set<PageId>, pages': Pages, invalid': set<PageId>, p: PageId)
    requires OneMore(pages, invalid, pages', invalid', p)
    ensures |Indirect(pages', invalid')| == |Indirect(pages, invalid)| + 1
  {
    SetStep(Indirect(pages, invalid), Indirect(pages', invalid'), p, true);
  }

  /** One page more, one tracker more. */
  lemma TrackStep(pages: Pages, invalid: set<PageId>, pages': Pages, invalid': set<PageId>, p: PageId,
                  few: map<Gfn, int>, many: map<Gfn, int>)
    requires OneMore(pages, invalid, pages', invalid', p)
    requires forall g: Gfn :: Get(many, g) == Get(few, g) + (if 1 < pages'[p].level && pages'[p].gfn == g then 1 else 0)
    ensures TrackBalanced(pages, invalid, few) && (forall g: Gfn :: Get(many, g) <= USHRT_MAX) ==>
              TrackBalanced(pages', invalid', many)
    ensures TrackBalanced(pages', invalid', many) ==> TrackBalanced(pages, invalid, few)
  {
    hide OneMore, TrackedAt, Get;
    forall g: Gfn
      ensures |TrackedAt(pages', invalid', g)| == |TrackedAt(pages, invalid, g)| + Get(many, g) - Get(few, g)
    {
      TrackedStep(pages, invalid, pages', invalid', p, g);
    }
  }

  lemma LpageStep(pages: Pages, invalid: set<PageId>, pages': Pages, invalid': set<PageId>, p: PageId,
                  few: map<Bucket, int>, many: map<Bucket, int>, aligned: map<Bucket, int>)
    requires OneMore(pages, invalid, pages', invalid', p)
    requires forall b: Bucket | IsHuge(b) ::
               Get(many, b) == Get(few, b) + (if Block(b.level, pages'[p].gfn) == b.block then 1 else 0)
    ensures LpageBalanced(pages, invalid, few, aligned) <==> LpageBalanced(pages', invalid', many, aligned)
  {
    hide OneMore, InBlock, Get, Block;
    forall b: Bucket | IsHuge(b)
      ensures |InBlock(pages', invalid', b)| == |InBlock(pages, invalid, b)| + Get(many, b) - Get(few, b)
    {
      InBlockStep(pages, invalid, pages', invalid', p, b);
    }
  }

  /** Accounting a new indirect page keeps the balance if and only if its track counter has room. */
  lemma BalancedAdd(pages: Pages, invalid: set<PageId>, track: map<Gfn, int>, disallow: map<Bucket, int>,
                    aligned: map<Bucket, int>, indirect: int, track': map<Gfn, int>, disallow': map<Bucket, int>,
                    indirect': int, p: PageId, h: Header)
    requires Balanced(pages, invalid, track, disallow, aligned, indirect)
    requires p !in pages && p !in invalid && !h.direct
    requires Stepped(track, disallow, indirect, track', disallow', indirect', h, 1)
    ensures Balanced(pages[p := h], invalid, track', disallow', aligned, indirect') <==>
            (1 < h.level ==> Get(track, h.gfn) < USHRT_MAX)
  {
    assert OneMore(pages, invalid, pages[p := h], invalid, p);
    if 1 < h.level && Get(track, h.gfn) >= USHRT_MAX {
      TrackedStep(pages, invalid, pages[p := h], invalid, p, h.gfn);
      assert Get(track', h.gfn) != |TrackedAt(pages[p := h], invalid, h.gfn)|;
    } else {
      TrackStep(pages, invalid, pages[p := h], invalid, p, track, track');
      hide LpageBalanced, TrackBalanced, OneMore, Indirect, AddDisallow;
      forall b: Bucket | IsHuge(b)
        ensures Get(disallow', b) == Get(disallow, b) + (if Block(b.level, h.gfn) == b.block then 1 else 0)
      {
        DisallowAt(disallow, h.gfn, 1, b);
      }
      LpageStep(pages, invalid, pages[p := h], invalid, p, disallow, disallow', aligned);
      IndirectStep(pages, invalid, pages[p := h], invalid, p);
    }
  }

  /** A page that is invalid or direct weighs nothing. */
  lemma BalancedSame(pages: Pages, invalid: set<PageId>, track: map<Gfn, int>, disallow: map<Bucket, int>,
                     aligned: map<Bucket, int>, indirect: int, pages': Pages, invalid': set<PageId>)
    requires Balanced(pages, invalid, track, disallow, aligned, indirect)
    requires forall q :: Counted(pages, invalid, q) == Counted(pages', invalid', q)
    requires forall q | Counted(pages, invalid, q) :: q in pages && q in pages' && pages[q] == pages'[q]
    ensures Balanced(pages', invalid', track, disallow, aligned, indirect)
  {
    forall g: Gfn
      ensures TrackedAt(pages, invalid, g) == TrackedAt(pages', invalid', g)
    {}
    forall b: Bucket
      ensures InBlock(pages, invalid, b) == InBlock(pages', invalid', b)
    {}
    assert Indirect(pages, invalid) == Indirect(pages', invalid');
  }

  /** Unaccounting a counted page as it turns invalid keeps the balance: no counter goes negative. */
  lemma BalancedRemove(pages: Pages, invalid: set<PageId>, track: map<Gfn, int>, disallow: map<Bucket, int>,
                       aligned: map<Bucket, int>, indirect: int, track': map<Gfn, int>, disallow': map<Bucket, int>,
                       indirect': int, p: PageId)
    requires Balanced(pages, invalid, track, disallow, aligned, indirect) && Counted(pages, invalid, p)
    requires Stepped(track, disallow, indirect, track', disallow', indirect', pages[p], -1)
    ensures Balanced(pages, invalid + {p}, track', disallow', aligned, indirect')
  {
    assert OneMore(pages, invalid + {p}, pages, invalid, p);
    TrackedStep(pages, invalid + {p}, pages, invalid, p, pages[p].gfn);
    TrackStep(pages, invalid + {p}, pages, invalid, p, track', track);
    hide LpageBalanced, TrackBalanced, OneMore, Indirect, AddDisallow;
    forall b: Bucket | IsHuge(b)
      ensures Get(disallow, b) == Get(disallow', b) + (if Block(b.level, pages[p].gfn) == b.block then 1 else 0)
    {
      DisallowAt(disallow, pages[p].gfn, -1, b);
    }
    LpageStep(pages, invalid + {p}, pages, invalid, p, disallow', disallow, aligned);
    IndirectStep(pages, invalid + {p}, pages, invalid, p);
  }

  /** A huge mapping is allowed only over blocks that hold no counted page. */
  lemma AllowedBlockIsFree(pages: Pages, invalid: set<PageId>, track: map<Gfn, int>, disallow: map<Bucket, int>,
                           aligned: map<Bucket, int>, indirect: int, b: Bucket, p: PageId)
    requires Balanced(pages, invalid, track, disallow, aligned, indirect) && IsHuge(b) && Get(disallow, b) == 0
    requires Counted(pages, invalid, p)
    ensures Block(b.level, pages[p].gfn) != b.block
  {
    assert Block(b.level, pages[p].gfn) == b.block ==> p in InBlock(pages, invalid, b);
  }

  /** An untracked frame is shadowed at level 1 only. */
  lemma UntrackedIsLevelOne(pages: Pages, invalid: set<PageId>, track: map<Gfn, int>, disallow: map<Bucket, int>,
                            aligned: map<Bucket, int>, indirect: int, p: PageId)
    requires Balanced(pages, invalid, track, disallow, aligned, indirect)
    requires Counted(pages, invalid, p) && Get(track, pages[p].gfn) == 0
    ensures pages[p].level <= 1
  {
    var g := pages[p].gfn;
    assert 1 < pages[p].level ==> p in TrackedAt(pages, invalid, g);
  }

  /** Adding and removing one tracker restores the counter exactly when the counter was not full. */
  lemma TrackRoundTrip(track: map<Gfn, int>, gfn: Gfn)
    requires 0 <= Get(track, gfn) <= USHRT_MAX
    ensures Get(AddTrack(AddTrack(track, gfn, 1), gfn, -1), gfn) == Get(track, gfn) <==> Get(track, gfn) < USHRT_MAX
  {}

  /** One tracker more and one less at a full counter leave it one short. */
  lemma TrackFull(gfn: Gfn)
    ensures Get(AddTrack(AddTrack(map[gfn := USHRT_MAX], gfn, 1), gfn, -1), gfn) == USHRT_MAX - 1
  {}

  /** A writable huge mapping is made only where it covers no counted page. */
  lemma HugeCoversNone(pages: Pages, invalid: set<PageId>, track: map<Gfn, int>, disallow: map<Bucket, int>,
                       aligned: map<Bucket, int>, indirect: int, level: nat, e: Entry)
    requires Balanced(pages, invalid, track, disallow, aligned, indirect)
    requires 2 <= level <= MAX_HUGEPAGE_LEVEL && e.Leaf? && Get(disallow, BucketOf(level, e.gfn)) == 0
    ensures forall p | p in pages && p !in invalid && !pages[p].direct :: !Covers(level, e, pages[p].gfn)
  {
    hide Balanced, Get;
    forall p | p in pages && p !in invalid && !pages[p].direct
      ensures !Covers(level, e, pages[p].gfn)
    {
      AllowedBlockIsFree(pages, invalid, track, disallow, aligned, indirect, BucketOf(level, e.gfn), p);
    }
  }

  lemma EmptyBalanced(aligned: map<Bucket, int>)
    requires forall b | b in aligned :: 0 <= aligned[b]
    ensures Balanced(map[], {}, map[], aligned, aligned, 0)
  {
    assert forall g: Gfn :: TrackedAt(map[], {}, g) == {};
    assert forall b: Bucket :: InBlock(map[], {}, b) == {};
    assert Indirect(map[], {}) == {};
  }
}
