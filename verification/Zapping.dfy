/** What zapping takes away. */
module Zapping {
  import opened ShadowState
  import opened Protection
  import opened ActiveList

  /** The part of the state that zapping shrinks. */
  datatype ZapState = ZapState(active: seq<PageId>, zapped: set<PageId>, invalid: set<PageId>, unsync: set<PageId>,
                               spt: Spt)

  /** Only pages in `off` have left the list, and none has joined it. */
  ghost predicate Left(s: seq<PageId>, t: seq<PageId>, off: set<PageId>) {
    && (forall q | q in t :: q in s)
    && (forall q | q in s :: q in t || q in off)
  }

  lemma LeftThen(s: seq<PageId>, t: seq<PageId>, u: seq<PageId>, o1: set<PageId>, o2: set<PageId>)
    requires Left(s, t, o1) && Left(t, u, o2)
    ensures Left(s, u, o1 + o2)
  {
  }

  /** Between `s` and `t` exactly `n` pages left the active list and joined the zapped ones. They, and the
    pages in `also`, became invalid and lost their unsync flag, all their entries and all links to them;
    nothing else changed, and pages that are not invalid kept their order. */
  ghost predicate Took(s: ZapState, t: ZapState, also: set<PageId>, n: nat) {
    var off := t.zapped - s.zapped;
    && s.zapped <= t.zapped
    && n == |off| == |s.active| - |t.active|
    && t.invalid == s.invalid + also + off
    && t.unsync == s.unsync - also - off
    && Severed(s.spt, t.spt, also + off)
    && Left(s.active, t.active, off)
    && Aged(s.active, t.active, t.invalid)
  }

  lemma TookNone(s: ZapState)
    ensures Took(s, s, {}, 0)
  {
    assert s.zapped - s.zapped == {};
    SeveredNone(s.spt);
    AgedNone(s.active, s.invalid);
  }

  lemma TookThen(s: ZapState, t: ZapState, u: ZapState, a: set<PageId>, b: set<PageId>, m: nat, n: nat)
    requires Took(s, t, a, m) && Took(t, u, b, n)
    ensures Took(s, u, a + b, m + n)
  {
    hide Severed, Aged, Left;
    var o1, o2, o := t.zapped - s.zapped, u.zapped - t.zapped, u.zapped - s.zapped;
    assert o == o1 + o2 && m + n == |o| by {
      ZappedTwice(s.zapped, t.zapped, u.zapped);
    }
    assert u.invalid == s.invalid + (a + b) + o by {
      Regroup(s.invalid, a, o1, b, o2);
    }
    assert u.unsync == s.unsync - (a + b) - o by {
      Regroup(s.unsync, a, o1, b, o2);
    }
    assert Severed(s.spt, u.spt, a + b + o) by {
      SeveredTwice(s.spt, t.spt, u.spt, a + o1, b + o2);
      Regroup(s.invalid, a, o1, b, o2);
    }
    assert Aged(s.active, u.active, u.invalid) by {
      AgedThen(s.active, t.active, u.active, t.invalid, u.invalid);
    }
    LeftThen(s.active, t.active, u.active, o1, o2);
  }

  lemma ZappedTwice(x: set<PageId>, y: set<PageId>, z: set<PageId>)
    requires x <= y <= z
    ensures z - x == (y - x) + (z - y) && |z - x| == |y - x| + |z - y|
  {
    assert z - x == (y - x) + (z - y);
  }

  lemma Regroup(x: set<PageId>, a: set<PageId>, o1: set<PageId>, b: set<PageId>, o2: set<PageId>)
    ensures x + a + o1 + b + o2 == x + (a + b) + (o1 + o2)
    ensures x - a - o1 - b - o2 == x - (a + b) - (o1 + o2)
    ensures (a + o1) + (b + o2) == (a + b) + (o1 + o2)
  {
  }

  /** A page zapped on its own. */
  lemma TookSelf(s: ZapState, rootCount: map<PageId, nat>, p: PageId, spt': Spt)
    requires NoDup(s.active) && p in s.active && p in rootCount && p !in s.zapped && Severed(s.spt, spt', {p})
    ensures Took(s, ZapState(AfterZap(s.active, rootCount, p), ZappedAfter(s.zapped, rootCount, p),
                             s.invalid + {p}, s.unsync - {p}, spt'), {p}, if rootCount[p] == 0 then 1 else 0)
  {
    hide Severed, AfterZap, NoDup, Aged;
    AfterZapFacts(s.active, rootCount, p);
    AgedAfterZap(s.active, rootCount, p, s.invalid);
    if rootCount[p] == 0 {
      assert (s.zapped + {p}) - s.zapped == {p};
      assert {p} + {p} == {p};
    } else {
      assert s.zapped - s.zapped == {};
      assert {p} + {} == {p};
    }
  }

  /** For a page zapped off the list, "also" adds nothing. */
  lemma TookLeaf(s: ZapState, t: ZapState, p: PageId, n: nat)
    requires Took(s, t, {p}, n) && t.zapped == s.zapped + {p} && p !in s.zapped
    ensures Took(s, t, {}, n) && n == 1 && t.unsync == s.unsync - {p} && LinksWithin(t.spt, s.spt)
  {
    hide Severed, Aged;
    assert t.zapped - s.zapped == {p};
    assert {p} + {p} == {p} && {} + {p} == {p};
    SeveredWithin(s.spt, t.spt, {p});
  }

  lemma TookActive(s: ZapState, t: ZapState, also: set<PageId>, n: nat, p: PageId)
    requires Took(s, t, also, n) && p in s.active && p !in t.zapped
    ensures p in t.active
  {
    hide Severed, Aged;
  }

  lemma UnsyncActive(pages: Pages, spt: Spt, parents: Parents, unsync: set<PageId>, invalid: set<PageId>,
                     rootCount: map<PageId, nat>, active: seq<PageId>, zapped: set<PageId>, nUsed: int, p: PageId)
    requires ListShape(pages, invalid, rootCount, active, zapped, nUsed)
    requires Detached(spt, parents, unsync, invalid, rootCount, zapped)
    requires p in unsync && p in pages
    ensures p in active && p !in zapped
  {}

  lemma ListsAfterZap(pages: Pages, invalid: set<PageId>, rootCount: map<PageId, nat>, active: seq<PageId>,
                      zapped: set<PageId>, nUsed: int, validGen: nat, p: PageId, freed: set<PageId>)
    requires ListShape(pages, invalid, rootCount, active, zapped, nUsed) && p in active
    requires Held(invalid, rootCount, active, freed + {p}) && Ordered(pages, invalid, active, validGen)
    ensures p in pages && p in rootCount && NoDup(active) && p !in zapped && zapped <= pages.Keys
    ensures var active' := AfterZap(active, rootCount, p);
            && ListShape(pages, invalid + {p}, rootCount, active', ZappedAfter(zapped, rootCount, p),
                         nUsed - if rootCount[p] == 0 then 1 else 0)
            && Held(invalid + {p}, rootCount, active', freed)
            && Ordered(pages, invalid + {p}, active', validGen)
  {
    hide ListShape, Held, Ordered, Remove, AfterZap, NoDup;
    ListFacts(pages, invalid, rootCount, active, zapped, nUsed, p);
    ShapeAfterZap(pages, invalid, rootCount, active, zapped, nUsed, p);
    HeldAfterZap(invalid, rootCount, active, p, freed);
    OrderedAfterZap(pages, invalid, rootCount, active, validGen, p);
  }

  lemma ZapKeeps(pages: Pages, spt: Spt, parents: Parents, unsync: set<PageId>, bits: Bits, count: map<PageId, int>,
                 spt': Spt, parents': Parents, invalid: set<PageId>, rootCount: map<PageId, nat>, zapped: set<PageId>,
                 validGen: nat, p: PageId)
    requires Graph(pages, spt, parents) && Graph(pages, spt', parents') && Severed(spt, spt', {p})
    requires Marks(pages, spt, unsync, bits, count) && Guarded(pages, spt, unsync, invalid, validGen)
    requires Detached(spt, parents, unsync, invalid, rootCount, zapped) && zapped <= pages.Keys
    requires p in pages && p in rootCount
    ensures Marks(pages, spt', unsync - {p}, bits, count)
    ensures Guarded(pages, spt', unsync - {p}, invalid + {p}, validGen)
    ensures Detached(spt', parents', unsync - {p}, invalid + {p}, rootCount, ZappedAfter(zapped, rootCount, p))
  {
    hide Graph, Marks, Guarded, Detached, Severed;
    SeveredWithin(spt, spt', {p});
    MarksShrink(pages, spt, spt', unsync, unsync - {p}, bits, count);
    DetachedAfterZap(pages, spt, parents, unsync, spt', parents', invalid, rootCount, zapped, p);
    GuardedShrinks(pages, spt, spt', unsync, unsync - {p}, invalid, invalid + {p}, validGen, {p});
  }

  lemma TookLeafFacts(s: ZapState, t: ZapState, p: PageId, n: nat)
    requires Took(s, t, {p}, n) && t.zapped == s.zapped + {p} && p !in s.zapped
    ensures t.unsync == s.unsync - {p} && t.invalid == s.invalid + {p} && LinksWithin(t.spt, s.spt)
    ensures forall q | q in s.active && q != p :: q in t.active
    ensures forall r | r in t.spt :: r in s.spt && t.spt[r] == s.spt[r]
  {
    hide Aged;
    assert t.zapped - s.zapped == {p};
  }

  lemma TookCount(s: ZapState, t: ZapState, p: PageId, n: nat)
    requires Took(s, t, {p}, n)
    ensures |t.active| == |s.active| - n && p in t.invalid && s.invalid <= t.invalid
    ensures Aged(s.active, t.active, t.invalid)
  {
    hide Severed, Aged;
  }

  function Live(s: ZapState): set<PageId> {
    set q | q in s.active && q !in s.invalid
  }

  /** The active pages that are still valid become fewer. */
  lemma TookShrinks(s: ZapState, t: ZapState, p: PageId, n: nat)
    requires Took(s, t, {p}, n) && p in s.active && p !in s.invalid
    ensures |t.active| == |s.active| - n && p in t.invalid && s.invalid <= t.invalid
    ensures forall q | q in t.active :: q in s.active
    ensures Live(t) < Live(s)
  {
    hide Severed, Aged;
    assert p in Live(s) && p !in Live(t);
  }
}
