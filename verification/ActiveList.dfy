/** `active_mmu_pages` (index 0 is the head) and the pages taken off it that wait to be freed. */
module ActiveList {
  import opened ShadowState

  ghost predicate NoDup(s: seq<PageId>) {
    forall i, j | 0 <= i < j < |s| :: s[i] != s[j]
  }

  function Remove(s: seq<PageId>, p: PageId): seq<PageId> {
    if s == [] then [] else if s[0] == p then s[1..] else [s[0]] + Remove(s[1..], p)
  }

  /** Every page is either on the active list or zapped and waiting for commit; `n_used_mmu_pages`
    is the length of the list; only pages above level 1 are roots. */
  ghost predicate ListShape(pages: Pages, invalid: set<PageId>, rootCount: map<PageId, nat>, active: seq<PageId>,
                            zapped: set<PageId>, nUsed: int)
  {
    && rootCount.Keys == pages.Keys
    && NoDup(active)
    && (forall p | p in active :: p in pages && p !in zapped)
    && zapped <= invalid <= pages.Keys
    && (forall p | p in pages :: p in active || p in zapped)
    && nUsed == |active|
    && (forall p | p in pages && rootCount[p] != 0 :: 1 < pages[p].level)
  }

  /** A zapped page holds no entry, is linked from nowhere, is not unsync and is no root. */
  ghost predicate Detached(spt: Spt, parents: Parents, unsync: set<PageId>, invalid: set<PageId>,
                           rootCount: map<PageId, nat>, zapped: set<PageId>)
  {
    && (forall r | r in spt :: r.page !in zapped)
    && (forall p | p in zapped :: p in parents && parents[p] == {} && p in rootCount && rootCount[p] == 0)
    && unsync !! invalid
  }

  /** An invalid page stays on the active list only while it is a root, except the pages in `freed`. */
  ghost predicate Held(invalid: set<PageId>, rootCount: map<PageId, nat>, active: seq<PageId>, freed: set<PageId>) {
    forall p | p in active && p in invalid && p !in freed :: p in rootCount && 0 < rootCount[p]
  }

  predicate NoNewer(pages: Pages, invalid: set<PageId>, head: PageId, tail: PageId) {
    head !in invalid ==> head in pages && tail in pages && pages[tail].gen <= pages[head].gen
  }

  /** A page that is not invalid is at least as new as every page nearer the tail. */
  ghost predicate Ordered(pages: Pages, invalid: set<PageId>, active: seq<PageId>, validGen: nat) {
    && (forall p | p in pages :: pages[p].gen <= validGen)
    && (forall i, j | 0 <= i < j < |active| :: NoNewer(pages, invalid, active[i], active[j]))
  }

  // ---------------------------------------------------------------- removal

  lemma {:induction false} RemoveAt(s: seq<PageId>, p: PageId, k: nat)
    requires NoDup(s) && k < |s| && s[k] == p
    ensures Remove(s, p) == s[..k] + s[k + 1..]
  {
    if k > 0 {
      assert s[0] != p;
      RemoveAt(s[1..], p, k - 1);
      assert s[1..][..k - 1] == s[1..k] && s[1..][k..] == s[k + 1..];
      assert [s[0]] + s[1..k] == s[..k];
    }
  }

  lemma RemoveFacts(s: seq<PageId>, p: PageId)
    requires NoDup(s) && p in s
    ensures |Remove(s, p)| == |s| - 1 && NoDup(Remove(s, p)) && p !in Remove(s, p)
    ensures forall q | q != p :: q in s <==> q in Remove(s, p)
  {
    var k :| 0 <= k < |s| && s[k] == p;
    RemoveAt(s, p, k);
    hide Remove, NoDup;
    CutFacts(s, k);
    forall q | q != p
      ensures q in s <==> q in Remove(s, p)
    {
      CutHas(s, k, q);
    }
  }

  lemma CutFacts(s: seq<PageId>, k: nat)
    requires NoDup(s) && k < |s|
    ensures NoDup(s[..k] + s[k + 1..]) && s[k] !in s[..k] + s[k + 1..]
  {
    var t := s[..k] + s[k + 1..];
    assert forall i | 0 <= i < |t| :: t[i] == s[if i < k then i else i + 1];
  }

  lemma CutHas(s: seq<PageId>, k: nat, q: PageId)
    requires k < |s| && q != s[k]
    ensures q in s <==> q in s[..k] + s[k + 1..]
  {
    assert s == s[..k] + [s[k]] + s[k + 1..];
  }

  lemma OrderedRemove(pages: Pages, invalid: set<PageId>, active: seq<PageId>, validGen: nat, p: PageId)
    requires Ordered(pages, invalid, active, validGen) && NoDup(active) && p in active
    ensures Ordered(pages, invalid, Remove(active, p), validGen)
  {
    hide NoNewer, NoDup, Remove;
    var k :| 0 <= k < |active| && active[k] == p;
    RemoveAt(active, p, k);
    var t := active[..k] + active[k + 1..];
    forall i, j | 0 <= i < j < |t|
      ensures NoNewer(pages, invalid, t[i], t[j])
    {
      var a, b := if i < k then i else i + 1, if j < k then j else j + 1;
      assert t[i] == active[a] && t[j] == active[b];
      assert NoNewer(pages, invalid, active[a], active[b]);
    }
  }

  /** Turning pages invalid keeps the order. */
  lemma OrderedInvalidate(pages: Pages, invalid: set<PageId>, active: seq<PageId>, validGen: nat, more: set<PageId>)
    requires Ordered(pages, invalid, active, validGen)
    ensures Ordered(pages, invalid + more, active, validGen)
  {
    forall i, j | 0 <= i < j < |active|
      ensures NoNewer(pages, invalid + more, active[i], active[j])
    {
      assert NoNewer(pages, invalid, active[i], active[j]);
    }
  }

  /** Moving an invalid page to the head keeps the order. */
  lemma OrderedPush(pages: Pages, invalid: set<PageId>, active: seq<PageId>, validGen: nat, p: PageId)
    requires Ordered(pages, invalid, active, validGen) && p in invalid
    ensures Ordered(pages, invalid, [p] + active, validGen)
  {
    var t := [p] + active;
    forall i, j | 0 <= i < j < |t|
      ensures NoNewer(pages, invalid, t[i], t[j])
    {
      if 0 < i {
        assert NoNewer(pages, invalid, active[i - 1], active[j - 1]);
      }
    }
    assert Ordered(pages, invalid, t, validGen);
  }

  /** A page created with the current generation goes to the head. */
  lemma OrderedCreate(pages: Pages, invalid: set<PageId>, active: seq<PageId>, validGen: nat, p: PageId, h: Header)
    requires Ordered(pages, invalid, active, validGen) && p !in pages && h.gen == validGen
    requires forall q | q in active :: q in pages
    ensures Ordered(pages[p := h], invalid, [p] + active, validGen)
  {
    var t := [p] + active;
    forall i, j | 0 <= i < j < |t|
      ensures NoNewer(pages[p := h], invalid, t[i], t[j])
    {
      assert t[j] == active[j - 1] && active[j - 1] in active;
      if 0 < i {
        assert NoNewer(pages, invalid, active[i - 1], active[j - 1]);
      }
    }
    assert Ordered(pages[p := h], invalid, t, validGen);
  }

  lemma ListFacts(pages: Pages, invalid: set<PageId>, rootCount: map<PageId, nat>, active: seq<PageId>,
                  zapped: set<PageId>, nUsed: int, p: PageId)
    requires ListShape(pages, invalid, rootCount, active, zapped, nUsed) && p in active
    ensures p in pages && p in rootCount && p !in zapped && zapped <= pages.Keys && NoDup(active)
    ensures pages[p].level == 1 ==> rootCount[p] == 0
    ensures |Remove(active, p)| == |active| - 1 && p !in Remove(active, p)
    ensures forall q | q != p :: q in active <==> q in Remove(active, p)
  {
    RemoveFacts(active, p);
  }

  /** What becomes of the list when `p` is zapped: off the list if it is no root, else to the head. */
  function AfterZap(active: seq<PageId>, rootCount: map<PageId, nat>, p: PageId): seq<PageId> {
    if p in rootCount && rootCount[p] == 0 then Remove(active, p) else [p] + Remove(active, p)
  }

  /** What becomes of the pages waiting to be freed when `p` is zapped. */
  function ZappedAfter(zapped: set<PageId>, rootCount: map<PageId, nat>, p: PageId): set<PageId> {
    if p in rootCount && rootCount[p] == 0 then zapped + {p} else zapped
  }

  lemma AfterZapFacts(active: seq<PageId>, rootCount: map<PageId, nat>, p: PageId)
    requires NoDup(active) && p in active && p in rootCount
    ensures NoDup(AfterZap(active, rootCount, p))
    ensures forall q :: q in AfterZap(active, rootCount, p) <==> q in active && (q == p ==> rootCount[p] != 0)
    ensures |AfterZap(active, rootCount, p)| == if rootCount[p] == 0 then |active| - 1 else |active|
  {
    RemoveFacts(active, p);
    var rest := Remove(active, p);
    hide Remove;
    assert forall i | 0 < i <= |rest| :: ([p] + rest)[i] == rest[i - 1] && rest[i - 1] in rest;
    assert NoDup([p] + rest);
  }

  lemma ShapeAfterZap(pages: Pages, invalid: set<PageId>, rootCount: map<PageId, nat>, active: seq<PageId>,
                      zapped: set<PageId>, nUsed: int, p: PageId)
    requires ListShape(pages, invalid, rootCount, active, zapped, nUsed) && p in active
    ensures ListShape(pages, invalid + {p}, rootCount, AfterZap(active, rootCount, p),
                      ZappedAfter(zapped, rootCount, p), nUsed - if rootCount[p] == 0 then 1 else 0)
  {
    hide NoDup, AfterZap;
    AfterZapFacts(active, rootCount, p);
  }

  lemma HeldAfterZap(invalid: set<PageId>, rootCount: map<PageId, nat>, active: seq<PageId>, p: PageId,
                     freed: set<PageId>)
    requires Held(invalid, rootCount, active, freed + {p}) && NoDup(active) && p in active && p in rootCount
    ensures Held(invalid + {p}, rootCount, AfterZap(active, rootCount, p), freed)
  {
    RemoveFacts(active, p);
  }

  lemma OrderedAfterZap(pages: Pages, invalid: set<PageId>, rootCount: map<PageId, nat>, active: seq<PageId>,
                        validGen: nat, p: PageId)
    requires Ordered(pages, invalid, active, validGen) && NoDup(active) && p in active
    ensures Ordered(pages, invalid + {p}, AfterZap(active, rootCount, p), validGen)
  {
    hide Ordered, NoDup;
    OrderedRemove(pages, invalid, active, validGen, p);
    OrderedInvalidate(pages, invalid, Remove(active, p), validGen, {p});
    OrderedPush(pages, invalid + {p}, Remove(active, p), validGen, p);
  }

  lemma SeveredParents(pages: Pages, spt: Spt, parents: Parents, spt': Spt, parents': Parents, gone: set<PageId>)
    requires Graph(pages, spt, parents) && Graph(pages, spt', parents') && Severed(spt, spt', gone)
    ensures forall q | q in pages :: parents'[q] <= parents[q]
    ensures forall q | q in pages && q in gone :: parents'[q] == {}
  {
    forall q, r | q in pages && r in parents'[q]
      ensures r in parents[q] && q !in gone
    {
      assert spt'[r] == Link(q) && Apart(r, spt[r], gone);
    }
  }

  lemma DetachedAfterZap(pages: Pages, spt: Spt, parents: Parents, unsync: set<PageId>, spt': Spt, parents': Parents,
                         invalid: set<PageId>, rootCount: map<PageId, nat>, zapped: set<PageId>, p: PageId)
    requires Graph(pages, spt, parents) && Graph(pages, spt', parents') && Severed(spt, spt', {p})
    requires Detached(spt, parents, unsync, invalid, rootCount, zapped) && zapped <= pages.Keys
    requires p in pages && p in rootCount
    ensures Detached(spt', parents', unsync - {p}, invalid + {p}, rootCount, ZappedAfter(zapped, rootCount, p))
  {
    SeveredParents(pages, spt, parents, spt', parents', {p});
  }

  lemma HeldMore(invalid: set<PageId>, rootCount: map<PageId, nat>, active: seq<PageId>, freed: set<PageId>,
                 more: set<PageId>)
    requires Held(invalid, rootCount, active, freed) && freed <= more
    ensures Held(invalid, rootCount, active, more)
  {}

  /** The last page has moved to the head. */
  ghost predicate Rotated(s: seq<PageId>, t: seq<PageId>) {
    s != [] && t == [s[|s| - 1]] + s[..|s| - 1]
  }

  lemma RemoveLast(s: seq<PageId>)
    requires NoDup(s) && s != []
    ensures Rotated(s, [s[|s| - 1]] + Remove(s, s[|s| - 1]))
  {
    RemoveAt(s, s[|s| - 1], |s| - 1);
  }

  /** `p` is nearer the head than `q`. */
  ghost predicate Before(s: seq<PageId>, p: PageId, q: PageId) {
    exists i, j | 0 <= i < j < |s| :: s[i] == p && s[j] == q
  }

  /** A page that is not invalid has kept its place before every page behind it. */
  ghost predicate Aged(s: seq<PageId>, t: seq<PageId>, invalid: set<PageId>) {
    forall i, j | 0 <= i < j < |t| :: t[i] in invalid || Before(s, t[i], t[j])
  }

  lemma AgedNone(s: seq<PageId>, invalid: set<PageId>)
    ensures Aged(s, s, invalid)
  {
  }

  lemma AgedMore(s: seq<PageId>, t: seq<PageId>, invalid: set<PageId>, more: set<PageId>)
    requires Aged(s, t, invalid) && invalid <= more
    ensures Aged(s, t, more)
  {
  }

  lemma AgedThen(s: seq<PageId>, t: seq<PageId>, u: seq<PageId>, invalid: set<PageId>, more: set<PageId>)
    requires Aged(s, t, invalid) && Aged(t, u, more) && invalid <= more
    ensures Aged(s, u, more)
  {
    forall i, j | 0 <= i < j < |u|
      ensures u[i] in more || Before(s, u[i], u[j])
    {
      if u[i] !in more {
        assert Before(t, u[i], u[j]);
        var a, b :| 0 <= a < b < |t| && t[a] == u[i] && t[b] == u[j];
        assert t[a] in invalid || Before(s, t[a], t[b]);
      }
    }
  }

  lemma RemoveOrder(s: seq<PageId>, p: PageId, i: nat, j: nat)
    requires NoDup(s) && p in s && i < j < |Remove(s, p)|
    ensures Before(s, Remove(s, p)[i], Remove(s, p)[j])
  {
    var k :| 0 <= k < |s| && s[k] == p;
    RemoveAt(s, p, k);
    hide Remove, NoDup;
    assert s[if i < k then i else i + 1] == Remove(s, p)[i];
    assert s[if j < k then j else j + 1] == Remove(s, p)[j];
  }

  lemma AgedAfterZap(active: seq<PageId>, rootCount: map<PageId, nat>, p: PageId, invalid: set<PageId>)
    requires NoDup(active) && p in active
    ensures Aged(active, AfterZap(active, rootCount, p), invalid + {p})
  {
    hide Remove, NoDup, Before;
    var t, rest := AfterZap(active, rootCount, p), Remove(active, p);
    var d := |t| - |rest|;
    forall i, j | 0 <= i < j < |t|
      ensures t[i] in invalid + {p} || Before(active, t[i], t[j])
    {
      if i >= d {
        RemoveOrder(active, p, i - d, j - d);
      }
    }
  }

  /** When the last page has moved to the head, no page that is not invalid was behind it before. */
  lemma LastIsOldest(s: seq<PageId>, t: seq<PageId>, u: seq<PageId>, invalid: set<PageId>, q: PageId)
    requires Aged(s, t, invalid) && Rotated(t, u) && u[0] in invalid && q in u && q !in invalid
    ensures Before(s, q, u[0])
  {
    var i :| 0 <= i < |u| && u[i] == q;
    assert t[i - 1] == q && t[|t| - 1] == u[0];
  }

  lemma MovedToHead(active: seq<PageId>, p: PageId, k: nat)
    requires NoDup(active) && k < |active| && active[k] == p
    ensures var t := [p] + Remove(active, p);
            && |t| == |active| && t[0] == p
            && (forall i | 0 < i <= k :: t[i] == active[i - 1])
            && (forall i | k < i < |t| :: t[i] == active[i])
  {
    RemoveAt(active, p, k);
  }

  lemma GoneFromList(pages: Pages, invalid: set<PageId>, rootCount: map<PageId, nat>, active: seq<PageId>,
                     zapped: set<PageId>, nUsed: int, p: PageId)
    requires ListShape(pages, invalid, rootCount, active, zapped, nUsed) && p !in pages
    ensures p !in active
  {}
}
