/** A guest write to a page table that is shadowed: vmrun_mmu_pte_write on the shadow MMU. */
module PteWrites {
  import opened Constants
  import opened ShadowState
  import opened Protection
  import UnsyncPaths
  import opened Zapping
  import opened ShadowMmus
  import opened Quadrants
  import Accounts

  /** The role bits and write counts of the indirect pages. */
  ghost predicate Shaped(pages: Pages, sps: map<PageId, Sp>) {
    forall p | p in pages && !pages[p].direct :: p in sps && sps[p].level == pages[p].level && WellFormed(sps[p])
  }

  /** The entries that a response to a write drops. */
  ghost function Dropping(p: PageId, s: Sptes): set<SpteRef> {
    if s.NoSptes? then {} else set i | s.first <= i < s.first + s.count :: SpteRef(p, i)
  }

  /** mmu_page_zap_pte over the entries that get_written_sptes yields. */
  method DropWritten(mmu: ShadowMmu, p: PageId, s: Sptes) returns (flush: bool)
    requires mmu.Sound({})
    modifies mmu`spt, mmu`parents, mmu`rmap
    ensures mmu.spt == old(mmu.spt) - Dropping(p, s)
    ensures flush <==> exists r | r in old(mmu.spt) && r in Dropping(p, s) :: !old(mmu.spt)[r].Mmio?
    ensures mmu.Sound({})
  {
    hide ShadowMmu.Core, Mapped;
    flush := false;
    if s.NoSptes? {
      return;
    }
    for n := 0 to s.count
      invariant mmu.Sound({})
      invariant mmu.spt == old(mmu.spt) - Dropping(p, Sptes(s.first, n))
      invariant flush <==> exists r | r in old(mmu.spt) && r in Dropping(p, Sptes(s.first, n)) :: !old(mmu.spt)[r].Mmio?
    {
      var r := SpteRef(p, s.first + n);
      assert Dropping(p, Sptes(s.first, n + 1)) == Dropping(p, Sptes(s.first, n)) + {r};
      if r in mmu.spt && !mmu.spt[r].Mmio? {
        flush := true;
      }
      if r in mmu.spt && mmu.spt[r].Link? {
        mmu.UnlinkEntry(r);
      } else {
        mmu.DropMapped(r);
      }
    }
  }

  /** An entry of a lost page, or a link to one. */
  predicate Touches(r: SpteRef, e: Entry, lost: set<PageId>) {
    r.page in lost || (e.Link? && e.child in lost)
  }

  /** The pages that have been zapped between two states: freed with the next commit, or held by a root and invalid. */
  ghost function Lost(s: ZapState, t: ZapState): set<PageId> {
    (t.zapped - s.zapped) + (t.invalid - s.invalid)
  }

  /** One page has answered a write: it is zapped, or the written entries are dropped, with a flush if one was
    present. */
  ghost predicate Handled(s: ZapState, t: ZapState, p: PageId, response: Response, flush: bool) {
    && s.zapped <= t.zapped && s.invalid <= t.invalid
    && (forall r | r in t.spt :: r in s.spt && t.spt[r] == s.spt[r])
    && if response.ZapPage? then
         && p in t.invalid
         && forall r | r in s.spt && r !in t.spt :: Touches(r, s.spt[r], Lost(s, t))
       else
         && t.zapped == s.zapped && t.invalid == s.invalid && t.spt == s.spt - Dropping(p, response.sptes)
         && (flush <==> exists r | r in s.spt && r in Dropping(p, response.sptes) :: !s.spt[r].Mmio?)
  }

  lemma TookTouches(s: ZapState, t: ZapState, p: PageId, n: nat)
    requires Took(s, t, {p}, n) && p !in s.invalid
    ensures s.zapped <= t.zapped && s.invalid <= t.invalid && p in t.invalid
    ensures forall r | r in t.spt :: r in s.spt && t.spt[r] == s.spt[r]
    ensures forall r | r in s.spt && r !in t.spt :: Touches(r, s.spt[r], Lost(s, t))
  {
  }

  /** The body of the loop of vmrun_mmu_pte_write: one page is zapped, or the entries written are dropped. */
  method HandlePage(mmu: ShadowMmu, p: PageId, sp: Sp, vcpuPae: bool, offset: nat, length: nat)
    returns (after: Sp, flush: bool)
    requires mmu.Sound({}) && p in mmu.active && p !in mmu.invalid && 0 < length
    modifies mmu`spt, mmu`parents, mmu`unsync, mmu`childBits, mmu`childCount, mmu`rmap, mmu`invalid, mmu`active,
             mmu`zapped, mmu`nUsed, mmu`gfnTrack, mmu`disallow, mmu`indirect
    ensures after == Written(sp, vcpuPae, offset, length)
    ensures Handled(old(mmu.Lists()), mmu.Lists(), p, Respond(sp, vcpuPae, offset, length), flush)
    ensures mmu.Sound({})
  {
    hide ShadowMmu.Sound, Took, WrittenSptes, Misaligned, Dropping, Lost, Touches, UnsyncPaths.Shrunk;
    flush, after := false, sp;
    var (o, n) := Fetched(vcpuPae, offset, length);
    var zap := Misaligned(sp, o, n);
    if !zap && sp.level != 1 {
      after := sp.(floods := sp.floods + 1);
      zap := after.floods >= 3;
    }
    if zap {
      mmu.ZapReady(p);
      var k := mmu.PrepareZap(p, {});
      TookTouches(old(mmu.Lists()), mmu.Lists(), p, k);
    } else {
      flush := DropWritten(mmu, p, WrittenSptes(sp.level, sp.pae, sp.quadrant, o));
    }
  }

  /** The entry stands for a guest entry that was written, on a page that answers by dropping such entries. */
  predicate IsWritten(r: SpteRef, of: set<PageId>, sps: map<PageId, Sp>, vcpuPae: bool, offset: nat, length: nat)
    requires 0 < length
  {
    && r.page in of && r.page in sps
    && var response := Respond(sps[r.page], vcpuPae, offset, length);
    response.Drop? && Among(r.index, response.sptes)
  }

  /** Entries have only disappeared: those of lost pages, links to lost pages, and those that were written. */
  ghost predicate OnlyWritten(spt: Spt, spt': Spt, lost: set<PageId>, of: set<PageId>, sps: map<PageId, Sp>,
                              vcpuPae: bool, offset: nat, length: nat)
    requires 0 < length
  {
    && (forall r | r in spt' :: r in spt && spt'[r] == spt[r])
    && (forall r | r in spt && r !in spt' ::
          Touches(r, spt[r], lost) || IsWritten(r, of, sps, vcpuPae, offset, length))
  }

  lemma OnlyWrittenThen(spt: Spt, spt': Spt, spt'': Spt, lost: set<PageId>, lost': set<PageId>, of: set<PageId>,
                        sps: map<PageId, Sp>, vcpuPae: bool, offset: nat, length: nat)
    requires 0 < length && lost <= lost'
    requires OnlyWritten(spt, spt', lost, of, sps, vcpuPae, offset, length)
    requires OnlyWritten(spt', spt'', lost', of, sps, vcpuPae, offset, length)
    ensures OnlyWritten(spt, spt'', lost', of, sps, vcpuPae, offset, length)
  {
    forall r | r in spt && r !in spt''
      ensures Touches(r, spt[r], lost') || IsWritten(r, of, sps, vcpuPae, offset, length)
    {
      if r in spt' {
        assert spt'[r] == spt[r];
      }
    }
  }

  /** A page that is left has answered the write: its count is right and its written entries are gone. */
  ghost predicate Answered(spt: Spt, p: PageId, sps: map<PageId, Sp>, after: map<PageId, Sp>, vcpuPae: bool,
                           offset: nat, length: nat)
    requires 0 < length
  {
    && p in sps && p in after && after[p] == Written(sps[p], vcpuPae, offset, length)
    && var response := Respond(sps[p], vcpuPae, offset, length);
    response.Drop? && Dropping(p, response.sptes) !! spt.Keys
  }

  /** So, unless the write straddles two eight-byte entries, no shadow entry of the page stands for a written guest
    entry. */
  lemma AnsweredIsClean(spt: Spt, p: PageId, sps: map<PageId, Sp>, after: map<PageId, Sp>, vcpuPae: bool, offset: nat,
                        length: nat, byte: nat, i: nat)
    requires 0 < length && offset + length <= PAGE_SIZE && Answered(spt, p, sps, after, vcpuPae, offset, length)
    requires WellFormed(sps[p]) && !Straddles(vcpuPae, offset, length)
    requires offset <= byte < offset + length && Uses(sps[p], byte, i)
    ensures SpteRef(p, i) !in spt
  {
    hide Uses, WrittenSptes, Misaligned;
    WriteIsHandled(sps[p], vcpuPae, offset, length);
    var response := Respond(sps[p], vcpuPae, offset, length);
    assert Dropped(response, i);
    assert SpteRef(p, i) in Dropping(p, response.sptes);
  }

  lemma NoIndirect(pages: Pages, invalid: set<PageId>, validGen: nat, track: map<Gfn, int>, disallow: map<Bucket, int>,
                   aligned: map<Bucket, int>, gfn: Gfn)
    requires Accounts.Balanced(pages, invalid, track, disallow, aligned, 0)
    ensures IndirectValid(pages, invalid, validGen, gfn) == {}
  {
    forall p | p in IndirectValid(pages, invalid, validGen, gfn)
      ensures p in Accounts.Indirect(pages, invalid)
    {
    }
  }

  /** Without a flush of its own, nothing present is gone but what lost pages account for. */
  ghost predicate Accounted(spt: Spt, spt': Spt, lost: set<PageId>, flush: bool) {
    !flush ==> forall r | r in spt && r !in spt' && !spt[r].Mmio? :: Touches(r, spt[r], lost)
  }

  /** What the loop of vmrun_mmu_pte_write keeps, from `s` to `t`. `of` are the pages it goes over and `todo` those
    still to come. */
  ghost predicate Midway(s: ZapState, t: ZapState, of: set<PageId>, todo: set<PageId>, sps: map<PageId, Sp>,
                         after: map<PageId, Sp>, flush: bool, vcpuPae: bool, offset: nat, length: nat)
    requires 0 < length
  {
    && s.zapped <= t.zapped && s.invalid <= t.invalid && todo <= of
    && after.Keys == sps.Keys && (forall p | p in sps && (p in todo || p !in of) :: after[p] == sps[p])
    && (forall p | p in of - todo :: p in t.invalid || Answered(t.spt, p, sps, after, vcpuPae, offset, length))
    && OnlyWritten(s.spt, t.spt, Lost(s, t), of, sps, vcpuPae, offset, length)
    && Accounted(s.spt, t.spt, Lost(s, t), flush)
  }

  lemma Started(s: ZapState, of: set<PageId>, sps: map<PageId, Sp>, vcpuPae: bool, offset: nat, length: nat)
    requires 0 < length
    ensures Midway(s, s, of, of, sps, sps, false, vcpuPae, offset, length) && Lost(s, s) == {}
  {
  }

  /** Pages that have answered do not notice what happens to others. */
  lemma StillAnswered(t: ZapState, u: ZapState, of: set<PageId>, todo: set<PageId>, sps: map<PageId, Sp>,
                      after: map<PageId, Sp>, vcpuPae: bool, offset: nat, length: nat, p: PageId, sp: Sp)
    requires 0 < length && p in todo && t.invalid <= u.invalid && u.spt.Keys <= t.spt.Keys
    requires forall q | q in of - todo :: q in t.invalid || Answered(t.spt, q, sps, after, vcpuPae, offset, length)
    ensures forall q | q in of - todo ::
              q in u.invalid || Answered(u.spt, q, sps, after[p := sp], vcpuPae, offset, length)
  {
    hide Respond, Written, Dropping;
  }

  lemma HandledThen(s: ZapState, t: ZapState, u: ZapState, of: set<PageId>, sps: map<PageId, Sp>, flush: bool,
                    vcpuPae: bool, offset: nat, length: nat, p: PageId, one: bool)
    requires 0 < length && p in sps && p in of && s.zapped <= t.zapped && s.invalid <= t.invalid
    requires OnlyWritten(s.spt, t.spt, Lost(s, t), of, sps, vcpuPae, offset, length)
    requires Accounted(s.spt, t.spt, Lost(s, t), flush)
    requires Handled(t, u, p, Respond(sps[p], vcpuPae, offset, length), one)
    ensures OnlyWritten(s.spt, u.spt, Lost(s, u), of, sps, vcpuPae, offset, length)
    ensures Accounted(s.spt, u.spt, Lost(s, u), flush || one)
  {
    hide Respond;
    assert Lost(s, t) <= Lost(s, u) && Lost(t, u) <= Lost(s, u);
    assert OnlyWritten(t.spt, u.spt, Lost(s, u), of, sps, vcpuPae, offset, length);
    assert Accounted(t.spt, u.spt, Lost(s, u), one);
    OnlyWrittenThen(s.spt, t.spt, u.spt, Lost(s, t), Lost(s, u), of, sps, vcpuPae, offset, length);
    hide Lost, OnlyWritten, Handled;
    forall r | r in s.spt && r !in u.spt && !s.spt[r].Mmio? && !flush && !one
      ensures Touches(r, s.spt[r], Lost(s, u))
    {
      assert r in t.spt ==> t.spt[r] == s.spt[r];
    }
  }

  /** One round keeps it. */
  lemma MidwayStep(s: ZapState, t: ZapState, u: ZapState, of: set<PageId>, todo: set<PageId>, sps: map<PageId, Sp>,
                   after: map<PageId, Sp>, flush: bool, vcpuPae: bool, offset: nat, length: nat, p: PageId, one: bool)
    requires 0 < length && p in todo && p in sps
    requires Midway(s, t, of, todo, sps, after, flush, vcpuPae, offset, length)
    requires Handled(t, u, p, Respond(sps[p], vcpuPae, offset, length), one)
    ensures Midway(s, u, of, todo - {p}, sps, after[p := Written(sps[p], vcpuPae, offset, length)], flush || one,
                   vcpuPae, offset, length)
  {
    var sp := Written(sps[p], vcpuPae, offset, length);
    assert t.zapped <= u.zapped && t.invalid <= u.invalid && u.spt.Keys <= t.spt.Keys;
    assert p in u.invalid || Answered(u.spt, p, sps, after[p := sp], vcpuPae, offset, length);
    StillAnswered(t, u, of, todo, sps, after, vcpuPae, offset, length, p, sp);
    HandledThen(s, t, u, of, sps, flush, vcpuPae, offset, length, p, one);
    hide Respond, Written, Handled, Answered, OnlyWritten, Accounted, Lost;
  }

  /** After the zapped pages are freed, a page that was lost is gone, or invalid as it was not before. */
  lemma LostForGood(s: ZapState, t: ZapState, pages: Pages)
    requires t.zapped <= pages.Keys
    ensures Lost(s, t) <= pages.Keys - (pages - t.zapped).Keys + (t.invalid - t.zapped - s.invalid)
  {
  }

  lemma OnlyWrittenMore(spt: Spt, spt': Spt, lost: set<PageId>, lost': set<PageId>, of: set<PageId>,
                        sps: map<PageId, Sp>, flush: bool, vcpuPae: bool, offset: nat, length: nat)
    requires 0 < length && lost <= lost' && OnlyWritten(spt, spt', lost, of, sps, vcpuPae, offset, length)
    requires Accounted(spt, spt', lost, flush)
    ensures OnlyWritten(spt, spt', lost', of, sps, vcpuPae, offset, length) && Accounted(spt, spt', lost', flush)
  {
  }

  /** vmrun_mmu_pte_write. Afterwards every valid page that still shadows the written guest page has answered the write;
    only written entries and those of zapped pages are gone; and unless a flush is asked for, all entries gone that were
    present belonged to, or led to, pages that were zapped, whose freeing flushes. */
  method PteWrite(mmu: ShadowMmu, gfn: Gfn, sps: map<PageId, Sp>, vcpuPae: bool, offset: nat, length: nat)
    returns (after: map<PageId, Sp>, flush: bool)
    requires mmu.Sound({}) && Shaped(mmu.pages, sps) && 0 < length && offset + length <= PAGE_SIZE
    modifies mmu
    ensures var of := old(IndirectValid(mmu.pages, mmu.invalid, mmu.validGen, gfn));
            var lost := old(mmu.pages).Keys - mmu.pages.Keys + (mmu.invalid - old(mmu.invalid));
            && OnlyWritten(old(mmu.spt), mmu.spt, lost, of, sps, vcpuPae, offset, length)
            && Accounted(old(mmu.spt), mmu.spt, lost, flush)
            && after.Keys == sps.Keys && forall p | p in sps && p !in of :: after[p] == sps[p]
    ensures forall p | p in IndirectValid(mmu.pages, mmu.invalid, mmu.validGen, gfn) ::
              Answered(mmu.spt, p, sps, after, vcpuPae, offset, length)
    ensures !Straddles(vcpuPae, offset, length) ==>
              forall p, byte: nat, i: nat | p in IndirectValid(mmu.pages, mmu.invalid, mmu.validGen, gfn) && p in sps
                && offset <= byte < offset + length && Uses(sps[p], byte, i) :: SpteRef(p, i) !in mmu.spt
    ensures mmu.Sound({})
  {
    hide ShadowMmu.Sound, Midway, Handled, Answered, OnlyWritten, Accounted, Respond, Written, Uses, Lost, Shaped;
    after, flush := sps, false;
    var of := IndirectValid(mmu.pages, mmu.invalid, mmu.validGen, gfn);
    ghost var s := mmu.Lists();
    Started(s, of, sps, vcpuPae, offset, length);
    if mmu.indirect == 0 {
      NoneIndirect(mmu, gfn);
      Finished(s, s, mmu.pages, mmu.pages, mmu.invalid, mmu.validGen, gfn, sps, after, flush, vcpuPae, offset, length);
      return;
    }
    var todo := of;
    while todo != {}
      invariant mmu.pages == old(mmu.pages) && mmu.validGen == old(mmu.validGen) && todo <= of
      invariant Midway(s, mmu.Lists(), of, todo, sps, after, flush, vcpuPae, offset, length)
      invariant mmu.Sound({})
      decreases |todo|
    {
      var p :| p in todo;
      ghost var t := mmu.Lists();
      if p in mmu.invalid {
        // It was zapped meanwhile, as an unsync child of another page.
        Skipped(s, t, of, todo, sps, after, flush, vcpuPae, offset, length, p);
      } else {
        Known(mmu.pages, sps, p);
        mmu.SoundValid(p);
        var sp, one := HandlePage(mmu, p, sps[p], vcpuPae, offset, length);
        MidwayStep(s, t, mmu.Lists(), of, todo, sps, after, flush, vcpuPae, offset, length, p, one);
        after, flush := after[p := sp], flush || one;
      }
      todo := todo - {p};
    }
    ghost var t := mmu.Lists();
    ZappedKnown(mmu);
    LostForGood(s, t, mmu.pages);
    if mmu.zapped != {} {
      mmu.CommitZap({});
    }
    Finished(s, t, old(mmu.pages), mmu.pages, mmu.invalid, mmu.validGen, gfn, sps, after, flush, vcpuPae, offset,
             length);
  }

  lemma Known(pages: Pages, sps: map<PageId, Sp>, p: PageId)
    requires Shaped(pages, sps) && p in pages && !pages[p].direct
    ensures p in sps && WellFormed(sps[p])
  {
  }

  /** indirect_shadow_pages counts them all. */
  lemma NoneIndirect(mmu: ShadowMmu, gfn: Gfn)
    requires mmu.Sound({}) && mmu.indirect == 0
    ensures IndirectValid(mmu.pages, mmu.invalid, mmu.validGen, gfn) == {}
  {
    hide Graph, Marks, Mapped, Guarded, Backed, ShadowMmu.Listed, Accounts.Balanced;
    NoIndirect(mmu.pages, mmu.invalid, mmu.validGen, mmu.gfnTrack, mmu.disallow, mmu.aligned, gfn);
  }

  lemma ZappedKnown(mmu: ShadowMmu)
    requires mmu.Sound({})
    ensures mmu.zapped <= mmu.pages.Keys
  {
    hide Graph, Mapped, Guarded, Backed, Accounts.Balanced;
  }

  lemma Skipped(s: ZapState, t: ZapState, of: set<PageId>, todo: set<PageId>, sps: map<PageId, Sp>,
                after: map<PageId, Sp>, flush: bool, vcpuPae: bool, offset: nat, length: nat, p: PageId)
    requires 0 < length && p in t.invalid && Midway(s, t, of, todo, sps, after, flush, vcpuPae, offset, length)
    ensures Midway(s, t, of, todo - {p}, sps, after, flush, vcpuPae, offset, length)
  {
    hide Answered, OnlyWritten, Accounted, Lost;
  }

  lemma Finished(s: ZapState, t: ZapState, pages: Pages, pages': Pages, invalid': set<PageId>, validGen: nat, gfn: Gfn,
                 sps: map<PageId, Sp>, after: map<PageId, Sp>, flush: bool, vcpuPae: bool, offset: nat, length: nat)
    requires 0 < length && offset + length <= PAGE_SIZE && Shaped(pages, sps)
    requires Midway(s, t, IndirectValid(pages, s.invalid, validGen, gfn), {}, sps, after, flush, vcpuPae, offset,
                    length)
    requires pages'.Keys <= pages.Keys
    requires forall p | p in pages' :: pages'[p] == pages[p] && (p in t.invalid <==> p in invalid')
    requires Lost(s, t) <= pages.Keys - pages'.Keys + (invalid' - s.invalid)
    ensures var of := IndirectValid(pages, s.invalid, validGen, gfn);
            var lost := pages.Keys - pages'.Keys + (invalid' - s.invalid);
            && OnlyWritten(s.spt, t.spt, lost, of, sps, vcpuPae, offset, length)
            && Accounted(s.spt, t.spt, lost, flush)
            && after.Keys == sps.Keys && forall p | p in sps && p !in of :: after[p] == sps[p]
    ensures forall p | p in IndirectValid(pages', invalid', validGen, gfn) ::
              Answered(t.spt, p, sps, after, vcpuPae, offset, length)
    ensures !Straddles(vcpuPae, offset, length) ==>
              forall p, byte: nat, i: nat | p in IndirectValid(pages', invalid', validGen, gfn) && p in sps
                && offset <= byte < offset + length && Uses(sps[p], byte, i) :: SpteRef(p, i) !in t.spt
  {
    hide Answered, OnlyWritten, Accounted, Lost, Uses, Shaped;
    var of := IndirectValid(pages, s.invalid, validGen, gfn);
    var lost := pages.Keys - pages'.Keys + (invalid' - s.invalid);
    OnlyWrittenMore(s.spt, t.spt, Lost(s, t), lost, of, sps, flush, vcpuPae, offset, length);
    forall p | p in IndirectValid(pages', invalid', validGen, gfn)
      ensures Answered(t.spt, p, sps, after, vcpuPae, offset, length)
    {
      assert p in of - {};
    }
    forall p, byte: nat, i: nat | !Straddles(vcpuPae, offset, length)
      && p in IndirectValid(pages', invalid', validGen, gfn) && p in sps
      && offset <= byte < offset + length && Uses(sps[p], byte, i)
      ensures SpteRef(p, i) !in t.spt
    {
      Known(pages, sps, p);
      AnsweredIsClean(t.spt, p, sps, after, vcpuPae, offset, length, byte, i);
    }
  }
}
