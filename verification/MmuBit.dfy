/** SPTE_MMU_WRITEABLE on a shadowed frame: when it is clear, as it is meant to be, and a run that leaves it set. */
module MmuBit {
  import opened ShadowState
  import opened Protection
  import opened ShadowMmus
  import Accounts

  /** While an in-sync page shadows a frame, an entry that maps the frame has SPTE_MMU_WRITEABLE only if
    vmrun_set_pte_rmapp has pointed that entry at a read-only page. */
  lemma BitOnlyIfChanged(mmu: ShadowMmu, p: PageId, r: SpteRef)
    requires mmu.Sound({}) && ValidSp(mmu.pages, mmu.invalid, mmu.validGen, p) && !mmu.pages[p].direct
    requires p !in mmu.unsync
    requires r in mmu.spt && r.page in mmu.pages && Covers(mmu.pages[r.page].level, mmu.spt[r], mmu.pages[p].gfn)
    ensures mmu.spt[r].mmuW ==> r in mmu.changed
  {
    hide Graph, Marks, Mapped, Accounts.Balanced, ShadowMmu.Listed;
    UnchangedIsClear(mmu.pages, mmu.spt, mmu.pages[p].gfn, mmu.changed);
  }

  /** So in a run without such a change the property holds in full. */
  lemma ClearWithoutChange(mmu: ShadowMmu, p: PageId)
    requires mmu.Sound({}) && ValidSp(mmu.pages, mmu.invalid, mmu.validGen, p) && !mmu.pages[p].direct
    requires p !in mmu.unsync && mmu.changed == {}
    ensures MmuBitClear(mmu.pages, mmu.spt, mmu.pages[p].gfn)
  {
    hide ShadowMmu.Core, Mapped;
    forall r | r in mmu.spt && r.page in mmu.pages && Covers(mmu.pages[r.page].level, mmu.spt[r], mmu.pages[p].gfn)
      ensures !mmu.spt[r].mmuW
    {
      BitOnlyIfChanged(mmu, p, r);
    }
  }

  /** A VM with one direct page for the first 512 frames. */
  method OnePage() returns (mmu: ShadowMmu)
    ensures fresh(mmu) && mmu.Sound({}) && mmu.pages == map[1 := Header(0, 1, true, 0, 0)] && mmu.validGen == 0
    ensures mmu.spt == map[] && mmu.active == [1] && mmu.gfnTrack == map[] && mmu.disallow == map[]
  {
    mmu := new ShadowMmu(map[]);
    hide ShadowMmu.Core, Mapped, GfnProtected, Protected, Weakened;
    mmu.CreatePage(1, 0, 1, true, 0);
  }

  /** A frame is mapped writable. */
  method MapWritable() returns (mmu: ShadowMmu, r: SpteRef)
    ensures fresh(mmu) && mmu.Sound({}) && mmu.pages == map[1 := Header(0, 1, true, 0, 0)] && mmu.validGen == 0
    ensures r == SpteRef(1, 7) && r in mmu.spt && mmu.spt[r] == Leaf(7, 100, true, true, true)
  {
    hide ShadowMmu.Sound, Chain;
    mmu := OnePage();
    r := SpteRef(1, 7);
    assert mmu.Place(r) == Block(1, 7);
    var writeProtected := mmu.MmuSetSpte(r, true, 7, 100, false, true, false);
  }

  /** Then its host page is exchanged for a read-only one, and a page table in that frame is shadowed. The entry still
    has SPTE_MMU_WRITEABLE: write protection returned early for it. */
  method BitSurvives() returns (mmu: ShadowMmu, r: SpteRef, p: PageId)
    ensures mmu.Sound({}) && p in IndirectValid(mmu.pages, mmu.invalid, mmu.validGen, 7) && p !in mmu.unsync
    ensures r in mmu.spt && r.page in mmu.pages && Covers(mmu.pages[r.page].level, mmu.spt[r], 7)
    ensures mmu.spt[r].mmuW && !MmuBitClear(mmu.pages, mmu.spt, 7) && r in mmu.changed
  {
    hide ShadowMmu.Core, Mapped, Protected, Weakened;
    mmu, r := MapWritable();
    mmu.ChangePte(r, 101);
    p := 2;
    mmu.UnsyncKnown(p);
    mmu.CreatePage(p, 7, 1, false, 0);
    assert mmu.spt[r] == Leaf(7, 101, false, false, true);
  }
}
