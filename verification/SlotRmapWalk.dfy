/** Walking the reverse maps of a memory slot, level by level: which rmap heads a range handler is applied to. */
module SlotRmapWalk {
  import opened Constants
  import opened MemSlots
  import opened ShadowState

  const PAGE_TABLE_LEVEL: nat := 1

  /** gfn_to_index. */
  function GfnToIndex(gfn: nat, base: nat, level: nat): int {
    Block(level, gfn) - Block(level, base)
  }

  /** The length of the rmap array of a level, as vmrun_arch_create_memslot allocates it. */
  function Lpages(slot: Slot, level: nat): int
    requires slot.npages > 0
  {
    GfnToIndex(slot.base + slot.npages - 1, slot.base, level) + 1
  }

  predicate InSlot(slot: Slot, gfn: nat) {
    slot.base <= gfn < slot.base + slot.npages
  }

  lemma BlockMonotone(level: nat, a: nat, b: nat)
    requires a <= b
    ensures Block(level, a) <= Block(level, b)
  {
  }

  /** Every frame of the slot has its place in the array of every level. */
  lemma IndexInArray(slot: Slot, gfn: nat, level: nat)
    requires slot.npages > 0 && InSlot(slot, gfn)
    ensures 0 <= GfnToIndex(gfn, slot.base, level) < Lpages(slot, level)
  {
    BlockMonotone(level, slot.base, gfn);
    BlockMonotone(level, gfn, slot.base + slot.npages - 1);
  }

  // ---------------------------------------------------------------- what is visited

  /** One rmap head, with the running frame number that the iterator hands out. */
  datatype Visit = Visit(level: nat, index: int, gfn: nat)

  function RowLength(slot: Slot, level: nat, first: nat, last: nat): int {
    GfnToIndex(last, slot.base, level) - GfnToIndex(first, slot.base, level) + 1
  }

  function Row(slot: Slot, level: nat, first: nat, last: nat): (r: seq<Visit>)
    requires first <= last
    ensures |r| == RowLength(slot, level, first, last)
  {
    BlockMonotone(level, first, last);
    seq(RowLength(slot, level, first, last),
        k requires 0 <= k => Visit(level, GfnToIndex(first, slot.base, level) + k, first + k * Span(level)))
  }

  function Rows(slot: Slot, level: nat, end: nat, first: nat, last: nat): seq<Visit>
    requires first <= last
    decreases end + 1 - level
  {
    if level > end then [] else Row(slot, level, first, last) + Rows(slot, level + 1, end, first, last)
  }

  lemma RowAt(slot: Slot, level: nat, first: nat, last: nat, k: nat)
    requires first <= last && k < RowLength(slot, level, first, last)
    ensures var v := Row(slot, level, first, last)[k];
            && v.level == level && v.index == GfnToIndex(first, slot.base, level) + k
            && GfnToIndex(v.gfn, slot.base, level) == v.index
  {
    assert (first + k * Span(level)) / Span(level) == first / Span(level) + k;
  }

  /** What the walk may hand out: a head inside the range at a level of the range, with a frame that belongs to it. */
  predicate Wanted(v: Visit, slot: Slot, level: nat, end: nat, first: nat, last: nat) {
    && level <= v.level <= end
    && GfnToIndex(first, slot.base, v.level) <= v.index <= GfnToIndex(last, slot.base, v.level)
    && GfnToIndex(v.gfn, slot.base, v.level) == v.index
  }

  predicate Before(a: Visit, b: Visit) {
    a.level < b.level || (a.level == b.level && a.index < b.index)
  }

  predicate Ordered(r: seq<Visit>) {
    forall n, m | 0 <= n < m < |r| :: Before(r[n], r[m])
  }

  lemma {:induction false} RowsSound(slot: Slot, level: nat, end: nat, first: nat, last: nat)
    requires first <= last
    ensures forall v | v in Rows(slot, level, end, first, last) :: Wanted(v, slot, level, end, first, last)
    decreases end + 1 - level
  {
    if level <= end {
      var row, rest := Row(slot, level, first, last), Rows(slot, level + 1, end, first, last);
      RowsSound(slot, level + 1, end, first, last);
      forall v | v in row + rest
        ensures Wanted(v, slot, level, end, first, last)
      {
        if v in row {
          var k :| 0 <= k < |row| && row[k] == v;
          RowAt(slot, level, first, last, k);
        } else {
          assert v in rest;
        }
      }
    }
  }

  lemma {:induction false} RowsComplete(slot: Slot, level: nat, end: nat, first: nat, last: nat, l: nat, index: int)
    returns (v: Visit)
    requires first <= last && level <= l <= end
    requires GfnToIndex(first, slot.base, l) <= index <= GfnToIndex(last, slot.base, l)
    ensures v in Rows(slot, level, end, first, last) && v.level == l && v.index == index
    decreases end + 1 - level
  {
    if level == l {
      var row := Row(slot, level, first, last);
      var k := index - GfnToIndex(first, slot.base, l);
      RowAt(slot, level, first, last, k);
      v := row[k];
      assert v in row;
    } else {
      v := RowsComplete(slot, level + 1, end, first, last, l, index);
    }
  }

  lemma {:induction false} RowsOrdered(slot: Slot, level: nat, end: nat, first: nat, last: nat)
    requires first <= last
    ensures Ordered(Rows(slot, level, end, first, last))
    decreases end + 1 - level
  {
    hide Row, Span, Block, GfnToIndex;
    if level <= end {
      var row, rest := Row(slot, level, first, last), Rows(slot, level + 1, end, first, last);
      RowsOrdered(slot, level + 1, end, first, last);
      RowsSound(slot, level + 1, end, first, last);
      var r := row + rest;
      forall n, m | 0 <= n < m < |r|
        ensures Before(r[n], r[m])
      {
        if |row| <= n {
          assert r[n] == rest[n - |row|] && r[m] == rest[m - |row|];
          assert Before(rest[n - |row|], rest[m - |row|]);
        } else {
          RowAt(slot, level, first, last, n);
          assert r[n] == row[n];
          if |row| <= m {
            assert r[m] == rest[m - |row|] && r[m] in rest;
            assert Wanted(r[m], slot, level + 1, end, first, last);
          } else {
            RowAt(slot, level, first, last, m);
            assert r[m] == row[m];
          }
        }
      }
    }
  }

  /** A range walk misses no frame and repeats no head: for every frame of the range and every level there is exactly
    one place in the walk where the head of that frame is handed out, and it lies inside the array of that level. */
  lemma MissesNothing(slot: Slot, level: nat, end: nat, first: nat, last: nat, gfn: nat, l: nat) returns (n: nat)
    requires slot.npages > 0 && InSlot(slot, first) && InSlot(slot, last) && first <= gfn <= last && level <= l <= end
    ensures var r := Rows(slot, level, end, first, last); var i := GfnToIndex(gfn, slot.base, l);
            && 0 <= i < Lpages(slot, l)
            && n < |r| && r[n].level == l && r[n].index == i
            && forall m | 0 <= m < |r| && r[m].level == l && r[m].index == i :: m == n
  {
    BlockMonotone(l, first, gfn);
    BlockMonotone(l, gfn, last);
    IndexInArray(slot, gfn, l);
    var r := Rows(slot, level, end, first, last);
    var v := RowsComplete(slot, level, end, first, last, l, GfnToIndex(gfn, slot.base, l));
    n :| 0 <= n < |r| && r[n] == v;
    RowsOrdered(slot, level, end, first, last);
    forall m | 0 <= m < |r| && r[m].level == v.level && r[m].index == v.index
      ensures m == n
    {
      assert m < n ==> Before(r[m], r[n]);
      assert n < m ==> Before(r[n], r[m]);
    }
  }

  lemma FrameOf(level: nat, first: nat, last: nat, block: nat) returns (gfn: nat)
    requires first <= last && Block(level, first) <= block <= Block(level, last)
    ensures first <= gfn <= last && Block(level, gfn) == block
  {
    if block == Block(level, first) {
      gfn := first;
    } else if level <= 1 {
      gfn := block;
    } else if level == 2 {
      gfn := block * 512;
    } else if level == 3 {
      gfn := block * 0x4_0000;
    } else if level == 4 {
      gfn := block * 0x800_0000;
    } else {
      gfn := block * 0x10_0000_0000;
    }
  }

  /** And it hands out nothing else: every head lies inside its array and covers a frame of the range. */
  lemma NothingElse(slot: Slot, level: nat, end: nat, first: nat, last: nat, v: Visit) returns (gfn: nat)
    requires slot.npages > 0 && InSlot(slot, first) && InSlot(slot, last) && first <= last
    requires v in Rows(slot, level, end, first, last)
    ensures level <= v.level <= end && 0 <= v.index < Lpages(slot, v.level)
    ensures GfnToIndex(v.gfn, slot.base, v.level) == v.index
    ensures first <= gfn <= last && GfnToIndex(gfn, slot.base, v.level) == v.index
  {
    RowsSound(slot, level, end, first, last);
    IndexInArray(slot, first, v.level);
    IndexInArray(slot, last, v.level);
    gfn := FrameOf(v.level, first, last, v.index + Block(v.level, slot.base));
  }

  lemma RowSplit(slot: Slot, level: nat, first: nat, last: nat, k: nat)
    requires first <= last && k < RowLength(slot, level, first, last)
    ensures var row := Row(slot, level, first, last);
            && |row| == RowLength(slot, level, first, last)
            && row[k..] ==
               [Visit(level, GfnToIndex(first, slot.base, level) + k, first + k * Span(level))] + row[k + 1..]
    ensures first + k * Span(level) + Span(level) == first + (k + 1) * Span(level)
  {
  }

  // ---------------------------------------------------------------- the iterator

  /** struct slot_rmap_walk_iterator; a head is its index in the array of the level, no head is -1. */
  class Walker {
    const slot: Slot
    const startGfn: nat
    const endGfn: nat
    const startLevel: nat
    const endLevel: nat
    var gfn: nat
    var rmap: int
    var level: nat
    var endRmap: int

    ghost predicate Valid()
      reads this
    {
      && slot.npages > 0 && InSlot(slot, startGfn) && InSlot(slot, endGfn) && startGfn <= endGfn
      && startLevel <= endLevel
      && rmap >= -1
      && (rmap >= 0 ==>
            && startLevel <= level <= endLevel
            && endRmap == GfnToIndex(endGfn, slot.base, level)
            && GfnToIndex(startGfn, slot.base, level) <= rmap <= endRmap
            && gfn == startGfn + (rmap - GfnToIndex(startGfn, slot.base, level)) * Span(level))
    }

    /** The visits that are still to come, the current one included. */
    ghost function ToCome(): seq<Visit>
      requires Valid()
      reads this
    {
      if rmap < 0 then []
      else Row(slot, level, startGfn, endGfn)[rmap - GfnToIndex(startGfn, slot.base, level)..]
           + Rows(slot, level + 1, endLevel, startGfn, endGfn)
    }

    lemma NoneToCome()
      requires Valid() && rmap < 0
      ensures ToCome() == []
    {
    }

    /** slot_rmap_walk_init. */
    constructor (slot: Slot, startLevel: nat, endLevel: nat, startGfn: nat, endGfn: nat)
      requires slot.npages > 0 && InSlot(slot, startGfn) && InSlot(slot, endGfn) && startGfn <= endGfn
      requires startLevel <= endLevel
      ensures Valid() && ToCome() == Rows(slot, startLevel, endLevel, startGfn, endGfn)
      ensures this.slot == slot && this.endLevel == endLevel
    {
      this.slot, this.startLevel, this.endLevel := slot, startLevel, endLevel;
      this.startGfn, this.endGfn := startGfn, endGfn;
      new;
      InitLevel(startLevel);
    }

    /** rmap_walk_init_level. */
    method InitLevel(l: nat)
      requires slot.npages > 0 && InSlot(slot, startGfn) && InSlot(slot, endGfn) && startGfn <= endGfn
      requires startLevel <= l <= endLevel
      modifies this
      ensures Valid() && ToCome() == Rows(slot, l, endLevel, startGfn, endGfn) && level == l && rmap >= 0
    {
      level, gfn := l, startGfn;
      rmap := GfnToIndex(gfn, slot.base, level);
      endRmap := GfnToIndex(endGfn, slot.base, level);
      IndexInArray(slot, startGfn, l);
      BlockMonotone(l, startGfn, endGfn);
    }

    /** slot_rmap_walk_okay. */
    predicate Okay()
      reads this
    {
      rmap >= 0
    }

    /** slot_rmap_walk_next: the current visit is done. */
    method Next()
      requires Valid() && Okay()
      modifies this
      ensures Valid() && old(ToCome()) == [old(Visit(level, rmap, gfn))] + ToCome()
      ensures level > old(level) || (level == old(level) && rmap > old(rmap) && endRmap == old(endRmap))
    {
      ghost var k := rmap - GfnToIndex(startGfn, slot.base, level);
      hide Row, Span, Block;
      RowSplit(slot, level, startGfn, endGfn, k);
      rmap := rmap + 1;
      if rmap <= endRmap {
        gfn := gfn + Span(level);
        return;
      }
      level := level + 1;
      if level > endLevel {
        rmap := -1;
        return;
      }
      InitLevel(level);
    }
  }

  lemma OneMore(visited: seq<Visit>, v: Visit, rest: seq<Visit>, handler: Visit -> bool)
    ensures visited + ([v] + rest) == visited + [v] + rest
    ensures (exists u | u in visited + [v] :: handler(u)) <==> (exists u | u in visited :: handler(u)) || handler(v)
  {
    assert v in visited + [v];
    assert forall u | u in visited :: u in visited + [v];
  }

  /** slot_handle_level_range. `handler` says of each head whether it changed something that needs a flush, and
    `needBreak` where the lock is given up. With `lockFlush` nothing is owed at any break or at the end; without it the
    result tells the caller to flush if and only if some handler asked for it. */
  method HandleLevelRange(slot: Slot, startLevel: nat, endLevel: nat, first: nat, last: nat, lockFlush: bool,
                          handler: Visit -> bool, needBreak: Visit -> bool)
    returns (visited: seq<Visit>, flush: bool, ghost owedAtBreak: bool)
    requires slot.npages > 0 && InSlot(slot, first) && InSlot(slot, last) && first <= last && startLevel <= endLevel
    ensures visited == Rows(slot, startLevel, endLevel, first, last)
    ensures lockFlush ==> !flush && !owedAtBreak
    ensures !lockFlush ==> (flush <==> exists v | v in visited :: handler(v))
  {
    hide Row, Rows, Span, Block, GfnToIndex, Walker.ToCome;
    var w := new Walker(slot, startLevel, endLevel, first, last);
    visited, flush, owedAtBreak := [], false, false;
    ghost var owed := false;
    while w.Okay()
      invariant w.Valid() && w.slot == slot && w.endLevel == endLevel
      invariant visited + w.ToCome() == Rows(slot, startLevel, endLevel, first, last)
      invariant flush == owed && (lockFlush ==> !owedAtBreak)
      invariant !lockFlush ==> (flush <==> exists v | v in visited :: handler(v))
      decreases w.endLevel - w.level, w.endRmap - w.rmap
    {
      var v := Visit(w.level, w.rmap, w.gfn);
      var dirty := handler(v);
      flush, owed := flush || dirty, owed || dirty;
      if needBreak(v) {
        if flush && lockFlush {
          flush, owed := false, false;
        }
        owedAtBreak := owedAtBreak || owed;
      }
      w.Next();
      OneMore(visited, v, w.ToCome(), handler);
      visited := visited + [v];
    }
    w.NoneToCome();
    if flush && lockFlush {
      flush, owed := false, false;
    }
  }

  // ---------------------------------------------------------------- frame and address ranges over all slots

  /** A head of some slot. */
  datatype Head = Head(slot: Slot, visit: Visit)

  ghost predicate Handled(heads: seq<Head>, slot: Slot, level: nat, index: int) {
    exists n | 0 <= n < |heads| ::
      heads[n].slot == slot && heads[n].visit.level == level && heads[n].visit.index == index
  }

  /** The head covers a frame that is wanted. */
  ghost predicate Called(h: Head, wanted: (Slot, nat) -> bool) {
    && PAGE_TABLE_LEVEL <= h.visit.level <= MAX_HUGEPAGE_LEVEL
    && exists gfn :: wanted(h.slot, gfn) && GfnToIndex(gfn, h.slot.base, h.visit.level) == h.visit.index
  }

  /** Of the given slots, exactly the heads of the wanted frames are handled, at every level. */
  ghost predicate Handles(heads: seq<Head>, slots: seq<Slot>, wanted: (Slot, nat) -> bool) {
    && (forall j, gfn, l | 0 <= j < |slots| && wanted(slots[j], gfn) && PAGE_TABLE_LEVEL <= l <= MAX_HUGEPAGE_LEVEL ::
          Handled(heads, slots[j], l, GfnToIndex(gfn, slots[j].base, l)))
    && (forall n | 0 <= n < |heads| :: heads[n].slot in slots && Called(heads[n], wanted))
  }

  /** The frames from `first` to `last` are the wanted ones of the slot. */
  ghost predicate Interval(slot: Slot, wanted: (Slot, nat) -> bool, first: nat, last: nat) {
    forall gfn: nat :: wanted(slot, gfn) <==> first <= gfn <= last
  }

  function Heads(slot: Slot, rows: seq<Visit>): (heads: seq<Head>)
    ensures |heads| == |rows| && forall i | 0 <= i < |rows| :: heads[i] == Head(slot, rows[i])
  {
    seq(|rows|, i requires 0 <= i < |rows| => Head(slot, rows[i]))
  }

  lemma RowsHandled(slot: Slot, first: nat, last: nat, gfn: nat, l: nat)
    requires slot.npages > 0 && InSlot(slot, first) && InSlot(slot, last) && first <= gfn <= last
    requires PAGE_TABLE_LEVEL <= l <= MAX_HUGEPAGE_LEVEL
    ensures Handled(Heads(slot, Rows(slot, PAGE_TABLE_LEVEL, MAX_HUGEPAGE_LEVEL, first, last)), slot, l,
                    GfnToIndex(gfn, slot.base, l))
  {
    var n := MissesNothing(slot, PAGE_TABLE_LEVEL, MAX_HUGEPAGE_LEVEL, first, last, gfn, l);
    hide Rows;
    assert Heads(slot, Rows(slot, PAGE_TABLE_LEVEL, MAX_HUGEPAGE_LEVEL, first, last))[n].slot == slot;
  }

  lemma SlotHandled(heads: seq<Head>, slots: seq<Slot>, j: nat, first: nat, last: nat, wanted: (Slot, nat) -> bool)
    requires j < |slots| && Handles(heads, slots[..j], wanted) && slots[j].npages > 0
    requires InSlot(slots[j], first) && InSlot(slots[j], last) && first <= last
             && Interval(slots[j], wanted, first, last)
    ensures var rows := Rows(slots[j], PAGE_TABLE_LEVEL, MAX_HUGEPAGE_LEVEL, first, last);
            Handles(heads + Heads(slots[j], rows), slots[..j + 1], wanted)
  {
    hide Rows, Called, GfnToIndex, Handled;
    var slot := slots[j];
    var added := Heads(slot, Rows(slot, PAGE_TABLE_LEVEL, MAX_HUGEPAGE_LEVEL, first, last));
    forall k, gfn, l | 0 <= k < j + 1 && wanted(slots[k], gfn) && PAGE_TABLE_LEVEL <= l <= MAX_HUGEPAGE_LEVEL
      ensures Handled(heads + added, slots[k], l, GfnToIndex(gfn, slots[k].base, l))
    {
      if k < j {
        assert slots[..j][k] == slots[k];
        HandledMore(heads, added, [], slots[k], l, GfnToIndex(gfn, slots[k].base, l));
      } else {
        RowsHandled(slot, first, last, gfn, l);
        HandledMore(added, [], heads, slot, l, GfnToIndex(gfn, slot.base, l));
      }
    }
    assert slots[..j + 1] == slots[..j] + [slot];
    forall v | v in Rows(slot, PAGE_TABLE_LEVEL, MAX_HUGEPAGE_LEVEL, first, last)
      ensures Called(Head(slot, v), wanted)
    {
      RowCalled(slot, first, last, wanted, v);
    }
  }

  lemma HandledMore(heads: seq<Head>, behind: seq<Head>, before: seq<Head>, slot: Slot, level: nat, index: int)
    requires Handled(heads, slot, level, index)
    ensures Handled(heads + behind, slot, level, index) && Handled(before + heads, slot, level, index)
  {
    var n :| 0 <= n < |heads| && heads[n].slot == slot && heads[n].visit.level == level
             && heads[n].visit.index == index;
    assert (heads + behind)[n] == heads[n] == (before + heads)[|before| + n];
  }

  lemma RowCalled(slot: Slot, first: nat, last: nat, wanted: (Slot, nat) -> bool, v: Visit)
    requires slot.npages > 0 && InSlot(slot, first) && InSlot(slot, last) && first <= last
    requires Interval(slot, wanted, first, last) && v in Rows(slot, PAGE_TABLE_LEVEL, MAX_HUGEPAGE_LEVEL, first, last)
    ensures Called(Head(slot, v), wanted)
  {
    var gfn := NothingElse(slot, PAGE_TABLE_LEVEL, MAX_HUGEPAGE_LEVEL, first, last, v);
  }

  lemma SlotSkipped(heads: seq<Head>, slots: seq<Slot>, j: nat, k: nat, wanted: (Slot, nat) -> bool)
    requires j <= k <= |slots| && Handles(heads, slots[..j], wanted)
    requires forall n, gfn | j <= n < k :: !wanted(slots[n], gfn)
    ensures Handles(heads, slots[..k], wanted)
  {
    forall n, gfn, l | 0 <= n < k && wanted(slots[n], gfn) && PAGE_TABLE_LEVEL <= l <= MAX_HUGEPAGE_LEVEL
      ensures Handled(heads, slots[n], l, GfnToIndex(gfn, slots[n].base, l))
    {
      assert n < j && slots[..j][n] == slots[n];
    }
    assert slots[..k] == slots[..j] + slots[j..k];
  }

  predicate Within(slot: Slot, gfn: nat, start: nat, end: nat) {
    InSlot(slot, gfn) && start <= gfn < end
  }

  /** The frames of one slot that vmrun_zap_gfn_range walks. */
  method GfnFrames(slot: Slot, gfnStart: nat, gfnEnd: nat) returns (some: bool, first: nat, last: nat)
    ensures !some ==> forall gfn: nat :: !Within(slot, gfn, gfnStart, gfnEnd)
    ensures some ==>
              && slot.npages > 0 && InSlot(slot, first) && InSlot(slot, last) && first <= last
              && forall gfn: nat :: Within(slot, gfn, gfnStart, gfnEnd) <==> first <= gfn <= last
  {
    var start := if gfnStart > slot.base then gfnStart else slot.base;
    var end := if gfnEnd < slot.base + slot.npages then gfnEnd else slot.base + slot.npages;
    some, first, last := start < end, start, 0;
    if some {
      last := end - 1;
    }
  }

  lemma EmptySlots(slots: seq<Slot>, used: nat, j: nat)
    requires Packed(slots, used) && (j < |slots| ==> slots[j].npages == 0)
    ensures forall n, gfn | j <= n < |slots| :: !InSlot(slots[n], gfn)
  {
  }

  /** vmrun_zap_gfn_range over the slots of one address space. */
  method ZapGfnRange(slots: seq<Slot>, ghost used: nat, gfnStart: nat, gfnEnd: nat) returns (zapped: seq<Head>)
    requires Packed(slots, used)
    ensures Handles(zapped, slots, (slot: Slot, gfn: nat) => Within(slot, gfn, gfnStart, gfnEnd))
  {
    zapped := [];
    ghost var wanted := (slot: Slot, gfn: nat) => Within(slot, gfn, gfnStart, gfnEnd);
    assert Handles(zapped, slots[..0], wanted);
    hide Rows, Handles, GfnToIndex, Packed;
    var j := 0;
    while j < |slots| && slots[j].npages != 0
      invariant j <= |slots| && Handles(zapped, slots[..j], wanted)
    {
      var slot := slots[j];
      var some, first, last := GfnFrames(slot, gfnStart, gfnEnd);
      if !some {
        SlotSkipped(zapped, slots, j, j + 1, wanted);
      } else {
        var visited, flush;
        ghost var owed;
        visited, flush, owed :=
          HandleLevelRange(slot, PAGE_TABLE_LEVEL, MAX_HUGEPAGE_LEVEL, first, last, true, _ => true, _ => false);
        SlotHandled(zapped, slots, j, first, last, wanted);
        zapped := zapped + Heads(slot, visited);
      }
      j := j + 1;
    }
    EmptySlots(slots, used, j);
    SlotSkipped(zapped, slots, j, |slots|, wanted);
    assert slots[..|slots|] == slots;
  }

  /** The page of host addresses behind a frame of the slot meets the range. */
  predicate Meets(slot: Slot, gfn: nat, start: nat, end: nat) {
    && InSlot(slot, gfn) && start < end
    && var page := slot.addr + (gfn - slot.base) * PAGE_SIZE;
    page < end && start < page + PAGE_SIZE
  }

  /** hva_to_gfn_memslot. */
  function HvaToGfn(hva: nat, slot: Slot): nat
    requires slot.addr <= hva
  {
    slot.base + (hva - slot.addr) / PAGE_SIZE
  }

  /** The frame range that vmrun_handle_hva_range computes is the set of frames whose page meets the address range. */
  lemma HvaInterval(slot: Slot, start: nat, end: nat, hvaStart: nat, hvaEnd: nat)
    requires hvaStart == (if start > slot.addr then start else slot.addr)
    requires hvaEnd == (if end < slot.addr + slot.npages * PAGE_SIZE then end else slot.addr + slot.npages * PAGE_SIZE)
    ensures hvaStart >= hvaEnd ==> forall gfn: nat :: !Meets(slot, gfn, start, end)
    ensures hvaStart < hvaEnd ==>
              var first, last := HvaToGfn(hvaStart, slot), HvaToGfn(hvaEnd + PAGE_SIZE - 1, slot) - 1;
              && InSlot(slot, first) && InSlot(slot, last) && first <= last
              && forall gfn: nat :: Meets(slot, gfn, start, end) <==> first <= gfn <= last
  {
  }

  /** The frames of one slot that vmrun_handle_hva_range walks. */
  method HvaFrames(slot: Slot, start: nat, end: nat) returns (some: bool, first: nat, last: nat)
    ensures !some ==> forall gfn: nat :: !Meets(slot, gfn, start, end)
    ensures some ==>
              && slot.npages > 0 && InSlot(slot, first) && InSlot(slot, last) && first <= last
              && forall gfn: nat :: Meets(slot, gfn, start, end) <==> first <= gfn <= last
  {
    var hvaStart := if start > slot.addr then start else slot.addr;
    var top := slot.addr + slot.npages * PAGE_SIZE;
    var hvaEnd := if end < top then end else top;
    HvaInterval(slot, start, end, hvaStart, hvaEnd);
    some, first, last := hvaStart < hvaEnd, 0, 0;
    if some {
      first, last := HvaToGfn(hvaStart, slot), HvaToGfn(hvaEnd + PAGE_SIZE - 1, slot) - 1;
    }
  }

  /** vmrun_handle_hva_range over the slots of one address space: exactly the heads of the frames whose page meets the
    address range are handled, at every level. */
  method HandleHvaRange(slots: seq<Slot>, ghost used: nat, start: nat, end: nat) returns (handled: seq<Head>)
    requires Packed(slots, used)
    ensures Handles(handled, slots, (slot: Slot, gfn: nat) => Meets(slot, gfn, start, end))
  {
    handled := [];
    ghost var wanted := (slot: Slot, gfn: nat) => Meets(slot, gfn, start, end);
    assert Handles(handled, slots[..0], wanted);
    hide Rows, Handles, GfnToIndex, Packed, HvaToGfn;
    var j := 0;
    while j < |slots| && slots[j].npages != 0
      invariant j <= |slots| && Handles(handled, slots[..j], wanted)
    {
      var slot := slots[j];
      var some, first, last := HvaFrames(slot, start, end);
      if !some {
        SlotSkipped(handled, slots, j, j + 1, wanted);
      } else {
        var visited, flush;
        ghost var owed;
        visited, flush, owed :=
          HandleLevelRange(slot, PAGE_TABLE_LEVEL, MAX_HUGEPAGE_LEVEL, first, last, false, _ => true, _ => false);
        SlotHandled(handled, slots, j, first, last, wanted);
        handled := handled + Heads(slot, visited);
      }
      j := j + 1;
    }
    EmptySlots(slots, used, j);
    assert forall n, gfn | j <= n < |slots| :: !Meets(slots[n], gfn, start, end);
    SlotSkipped(handled, slots, j, |slots|, wanted);
    assert slots[..|slots|] == slots;
  }
}
