/** The memory-slot table of an address space: an array kept sorted by base frame with the empty slots last, and the
  table that maps a slot id to its place. */
module MemSlots {
  import opened Constants
  import opened Sequences

  const USER_MEM_SLOTS: nat := 509
  const MEM_SLOTS_NUM: nat := 512
  const ADDRESS_SPACE_NUM: nat := 2
  const MEM_MAX_NR_PAGES: nat := 0x7FFF_FFFF
  const U64: nat := 0x1_0000_0000_0000_0000

  const EEXIST: int := 17
  const ENOMEM: int := 12
  const EINVAL: int := 22

  type u32 = n: nat | n < 0x1_0000_0000
  type u64 = n: nat | n < U64

  /** Flag words are sets of bit numbers. */
  type Flags = set<nat>

  const LOG_DIRTY_PAGES: nat := 0
  const READONLY: nat := 1
  const INVALID: nat := 16

  /** struct vmrun_memory_slot. */
  datatype Slot = Slot(id: nat, base: nat, npages: nat, flags: Flags, addr: nat)

  /** struct vmrun_userspace_memory_region. */
  datatype Region = Region(slot: u32, flags: Flags, gpa: u64, size: u64, addr: u64)

  // ---------------------------------------------------------------- the table as a value

  ghost predicate Sorted(s: seq<Slot>) {
    forall j, k | 0 <= j < k < |s| :: s[j].base >= s[k].base
  }

  /** The first `used` slots are the ones in use. */
  ghost predicate Packed(s: seq<Slot>, used: nat) {
    && used <= |s|
    && (forall j | 0 <= j < |s| :: s[j].npages > 0 <==> j < used)
    && (forall j | used <= j < |s| :: s[j].base == 0)
  }

  /** Leaving out place `i` and id `id`, the index is the inverse of the ids. */
  ghost predicate Inverse(s: seq<Slot>, index: seq<nat>, i: int, id: int) {
    && |index| == |s|
    && (forall j | 0 <= j < |s| && j != i :: s[j].id < |s| && s[j].id != id && index[s[j].id] == j)
    && (forall n | 0 <= n < |s| && n != id :: index[n] < |s| && index[n] != i && s[index[n]].id == n)
  }

  ghost predicate Table(s: seq<Slot>, index: seq<nat>, used: nat) {
    |s| == MEM_SLOTS_NUM && Sorted(s) && Packed(s, used) && Inverse(s, index, -1, -1)
  }

  /** The other ids name the same slots in both tables. */
  ghost predicate SameElsewhere(s: seq<Slot>, index: seq<nat>, s0: seq<Slot>, index0: seq<nat>, id: nat) {
    && |s| == |s0| == |index| == |index0|
    && forall n | 0 <= n < |s| && n != id :: index[n] < |s| && index0[n] < |s| && s[index[n]] == s0[index0[n]]
  }

  /** Moving the slot at `k` into the hole at `i` moves the hole to `k`. */
  lemma MoveHole(s: seq<Slot>, index: seq<nat>, i: nat, k: nat, id: nat, s0: seq<Slot>, index0: seq<nat>)
    requires i < |s| && k < |s| && k != i && id < |s| && Inverse(s, index, i, id)
    requires SameElsewhere(s, index, s0, index0, id)
    ensures Inverse(s[i := s[k]], index[s[k].id := i], k, id)
    ensures SameElsewhere(s[i := s[k]], index[s[k].id := i], s0, index0, id)
    ensures (k == i + 1 || i == k + 1) ==> Without(s[i := s[k]], k) == Without(s, i)
  {
    var t := s[i := s[k]];
    if k == i + 1 || i == k + 1 {
      assert forall j | 0 <= j < |s| - 1 :: Without(t, k)[j] == Without(s, i)[j];
    }
  }

  lemma FillHole(s: seq<Slot>, index: seq<nat>, i: nat, slot: Slot, s0: seq<Slot>, index0: seq<nat>)
    requires i < |s| && slot.id < |s| && Inverse(s, index, i, slot.id)
    requires SameElsewhere(s, index, s0, index0, slot.id)
    ensures Inverse(s[i := slot], index[slot.id := i], -1, -1)
    ensures SameElsewhere(s[i := slot], index[slot.id := i], s0, index0, slot.id)
    ensures Without(s[i := slot], i) == Without(s, i)
  {
  }

  /** A table in the middle of an update: the slot of `id` has been taken out of `i0`, and place `i` is free. */
  ghost predicate Hole(s: seq<Slot>, index: seq<nat>, i: nat, id: nat, s0: seq<Slot>, index0: seq<nat>, i0: nat) {
    && |s| == |s0| == MEM_SLOTS_NUM && i < MEM_SLOTS_NUM && i0 < MEM_SLOTS_NUM && id < MEM_SLOTS_NUM
    && Inverse(s, index, i, id)
    && SameElsewhere(s, index, s0, index0, id)
    && Without(s, i) == Without(s0, i0)
  }

  lemma OpenHole(s: seq<Slot>, index: seq<nat>, used: nat, id: nat)
    requires Table(s, index, used) && id < MEM_SLOTS_NUM
    ensures index[id] < MEM_SLOTS_NUM && s[index[id]].id == id
    ensures Hole(s, index, index[id], id, s, index, index[id])
  {
  }

  lemma HoleMoves(s: seq<Slot>, index: seq<nat>, i: nat, k: nat, id: nat, s0: seq<Slot>, index0: seq<nat>, i0: nat)
    requires Hole(s, index, i, id, s0, index0, i0) && k < MEM_SLOTS_NUM && (k == i + 1 || i == k + 1)
    ensures s[k].id < MEM_SLOTS_NUM == |index| && s[k] == Without(s0, i0)[if k < i then k else i]
    ensures Hole(s[i := s[k]], index[s[k].id := i], k, id, s0, index0, i0)
  {
    assert Without(s, i)[if k < i then k else i] == s[k];
    MoveHole(s, index, i, k, id, s0, index0);
  }

  /** Where the hole must be for `slot`: everything before it lies higher, nothing from it on does. */
  ghost predicate Place(r: seq<Slot>, p: nat, slot: Slot) {
    && p <= |r|
    && (forall j | 0 <= j < p :: r[j].base >= slot.base)
    && (forall j | p <= j < |r| :: r[j].base <= slot.base)
    && (slot.npages > 0 ==> forall j | 0 <= j < p :: r[j].base > slot.base)
    && (slot.npages == 0 ==> forall j | p <= j < |r| :: r[j].npages == 0)
  }

  lemma InsertedSorted(s: seq<Slot>, p: nat, slot: Slot)
    requires p < |s| && s[p] == slot
    requires Sorted(Without(s, p)) && Place(Without(s, p), p, slot)
    ensures Sorted(s)
  {
    var r := Without(s, p);
    forall j, k | 0 <= j < k < |s|
      ensures s[j].base >= s[k].base
    {
      if j == p {
        assert r[k - 1] == s[k];
      } else if k == p {
        assert r[j] == s[j];
      } else {
        assert s[j] == r[if j < p then j else j - 1] && s[k] == r[if k < p then k else k - 1];
      }
    }
  }

  lemma InsertedPacked(s: seq<Slot>, p: nat, slot: Slot, used: nat)
    requires p < |s| && s[p] == slot && (slot.npages == 0 ==> slot.base == 0)
    requires Packed(Without(s, p), used) && Place(Without(s, p), p, slot)
    ensures Packed(s, if slot.npages > 0 then used + 1 else used)
  {
    var r := Without(s, p);
    assert used < p ==> r[used].base == 0;
    assert p < used ==> r[p].npages > 0;
    forall j | 0 <= j < |s| && j != p
      ensures s[j] == r[if j < p then j else j - 1]
    {
    }
  }

  lemma Removed(s: seq<Slot>, i: nat, used: nat)
    requires Sorted(s) && Packed(s, used) && i < |s|
    ensures s[i].npages > 0 <==> i < used
    ensures Sorted(Without(s, i)) && Packed(Without(s, i), if s[i].npages > 0 then used - 1 else used)
  {
  }

  /** Past the place where the first loop stops, nothing lies higher than the new slot. */
  lemma Below(r: seq<Slot>, used: nat, slot: Slot, i: nat)
    requires Sorted(r) && Packed(r, used)
    requires i < |r| ==> r[i].base < slot.base || r[i].npages == 0
    ensures forall j | i <= j < |r| :: r[j].base <= slot.base
  {
    forall j | i <= j < |r|
      ensures r[j].base <= slot.base
    {
      assert j == i || r[i].base >= r[j].base;
    }
  }

  lemma Above(r: seq<Slot>, slot: Slot, i: nat)
    requires Sorted(r) && i <= |r| && slot.npages > 0
    requires forall j | i <= j < |r| :: r[j].base <= slot.base
    requires 0 < i ==> slot.base < r[i - 1].base
    ensures Place(r, i, slot)
  {
    forall j | 0 <= j < i
      ensures r[j].base > slot.base
    {
      assert j == i - 1 || r[j].base >= r[i - 1].base;
    }
  }

  lemma Emptied(r: seq<Slot>, used: nat, slot: Slot, i: nat, i0: nat)
    requires Packed(r, used) && i <= |r| && slot.npages == slot.base == 0
    requires i0 <= i && forall j | i0 <= j < i :: r[j].npages > 0
    requires i < |r| ==> r[i].base < slot.base || r[i].npages == 0
    ensures Place(r, i, slot)
    ensures i0 <= used ==> i == used
  {
    assert i < |r| ==> used <= i;
    if i0 < i {
      assert r[i - 1].npages > 0;
    }
  }

  lemma Filled(s: seq<Slot>, index: seq<nat>, i: nat, slot: Slot, s0: seq<Slot>, index0: seq<nat>, i0: nat, used: nat)
    requires Hole(s, index, i, slot.id, s0, index0, i0) && Sorted(s0) && Packed(s0, used)
    requires Place(Without(s0, i0), i, slot) && (slot.npages == 0 ==> slot.base == 0)
    ensures var t, x := s[i := slot], index[slot.id := i];
            && SameElsewhere(t, x, s0, index0, slot.id) && Without(t, i) == Without(s0, i0)
            && Table(t, x, used + (if slot.npages > 0 then 1 else 0) - (if s0[i0].npages > 0 then 1 else 0))
  {
    var t := s[i := slot];
    Removed(s0, i0, used);
    FillHole(s, index, i, slot, s0, index0);
    InsertedSorted(t, i, slot);
    InsertedPacked(t, i, slot, if s0[i0].npages > 0 then used - 1 else used);
  }

  // ---------------------------------------------------------------- the table in place

  /** struct vmrun_memslots. */
  class MemSlotTable {
    var generation: u64
    const mslots: array<Slot>
    const index: array<nat>
    var used: nat

    ghost predicate Valid()
      reads this, mslots, index
    {
      && mslots.Length == index.Length == MEM_SLOTS_NUM
      && Table(mslots[..], index[..], used)
    }

    /** vmrun_alloc_memslots. */
    constructor ()
      ensures Valid() && fresh(mslots) && fresh(index) && generation == 0 && used == 0
    {
      generation, used := 0, 0;
      mslots := new Slot[MEM_SLOTS_NUM](i => Slot(i, 0, 0, {}, 0));
      index := new nat[MEM_SLOTS_NUM](i => i);
    }

    /** The copy that __vmrun_set_memory_region makes before it changes anything. */
    constructor Copy(from: MemSlotTable)
      requires from.Valid()
      ensures Valid() && fresh(mslots) && fresh(index)
      ensures generation == from.generation && mslots[..] == from.mslots[..] && index[..] == from.index[..]
      ensures used == from.used
    {
      generation, used := from.generation, from.used;
      var s, x := from.mslots[..], from.index[..];
      mslots := new Slot[MEM_SLOTS_NUM](i requires 0 <= i < |s| => s[i]);
      index := new nat[MEM_SLOTS_NUM](i requires 0 <= i < |x| => x[i]);
      new;
      assert mslots[..] == s && index[..] == x;
    }

    /** id_to_memslot. */
    method IdToMemslot(id: nat) returns (slot: Slot)
      requires Valid() && id < MEM_SLOTS_NUM
      ensures index[id] < MEM_SLOTS_NUM && slot == mslots[index[id]] && slot.id == id
    {
      slot := mslots[index[id]];
    }

    /** The table that is published while a slot is moved or deleted: only the flag of that slot differs. */
    method MarkInvalid(id: nat)
      requires Valid() && id < MEM_SLOTS_NUM
      modifies mslots
      ensures Valid() && INVALID in mslots[index[id]].flags
      ensures SameElsewhere(mslots[..], index[..], old(mslots[..]), index[..], id)
      ensures var was := old(mslots[index[id]]); mslots[index[id]] == was.(flags := was.flags + {INVALID})
    {
      ghost var s := mslots[..];
      var i := index[id];
      mslots[i] := mslots[i].(flags := mslots[i].flags + {INVALID});
      assert mslots[..] == s[i := mslots[i]];
    }

    /** mslots[i] = mslots[k], with the index brought up to date. */
    method Shift(i: nat, k: nat)
      requires mslots.Length == index.Length && i < mslots.Length && k < mslots.Length && mslots[k].id < index.Length
      modifies mslots, index
      ensures mslots[..] == old(mslots[..])[i := old(mslots[k])]
      ensures index[..] == old(index[..])[old(mslots[k]).id := i]
    {
      mslots[i] := mslots[k];
      index[mslots[i].id] := i;
    }

    /** The first loop of vmrun_update_memslots. */
    method PushDown(slot: Slot, i0: nat, ghost s0: seq<Slot>, ghost index0: seq<nat>) returns (i: nat)
      requires mslots.Length == index.Length == MEM_SLOTS_NUM
      requires Hole(mslots[..], index[..], i0, slot.id, s0, index0, i0)
      modifies mslots, index
      ensures Hole(mslots[..], index[..], i, slot.id, s0, index0, i0) && i0 <= i < MEM_SLOTS_NUM
      ensures forall j | i0 <= j < i :: Without(s0, i0)[j].npages > 0
      ensures i < MEM_SLOTS_NUM - 1 ==> Without(s0, i0)[i].base < slot.base || Without(s0, i0)[i].npages == 0
    {
      hide Inverse, SameElsewhere;
      i := i0;
      ghost var r := Without(s0, i0);
      while i < MEM_SLOTS_NUM - 1 && slot.base <= mslots[i + 1].base
        invariant Hole(mslots[..], index[..], i, slot.id, s0, index0, i0) && i0 <= i
        invariant forall j | i0 <= j < i :: r[j].npages > 0
      {
        HoleMoves(mslots[..], index[..], i, i + 1, slot.id, s0, index0, i0);
        if mslots[i + 1].npages == 0 {
          break;
        }
        Shift(i, i + 1);
        i := i + 1;
      }
      if i < MEM_SLOTS_NUM - 1 {
        HoleMoves(mslots[..], index[..], i, i + 1, slot.id, s0, index0, i0);
      }
    }

    /** The second loop. */
    method PullUp(slot: Slot, start: nat, ghost i0: nat, ghost s0: seq<Slot>, ghost index0: seq<nat>) returns (i: nat)
      requires mslots.Length == index.Length == MEM_SLOTS_NUM
      requires Hole(mslots[..], index[..], start, slot.id, s0, index0, i0)
      requires forall j | start <= j < MEM_SLOTS_NUM - 1 :: Without(s0, i0)[j].base <= slot.base
      modifies mslots, index
      ensures Hole(mslots[..], index[..], i, slot.id, s0, index0, i0) && i < MEM_SLOTS_NUM
      ensures forall j | i <= j < MEM_SLOTS_NUM - 1 :: Without(s0, i0)[j].base <= slot.base
      ensures 0 < i ==> slot.base < Without(s0, i0)[i - 1].base
    {
      hide Inverse, SameElsewhere;
      i := start;
      ghost var r := Without(s0, i0);
      while i > 0 && slot.base >= mslots[i - 1].base
        invariant Hole(mslots[..], index[..], i, slot.id, s0, index0, i0)
        invariant forall j | i <= j < MEM_SLOTS_NUM - 1 :: r[j].base <= slot.base
      {
        HoleMoves(mslots[..], index[..], i, i - 1, slot.id, s0, index0, i0);
        Shift(i, i - 1);
        i := i - 1;
      }
      if 0 < i {
        HoleMoves(mslots[..], index[..], i, i - 1, slot.id, s0, index0, i0);
      }
    }

    /** vmrun_update_memslots: only the slot of this id changes, the others keep their order. */
    method Update(slot: Slot)
      requires Valid() && slot.id < MEM_SLOTS_NUM && (slot.npages == 0 ==> slot.base == 0)
      modifies this`used, mslots, index
      ensures Valid() && index[slot.id] < MEM_SLOTS_NUM && mslots[index[slot.id]] == slot
      ensures SameElsewhere(mslots[..], index[..], old(mslots[..]), old(index[..]), slot.id)
      ensures Without(mslots[..], index[slot.id]) == old(Without(mslots[..], index[slot.id]))
      ensures slot.npages == 0 && old(mslots[index[slot.id]].npages) > 0 ==> index[slot.id] == used
    {
      hide Sorted, Packed, Inverse, SameElsewhere, Place, Hole;
      ghost var s0, index0, used0 := mslots[..], index[..], used;
      OpenHole(s0, index0, used0, slot.id);
      var i := index[slot.id];
      ghost var i0 := i;
      Removed(s0, i0, used0);
      if slot.npages == 0 {
        if mslots[i].npages != 0 {
          used := used - 1;
        }
      } else if mslots[i].npages == 0 {
        used := used + 1;
      }
      i := PushDown(slot, i, s0, index0);
      ghost var r := Without(s0, i0);
      if slot.npages != 0 {
        Below(r, if s0[i0].npages > 0 then used0 - 1 else used0, slot, i);
        i := PullUp(slot, i, i0, s0, index0);
        Above(r, slot, i);
      } else {
        Emptied(r, if s0[i0].npages > 0 then used0 - 1 else used0, slot, i, i0);
      }
      Filled(mslots[..], index[..], i, slot, s0, index0, i0, used0);
      mslots[i] := slot;
      index[mslots[i].id] := i;
    }
  }
}
