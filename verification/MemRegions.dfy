/** Creating, moving, re-flagging and deleting memory regions: __vmrun_set_memory_region over one address space. */
module MemRegions {
  import opened Constants
  import opened MemSlots

  predicate Disjoint(a: Slot, b: Slot) {
    a.base + a.npages <= b.base || b.base + b.npages <= a.base
  }

  predicate UserSlot(s: Slot) {
    s.npages > 0 && s.id < USER_MEM_SLOTS
  }

  /** No two user slots in use share a frame. */
  ghost predicate UserDisjoint(s: seq<Slot>) {
    forall j, k | 0 <= j < k < |s| && UserSlot(s[j]) && UserSlot(s[k]) :: Disjoint(s[j], s[k])
  }

  /** Another user slot in use shares a frame with the range. */
  predicate Clashes(s: Slot, base: nat, npages: nat, id: nat) {
    UserSlot(s) && s.id != id && !(base + npages <= s.base || base >= s.base + s.npages)
  }

  ghost predicate Free(s: seq<Slot>, base: nat, npages: nat, id: nat) {
    forall j | 0 <= j < |s| :: !Clashes(s[j], base, npages, id)
  }

  function RegionId(mem: Region): nat {
    mem.slot % 0x10000
  }

  function RegionSpace(mem: Region): nat {
    mem.slot / 0x10000
  }

  function RegionBase(mem: Region): nat {
    mem.gpa / PAGE_SIZE
  }

  function RegionPages(mem: Region): nat {
    mem.size / PAGE_SIZE
  }

  /** What is asked of the request alone. */
  predicate WellFormed(mem: Region, accessOk: bool, readonlyMem: bool) {
    && mem.flags <= (if readonlyMem then {LOG_DIRTY_PAGES, READONLY} else {LOG_DIRTY_PAGES})
    && mem.size % PAGE_SIZE == 0 && mem.gpa % PAGE_SIZE == 0
    && (RegionId(mem) < USER_MEM_SLOTS ==> mem.addr % PAGE_SIZE == 0 && accessOk)
    && RegionSpace(mem) < ADDRESS_SPACE_NUM && RegionId(mem) < MEM_SLOTS_NUM
    && mem.gpa + mem.size < U64 && RegionPages(mem) <= MEM_MAX_NR_PAGES
  }

  /** What is asked of the slot that the id names now: an empty one cannot be deleted, and one in use keeps its size,
    its address and whether it is read-only. */
  predicate Fits(mem: Region, was: Slot) {
    if RegionPages(mem) == 0 then was.npages > 0
    else
      was.npages > 0 ==>
        && mem.addr == was.addr && RegionPages(mem) == was.npages
        && (READONLY in mem.flags <==> READONLY in was.flags)
  }

  /** The slot that a successful call leaves behind. */
  function Asked(mem: Region, was: Slot): Slot {
    if RegionPages(mem) == 0 then Slot(RegionId(mem), 0, 0, {}, was.addr)
    else Slot(RegionId(mem), RegionBase(mem), RegionPages(mem), mem.flags, mem.addr)
  }

  /** The pages of the slot are somewhere they were not before. */
  predicate Moves(mem: Region, was: Slot) {
    RegionPages(mem) > 0 && (was.npages == 0 || RegionBase(mem) != was.base)
  }

  /** The old pages of the slot go away. */
  predicate Leaves(mem: Region, was: Slot) {
    was.npages > 0 && (RegionPages(mem) == 0 || RegionBase(mem) != was.base)
  }

  // ---------------------------------------------------------------- disjointness

  /** The user slots stay disjoint when the changed one is empty, has not moved, or clashes with no other. The scan
    looks only at the slots before the first empty one, which are all that are in use. */
  lemma StaysDisjoint(s: seq<Slot>, index: seq<nat>, s0: seq<Slot>, index0: seq<nat>, slot: Slot)
    requires Inverse(s, index, -1, -1) && Inverse(s0, index0, -1, -1) && SameElsewhere(s, index, s0, index0, slot.id)
    requires slot.id < |s| && s[index[slot.id]] == slot && UserDisjoint(s0)
    requires var was := s0[index0[slot.id]];
             || slot.npages == 0 || (slot.base == was.base && slot.npages == was.npages)
             || Free(s0, slot.base, slot.npages, slot.id)
    ensures UserDisjoint(s)
  {
    forall j, k | 0 <= j < k < |s| && UserSlot(s[j]) && UserSlot(s[k])
      ensures Disjoint(s[j], s[k])
    {
      assert index[s[j].id] == j && index[s[k].id] == k;
      var a, b := index0[s[j].id], index0[s[k].id];
      assert s0[a].id == s[j].id && s0[b].id == s[k].id;
      assert s[j].id != slot.id ==> s[j] == s0[a];
      assert s[k].id != slot.id ==> s[k] == s0[b];
      if s[j].id == slot.id {
        assert s[j] == slot;
        assert Free(s0, slot.base, slot.npages, slot.id) ==> !Clashes(s0[b], slot.base, slot.npages, slot.id);
      } else if s[k].id == slot.id {
        assert s[k] == slot;
        assert Free(s0, slot.base, slot.npages, slot.id) ==> !Clashes(s0[a], slot.base, slot.npages, slot.id);
      }
      assert a < b ==> UserSlot(s0[a]) && UserSlot(s0[b]) ==> Disjoint(s0[a], s0[b]);
      assert b < a ==> UserSlot(s0[a]) && UserSlot(s0[b]) ==> Disjoint(s0[b], s0[a]);
    }
  }

  // ---------------------------------------------------------------- the operations

  /** enum vmrun_mr_change. */
  datatype Change = Create | Delete | Move | FlagsOnly

  /** The generation after one installation. */
  function NextGen(g: u64): u64 {
    (g + 2 * ADDRESS_SPACE_NUM) % U64
  }

  /** What one call does to the table of an address space. */
  ghost predicate Applied(s: seq<Slot>, index: seq<nat>, s0: seq<Slot>, index0: seq<nat>, slot: Slot) {
    && slot.id < |index| && index[slot.id] < |s| && s[index[slot.id]] == slot
    && SameElsewhere(s, index, s0, index0, slot.id)
  }

  lemma Unchanged(s: seq<Slot>, index: seq<nat>, used: nat, id: nat)
    requires Table(s, index, used) && id < MEM_SLOTS_NUM
    ensures index[id] < MEM_SLOTS_NUM && s[index[id]].id == id && Applied(s, index, s, index, s[index[id]])
  {
  }

  class AddressSpace {
    const asId: nat
    var memslots: MemSlotTable

    ghost predicate Valid()
      reads this, memslots, memslots.mslots, memslots.index
    {
      memslots.Valid() && UserDisjoint(memslots.mslots[..])
    }

    ghost function Named(id: nat): Slot
      requires Valid() && id < MEM_SLOTS_NUM
      reads this, memslots, memslots.mslots, memslots.index
    {
      memslots.mslots[memslots.index[id]]
    }

    constructor (asId: nat)
      ensures Valid() && this.asId == asId
      ensures fresh(memslots) && fresh(memslots.mslots) && fresh(memslots.index)
    {
      this.asId := asId;
      memslots := new MemSlotTable();
      new;
      assert forall j | 0 <= j < MEM_SLOTS_NUM :: memslots.mslots[j].npages == 0;
    }

    /** vmrun_install_new_memslots: while readers may still use the old table the new one has an odd generation. */
    method Install(slots: MemSlotTable) returns (before: MemSlotTable)
      requires slots != memslots && memslots.generation < U64
      modifies this`memslots, slots`generation
      ensures memslots == slots && before == old(memslots)
      ensures slots.generation == NextGen(old(memslots.generation))
    {
      before := memslots;
      slots.generation := (before.generation + 1) % U64;
      memslots := slots;
      slots.generation := (slots.generation + (ADDRESS_SPACE_NUM * 2 - 1)) % U64;
    }

    /** The scan of __vmrun_set_memory_region. */
    method Overlaps(base: nat, npages: nat, id: nat) returns (hit: bool)
      requires Valid()
      ensures hit <==> !Free(memslots.mslots[..], base, npages, id)
    {
      hide Sorted, Inverse, UserDisjoint;
      var m := memslots.mslots;
      var j := 0;
      while j < MEM_SLOTS_NUM && m[j].npages != 0
        invariant j <= MEM_SLOTS_NUM && forall k | 0 <= k < j :: !Clashes(m[k], base, npages, id)
      {
        var slot := m[j];
        if !(slot.id >= USER_MEM_SLOTS || slot.id == id) {
          if !(base + npages <= slot.base || base >= slot.base + slot.npages) {
            assert Clashes(m[..][j], base, npages, id);
            return true;
          }
        }
        j := j + 1;
      }
      return false;
    }

    /** The part of __vmrun_set_memory_region that changes something. The table that is updated is never the one that
      readers can see: it is a private copy, or the old table after a copy of it has been published. */
    method Commit(slot: Slot, leaves: bool)
      requires Valid() && slot.id < MEM_SLOTS_NUM && (slot.npages == 0 ==> slot.base == 0)
      requires var was := Named(slot.id);
               || slot.npages == 0 || (slot.base == was.base && slot.npages == was.npages)
               || Free(memslots.mslots[..], slot.base, slot.npages, slot.id)
      modifies this`memslots, memslots, memslots.mslots, memslots.index
      ensures Valid()
      ensures Applied(memslots.mslots[..], memslots.index[..], old(memslots.mslots[..]), old(memslots.index[..]), slot)
      ensures var g := NextGen(old(memslots.generation)); memslots.generation == if leaves then NextGen(g) else g
    {
      hide Sorted, Packed, Inverse, SameElsewhere, UserDisjoint, Free;
      ghost var s0, index0 := memslots.mslots[..], memslots.index[..];
      Unchanged(s0, index0, memslots.used, slot.id);
      var slots := new MemSlotTable.Copy(memslots);
      if leaves {
        slots.MarkInvalid(slot.id);
        slots := Install(slots);
      }
      slots.Update(slot);
      StaysDisjoint(slots.mslots[..], slots.index[..], s0, index0, slot);
      var before := Install(slots);
    }

    /** __vmrun_set_memory_region. */
    method SetRegion(mem: Region, accessOk: bool, readonlyMem: bool, createOk: bool, copyOk: bool) returns (r: int)
      requires Valid() && (RegionSpace(mem) < ADDRESS_SPACE_NUM ==> RegionSpace(mem) == asId)
      modifies this`memslots, memslots, memslots.mslots, memslots.index
      ensures Valid() && r in {0, -EINVAL, -EEXIST, -ENOMEM}
      ensures r != -EINVAL <==>
              WellFormed(mem, accessOk, readonlyMem) && old(Fits(mem, Named(RegionId(mem))))
      ensures r == -EEXIST <==>
              && r != -EINVAL && old(Moves(mem, Named(RegionId(mem))))
              && old(!Free(memslots.mslots[..], RegionBase(mem), RegionPages(mem), RegionId(mem)))
      ensures r == -ENOMEM <==>
              && r != -EINVAL && r != -EEXIST
              && var was := old(Named(RegionId(mem)));
                 Asked(mem, was) != was && !(copyOk && (was.npages == 0 ==> createOk))
      ensures r != 0 || old(Asked(mem, Named(RegionId(mem))) == Named(RegionId(mem))) ==>
                && memslots == old(memslots) && memslots.generation == old(memslots.generation)
                && memslots.mslots[..] == old(memslots.mslots[..]) && memslots.index[..] == old(memslots.index[..])
      ensures r == 0 && old(Asked(mem, Named(RegionId(mem))) != Named(RegionId(mem))) ==>
                var g := NextGen(old(memslots.generation));
                memslots.generation == if old(Leaves(mem, Named(RegionId(mem)))) then NextGen(g) else g
      ensures r == 0 ==>
                Applied(memslots.mslots[..], memslots.index[..], old(memslots.mslots[..]), old(memslots.index[..]),
                        old(Asked(mem, Named(RegionId(mem)))))
    {
      hide Sorted, Packed, Inverse, SameElsewhere, UserDisjoint, Free;
      var id := mem.slot % 0x10000;
      if !(mem.flags <= if readonlyMem then {LOG_DIRTY_PAGES, READONLY} else {LOG_DIRTY_PAGES}) {
        return -EINVAL;
      }
      if mem.size % PAGE_SIZE != 0 || mem.gpa % PAGE_SIZE != 0 {
        return -EINVAL;
      }
      if id < USER_MEM_SLOTS && (mem.addr % PAGE_SIZE != 0 || !accessOk) {
        return -EINVAL;
      }
      if mem.slot / 0x10000 >= ADDRESS_SPACE_NUM || id >= MEM_SLOTS_NUM {
        return -EINVAL;
      }
      if (mem.gpa + mem.size) % U64 < mem.gpa {
        return -EINVAL;
      }
      var was := memslots.IdToMemslot(id);
      Unchanged(memslots.mslots[..], memslots.index[..], memslots.used, id);
      var base, npages := mem.gpa / PAGE_SIZE, mem.size / PAGE_SIZE;
      if npages > MEM_MAX_NR_PAGES {
        return -EINVAL;
      }
      var slot := was.(id := id, base := base, npages := npages, flags := mem.flags);
      var change;
      if npages != 0 {
        if was.npages == 0 {
          change := Create;
        } else {
          if mem.addr != was.addr || npages != was.npages || (READONLY in slot.flags) != (READONLY in was.flags) {
            return -EINVAL;
          }
          if base != was.base {
            change := Move;
          } else if slot.flags != was.flags {
            change := FlagsOnly;
          } else {
            return 0;
          }
        }
      } else {
        if was.npages == 0 {
          return -EINVAL;
        }
        change := Delete;
        slot := slot.(base := 0, flags := {});
      }
      if change.Create? || change.Move? {
        var hit := Overlaps(base, npages, id);
        if hit {
          return -EEXIST;
        }
      }
      if change.Create? {
        slot := slot.(addr := mem.addr);
        if !createOk {
          return -ENOMEM;
        }
      }
      if !copyOk {
        return -ENOMEM;
      }
      Commit(slot, change.Delete? || change.Move?);
      return 0;
    }
  }
}
