/** The predicates and transformations of a last-level shadow entry.

  A 64-bit word is the set of the positions of its one-bits, so `a & b` is `a * b`,
  `a | b` is `a + b` and `a & ~b` is `a - b`. */
module SpteBits {
  type Word = set<nat>

  const PT_WRITABLE: nat := 1
  const SPTE_HOST_WRITEABLE: nat := 10
  const SPTE_MMU_WRITEABLE: nat := 11
  const SAVED_SHIFT: nat := 52 // shadow_acc_track_saved_bits_shift

  /** The masks configured by vmrun_mmu_set_mask_ptes and vmrun_mmu_set_mmio_spte_mask, and the bits that the address of
    a page frame can have. */
  datatype Masks = Masks(accessed: Word, dirty: Word, accTrack: Word, special: nat, mmioMask: Word, mmioValue: Word,
                         frame: Word)

  /** Bits with a fixed meaning that no configurable mask may use: the software bits, the frame
    number and the place where access tracking saves the R and X bits (0 and 2). */
  predicate Reserved(b: nat) {
    b == SPTE_HOST_WRITEABLE || b == SPTE_MMU_WRITEABLE || 12 <= b <= 51 || b == SAVED_SHIFT || b == SAVED_SHIFT + 2
  }

  /** What the two functions insist on, that A and D are single bits, and that the masks do not overlap. */
  ghost predicate Configured(m: Masks) {
    && (m.dirty == {} <==> m.accessed == {})
    && (m.accessed == {} ==> m.accTrack != {})
    && (forall a, b | a in m.accessed && b in m.accessed :: a == b)
    && (forall a, b | a in m.dirty && b in m.dirty :: a == b)
    && m.special in m.mmioValue && m.mmioValue <= m.mmioMask
    && m.accessed !! m.dirty && m.accessed !! m.accTrack && m.dirty !! m.accTrack
    && m.special !in m.accessed + m.dirty + m.accTrack + {0, PT_WRITABLE, 2}
    && (forall b | b in m.accessed + m.dirty :: b !in {0, PT_WRITABLE, 2})
    && (forall b | b in m.accessed + m.dirty + m.accTrack + {m.special} :: !Reserved(b))
  }

  predicate IsMmio(m: Masks, s: Word) {
    s * m.mmioMask == m.mmioValue
  }

  /** The bits that a fast fault or a write protection may change. */
  function Changeable(m: Masks): Word {
    m.accTrack + {0, PT_WRITABLE, 2, SPTE_MMU_WRITEABLE, SAVED_SHIFT, SAVED_SHIFT + 2}
  }

  /** MMIO entries cannot be mistaken for mappings, nor come out of them: their pattern does not look at bits that are
    changed in place, or has an address bit that no page frame has. */
  predicate Telling(m: Masks) {
    m.mmioMask !! Changeable(m) || !(PfnBits(m.mmioValue) <= m.frame)
  }

  /** A change of such bits does not turn a mapping into an MMIO entry. */
  lemma StaysPresent(m: Masks, s: Word, t: Word)
    requires Configured(m) && Telling(m) && Present(m, s) && PfnBits(s) <= m.frame
    requires t != {} && s - Changeable(m) == t - Changeable(m) && PfnBits(t) == PfnBits(s)
    ensures Present(m, t)
  {
    if m.mmioMask !! Changeable(m) {
      assert t * m.mmioMask == s * m.mmioMask by {
        forall b | b in m.mmioMask
          ensures b in s <==> b in t
        {
          assert b in s - Changeable(m) <==> b in t - Changeable(m);
        }
      }
    } else {
      var b :| b in PfnBits(m.mmioValue) && b !in m.frame;
      assert b in m.mmioMask && b !in PfnBits(t);
      assert b !in t * m.mmioMask;
    }
  }

  /** is_shadow_present_pte. */
  predicate Present(m: Masks, s: Word) {
    s != {} && !IsMmio(m, s)
  }

  predicate AdEnabled(m: Masks, s: Word) {
    m.special !in s
  }

  predicate IsAccessTrack(m: Masks, s: Word) {
    !AdEnabled(m, s) && s !! m.accTrack
  }

  predicate IsWritable(s: Word) {
    PT_WRITABLE in s
  }

  /** spte_can_locklessly_be_made_writable. */
  predicate Lockless(s: Word) {
    SPTE_HOST_WRITEABLE in s && SPTE_MMU_WRITEABLE in s
  }

  predicate HasVolatileBits(m: Masks, s: Word) {
    && Present(m, s)
    && (|| Lockless(s)
        || IsAccessTrack(m, s)
        || (AdEnabled(m, s) && (s !! m.accessed || (IsWritable(s) && s !! m.dirty))))
  }

  predicate IsAccessed(m: Masks, s: Word) {
    if AdEnabled(m, s) && m.accessed != {} then !(s !! m.accessed) else !IsAccessTrack(m, s)
  }

  predicate IsDirty(m: Masks, s: Word) {
    if AdEnabled(m, s) && m.dirty != {} then !(s !! m.dirty) else IsWritable(s)
  }

  /** The bits of spte_to_pfn. */
  function PfnBits(s: Word): Word {
    set b | b in s && 12 <= b <= 51
  }

  function SavedBits(s: Word): Word {
    (if SAVED_SHIFT in s then {0} else {}) + (if SAVED_SHIFT + 2 in s then {2} else {})
  }

  function ToSaved(s: Word): Word {
    (if 0 in s then {SAVED_SHIFT} else {}) + (if 2 in s then {SAVED_SHIFT + 2} else {})
  }

  function MarkForAccessTrack(m: Masks, s: Word): Word {
    if AdEnabled(m, s) then s - m.accessed
    else if IsAccessTrack(m, s) then s
    else (s + ToSaved(s)) - m.accTrack
  }

  function RestoreAccessTrack(m: Masks, s: Word): Word {
    (s - m.accTrack - {SAVED_SHIFT, SAVED_SHIFT + 2}) + SavedBits(s)
  }

  /** The entry fast_page_fault wants to install over `s`. */
  function FastFixed(m: Masks, s: Word, write: bool): Word {
    var r := if IsAccessTrack(m, s) then RestoreAccessTrack(m, s) else s;
    if write && Lockless(s) then r + {PT_WRITABLE} else r
  }

  /** The hardware walker setting the accessed bit, and the dirty bit on a write. */
  function Walked(m: Masks, s: Word, write: bool): Word {
    if !AdEnabled(m, s) then s else if write then s + m.accessed + m.dirty else s + m.accessed
  }

  /** Marking for access tracking and restoring gives the entry back without its tracked write permission exactly
    when the bits that hold the saved permissions were free. The tracked bits must be the permissions. */
  lemma AccessTrackRoundTrip(m: Masks, s: Word)
    requires Configured(m) && !AdEnabled(m, s) && !IsAccessTrack(m, s)
    requires {0, 2} <= m.accTrack <= {0, PT_WRITABLE, 2}
    ensures IsAccessTrack(m, MarkForAccessTrack(m, s))
    ensures RestoreAccessTrack(m, MarkForAccessTrack(m, s)) == s - (m.accTrack * {PT_WRITABLE})
            <==> SAVED_SHIFT !in s && SAVED_SHIFT + 2 !in s
  {
    var t := MarkForAccessTrack(m, s);
    var r := RestoreAccessTrack(m, t);
    assert m.special in t;
    assert SAVED_SHIFT in t <==> 0 in s || SAVED_SHIFT in s;
    assert SAVED_SHIFT + 2 in t <==> 2 in s || SAVED_SHIFT + 2 in s;
    assert SAVED_SHIFT !in r && SAVED_SHIFT + 2 !in r;
    if SAVED_SHIFT !in s && SAVED_SHIFT + 2 !in s {
      assert r == s - (m.accTrack * {PT_WRITABLE});
    }
  }

  /** If no bit is volatile, neither the walker nor a fast fault changes the entry. */
  lemma NotVolatileIsStable(m: Masks, s: Word, write: bool)
    requires Configured(m) && (s == {} || Present(m, s)) && !HasVolatileBits(m, s)
    ensures s != {} && (write ==> IsWritable(s)) ==> Walked(m, s, write) == s
    ensures FastFixed(m, s, write) == s
  {}

  /** The walker keeps frame, writability and evidence, and records the access. */
  lemma WalkedKeeps(m: Masks, s: Word, write: bool)
    requires Configured(m) && Present(m, s) && !IsAccessTrack(m, s) && (write ==> IsWritable(s))
    ensures var t := Walked(m, s, write);
            && Present(m, t) && PfnBits(t) == PfnBits(s) && Lockless(t) == Lockless(s) && IsWritable(t) == IsWritable(s)
            && IsAccessed(m, t) && (write || IsDirty(m, s) ==> IsDirty(m, t))
  {
    var t := Walked(m, s, write);
    forall b | b in t && (Reserved(b) || b == PT_WRITABLE)
      ensures b in s
    {
      assert b !in m.accessed + m.dirty;
    }
    assert PfnBits(t) == PfnBits(s);
    assert Reserved(SPTE_HOST_WRITEABLE) && Reserved(SPTE_MMU_WRITEABLE);
  }

  /** A fast fault keeps frame and software bits and loses no evidence. */
  lemma FastFixedKeeps(m: Masks, s: Word, write: bool)
    requires Configured(m) && Present(m, s) && (IsWritable(s) ==> Lockless(s))
    ensures var t := FastFixed(m, s, write);
            && t != {} && PfnBits(t) == PfnBits(s) && Lockless(t) == Lockless(s) && (IsWritable(t) ==> Lockless(t))
            && (IsAccessed(m, s) ==> IsAccessed(m, t)) && (IsDirty(m, s) ==> IsDirty(m, t))
  {
    var t := FastFixed(m, s, write);
    assert Reserved(SAVED_SHIFT) && Reserved(SAVED_SHIFT + 2);
    assert m.special in t <==> m.special in s;
    assert AdEnabled(m, s) ==> s <= t;
    assert IsWritable(s) ==> IsWritable(t);
  }
}
