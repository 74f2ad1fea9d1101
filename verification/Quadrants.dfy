/** Guest writes to page tables: which shadow entries a write to a guest entry must drop. A 32-bit guest table has 1024
  four-byte entries and is shadowed by several pages of 512 entries, told apart by their quadrant. */
module Quadrants {
  import opened Constants
  import opened Division
  import opened ShadowState

  type Gva = n: nat | n < 0x1_0000_0000

  const PT32_ROOT_LEVEL: nat := 2

  /** A page of a 32-bit guest table has a level of 1 or 2. */
  predicate Guest32(level: nat) {
    level == 1 || level == PT32_ROOT_LEVEL
  }

  /** PT32_INDEX: the entry of the guest table that governs an address. */
  function GuestIndex(gaddr: Gva, level: nat): nat {
    if level == 1 then gaddr / 0x1000 % 1024 else gaddr / 0x40_0000 % 1024
  }

  /** PT64_INDEX: the entry of a table of eight-byte entries that governs an address, and that its walk uses. */
  function Index64(gaddr: nat, level: nat): nat {
    gaddr / (PAGE_SIZE * Span(level)) % 512
  }

  /** SHADOW_PT_INDEX: the entry of the shadow page that a walk for the address uses. */
  function ShadowIndex(gaddr: Gva, level: nat): nat {
    if level == 1 then gaddr / 0x1000 % 512 else gaddr / 0x20_0000 % 512
  }

  /** The quadrant that vmrun_mmu_get_page puts into the role of that page. */
  function Quadrant(gaddr: Gva, level: nat): nat {
    if level == 1 then gaddr / 0x20_0000 % 2 else gaddr / 0x4000_0000 % 4
  }

  /** A run of shadow entries. */
  datatype Sptes = NoSptes | Sptes(first: nat, count: nat)

  predicate Among(i: nat, s: Sptes) {
    s.Sptes? && s.first <= i < s.first + s.count
  }

  /** get_written_sptes for a write at the given offset in the guest page. */
  function WrittenSptes(level: nat, pae: bool, quadrant: nat, offset: nat): Sptes {
    if pae then Sptes(offset / 8, 1)
    else
      var doubled := offset * 2;
      var two := level == PT32_ROOT_LEVEL;
      var scaled := if two then (doubled - doubled % 8) * 2 else doubled;
      if scaled / PAGE_SIZE != quadrant then NoSptes
      else Sptes(scaled % PAGE_SIZE / 8, if two then 2 else 1)
  }

  // ---------------------------------------------------------------- digits of an address

  lemma Digits1(gaddr: nat)
    ensures gaddr / 0x20_0000 == gaddr / 0x1000 / 512
  {
    var g := gaddr / 0x1000;
    DivMod(gaddr, 0x20_0000, g / 512, 0x1000 * (g % 512) + gaddr % 0x1000);
  }

  lemma Digits2(gaddr: nat)
    ensures gaddr / 0x40_0000 == gaddr / 0x20_0000 / 2 && gaddr / 0x4000_0000 == gaddr / 0x20_0000 / 512
  {
    var g := gaddr / 0x20_0000;
    DivMod(gaddr, 0x40_0000, g / 2, 0x20_0000 * (g % 2) + gaddr % 0x20_0000);
    DivMod(gaddr, 0x4000_0000, g / 512, 0x20_0000 * (g % 512) + gaddr % 0x20_0000);
  }

  lemma Index1(h: nat, i: nat)
    requires i < 512
    ensures (512 * h + i) % 1024 == 512 * (h % 2) + i
  {
    DivMod(512 * h + i, 1024, h / 2, 512 * (h % 2) + i);
  }

  lemma Index2(h: nat, i: nat)
    requires i < 512
    ensures (512 * h + i) / 2 % 1024 == 256 * (h % 4) + i / 2
  {
    DivMod(512 * h + i, 2, 256 * h + i / 2, i % 2);
    DivMod(256 * h + i / 2, 1024, h / 4, 256 * (h % 4) + i / 2);
  }

  lemma Scaled1(offset: nat, q: nat, i: nat)
    requires offset / 4 == 512 * q + i && i < 512
    ensures offset * 2 / PAGE_SIZE == q && offset * 2 % PAGE_SIZE / 8 == i
  {
    var b := offset % 4;
    DivMod(offset * 2, PAGE_SIZE, q, 8 * i + 2 * b);
    DivMod(8 * i + 2 * b, 8, i, 2 * b);
  }

  lemma Scaled2(offset: nat, q: nat, h: nat)
    requires offset / 4 == 256 * q + h && h < 256
    ensures var scaled := (offset * 2 - offset * 2 % 8) * 2; scaled / PAGE_SIZE == q && scaled % PAGE_SIZE / 8 == 2 * h
  {
    var b := offset % 4;
    DivMod(offset * 2, 8, 256 * q + h, 2 * b);
    DivMod(PAGE_SIZE * q + 16 * h, PAGE_SIZE, q, 16 * h);
  }

  // ---------------------------------------------------------------- walks and writes

  /** The shadow entry that a walk uses is among those that any write inside the governing guest entry drops. */
  lemma WalkIsWritten(gaddr: Gva, level: nat, offset: nat)
    requires Guest32(level) && offset < PAGE_SIZE && GuestIndex(gaddr, level) == offset / 4
    ensures Among(ShadowIndex(gaddr, level), WrittenSptes(level, false, Quadrant(gaddr, level), offset))
  {
    if level == 1 {
      var g := gaddr / 0x1000;
      Digits1(gaddr);
      Index1(g / 512, g % 512);
      Scaled1(offset, g / 512 % 2, g % 512);
    } else {
      var g := gaddr / 0x20_0000;
      Digits2(gaddr);
      Index2(g / 512, g % 512);
      Scaled2(offset, g / 512 % 4, g % 512 / 2);
    }
  }

  /** No page of another quadrant matches. */
  lemma OtherQuadrant(gaddr: Gva, level: nat, offset: nat, quadrant: nat)
    requires Guest32(level) && offset < PAGE_SIZE && GuestIndex(gaddr, level) == offset / 4
    requires quadrant != Quadrant(gaddr, level)
    ensures WrittenSptes(level, false, quadrant, offset).NoSptes?
  {
    hide GuestIndex, Quadrant, ShadowIndex;
    WalkIsWritten(gaddr, level, offset);
  }

  /** Nothing else is dropped: each entry is used by an address that the guest entry governs. */
  lemma WrittenIsWalked(level: nat, quadrant: nat, offset: nat, i: nat) returns (gaddr: Gva)
    requires Guest32(level) && offset < PAGE_SIZE && Among(i, WrittenSptes(level, false, quadrant, offset))
    ensures GuestIndex(gaddr, level) == offset / 4 && Quadrant(gaddr, level) == quadrant
            && ShadowIndex(gaddr, level) == i
  {
    if level == 1 {
      Unscaled1(offset);
    } else {
      Unscaled2(offset);
    }
    gaddr := Address(level, quadrant, i);
  }

  /** The address whose walk uses entry `i` of the page of that quadrant. */
  lemma Address(level: nat, quadrant: nat, i: nat) returns (gaddr: Gva)
    requires Guest32(level) && i < 512 && quadrant < (if level == 1 then 2 else 4)
    ensures Quadrant(gaddr, level) == quadrant && ShadowIndex(gaddr, level) == i
    ensures GuestIndex(gaddr, level) == if level == 1 then 512 * quadrant + i else 256 * quadrant + i / 2
  {
    var g := 512 * quadrant + i;
    DivMod(g, 512, quadrant, i);
    if level == 1 {
      gaddr := g * 0x1000;
      DivMod(gaddr, 0x1000, g, 0);
      Digits1(gaddr);
      Index1(quadrant, i);
    } else {
      gaddr := g * 0x20_0000;
      DivMod(gaddr, 0x20_0000, g, 0);
      Digits2(gaddr);
      Index2(quadrant, i);
    }
  }

  lemma Unscaled1(offset: nat)
    requires offset < PAGE_SIZE
    ensures var q, i := offset * 2 / PAGE_SIZE, offset * 2 % PAGE_SIZE / 8;
            q < 2 && i < 512 && offset / 4 == 512 * q + i
  {
    var p := offset / 4;
    Scaled1(offset, p / 512, p % 512);
  }

  lemma Unscaled2(offset: nat)
    requires offset < PAGE_SIZE
    ensures var scaled := (offset * 2 - offset * 2 % 8) * 2; var q, f := scaled / PAGE_SIZE, scaled % PAGE_SIZE / 8;
            q < 4 && f < 511 && f % 2 == 0 && offset / 4 == 256 * q + f / 2
  {
    var p := offset / 4;
    Scaled2(offset, p / 256, p % 256);
  }

  // ---------------------------------------------------------------- a guest write

  /** The role of a shadow page, and how often its guest page was written. */
  datatype Sp = Sp(level: nat, pae: bool, quadrant: nat, floods: nat)

  predicate WellFormed(sp: Sp) {
    if sp.pae then 1 <= sp.level <= ROOT_MAX_LEVEL else Guest32(sp.level)
  }

  function PteSize(sp: Sp): nat {
    if sp.pae then 8 else 4
  }

  /** Entry `i` of the shadow page stands for an address whose guest entry holds this byte of the guest page. */
  ghost predicate Uses(sp: Sp, byte: nat, i: nat) {
    if sp.pae then exists gaddr: nat :: Index64(gaddr, sp.level) == byte / 8 && Index64(gaddr, sp.level) == i
    else exists gaddr: Gva ::
           GuestIndex(gaddr, sp.level) == byte / 4 && Quadrant(gaddr, sp.level) == sp.quadrant
           && ShadowIndex(gaddr, sp.level) == i
  }

  /** get_written_sptes finds exactly the entries that stand for the guest entry. */
  lemma WrittenExactly(sp: Sp, byte: nat, i: nat)
    requires WellFormed(sp) && byte < PAGE_SIZE
    ensures Uses(sp, byte, i) <==> Among(i, WrittenSptes(sp.level, sp.pae, sp.quadrant, byte))
  {
    hide GuestIndex, ShadowIndex, Quadrant;
    if sp.pae {
      var gaddr := Address64(sp.level, byte / 8);
    } else {
      if Among(i, WrittenSptes(sp.level, false, sp.quadrant, byte)) {
        var gaddr := WrittenIsWalked(sp.level, sp.quadrant, byte, i);
      }
      if Uses(sp, byte, i) {
        var gaddr: Gva :| GuestIndex(gaddr, sp.level) == byte / 4 && Quadrant(gaddr, sp.level) == sp.quadrant
                          && ShadowIndex(gaddr, sp.level) == i;
        WalkIsWritten(gaddr, sp.level, byte);
      }
    }
  }

  /** An address whose walk uses entry `i` of the pages of this level. */
  lemma Address64(level: nat, i: nat) returns (gaddr: nat)
    requires i < 512
    ensures Index64(gaddr, level) == i
  {
    gaddr := i * (PAGE_SIZE * Span(level));
    DivMod(gaddr, PAGE_SIZE * Span(level), i, 0);
  }

  /** Two bytes of one guest entry have the same shadow entries. */
  lemma SameEntry(sp: Sp, a: nat, b: nat)
    requires WellFormed(sp) && a < PAGE_SIZE && b < PAGE_SIZE && a / PteSize(sp) == b / PteSize(sp)
    ensures WrittenSptes(sp.level, sp.pae, sp.quadrant, a) == WrittenSptes(sp.level, sp.pae, sp.quadrant, b)
  {
    if !sp.pae {
      var p := a / 4;
      if sp.level == 1 {
        Scaled1(a, p / 512, p % 512);
        Scaled1(b, p / 512, p % 512);
      } else {
        Scaled2(a, p / 256, p % 256);
        Scaled2(b, p / 256, p % 256);
      }
    }
  }

  /** mmu_pte_write_fetch_gpte: a four-byte write of a guest with eight-byte entries is widened to the whole entry. */
  function Fetched(vcpuPae: bool, offset: nat, length: nat): (nat, nat) {
    if vcpuPae && length == 4 then (offset - offset % 8, 8) else (offset, length)
  }

  /** detect_write_misaligned. */
  predicate Misaligned(sp: Sp, offset: nat, length: nat)
    requires 0 < length
  {
    !(offset % PteSize(sp) == 0 && length == 1)
    && (offset / PteSize(sp) != (offset + length - 1) / PteSize(sp) || length < 4)
  }

  /** detect_write_flooding. */
  predicate Flooded(sp: Sp) {
    sp.level != 1 && sp.floods + 1 >= 3
  }

  datatype Response = ZapPage | Drop(sptes: Sptes)

  /** What vmrun_mmu_pte_write does to one shadow page of the written guest page. */
  function Respond(sp: Sp, vcpuPae: bool, offset: nat, length: nat): Response
    requires 0 < length
  {
    var (o, n) := Fetched(vcpuPae, offset, length);
    if Misaligned(sp, o, n) || Flooded(sp) then ZapPage
    else Drop(WrittenSptes(sp.level, sp.pae, sp.quadrant, o))
  }

  /** The page with its write count afterwards: level 1 pages and misaligned writes are not counted. */
  function Written(sp: Sp, vcpuPae: bool, offset: nat, length: nat): Sp
    requires 0 < length
  {
    var (o, n) := Fetched(vcpuPae, offset, length);
    if Misaligned(sp, o, n) || sp.level == 1 then sp else sp.(floods := sp.floods + 1)
  }

  predicate Dropped(r: Response, i: nat) {
    r.ZapPage? || Among(i, r.sptes)
  }

  /** No shadow entry that stands for a written guest entry survives. */
  ghost predicate Complete(sp: Sp, vcpuPae: bool, offset: nat, length: nat)
    requires 0 < length
  {
    forall byte, i | offset <= byte < offset + length && Uses(sp, byte, i) ::
      Dropped(Respond(sp, vcpuPae, offset, length), i)
  }

  /** A four-byte write of such a guest that reaches into the next entry: widening hides that it does. */
  predicate Straddles(vcpuPae: bool, offset: nat, length: nat) {
    vcpuPae && length == 4 && offset % 8 > 4
  }

  lemma OneEntry(sp: Sp, vcpuPae: bool, offset: nat, length: nat, byte: nat)
    requires WellFormed(sp) && 0 < length && offset + length <= PAGE_SIZE && offset <= byte < offset + length
    requires !Straddles(vcpuPae, offset, length) && Respond(sp, vcpuPae, offset, length).Drop?
    ensures var (o, _) := Fetched(vcpuPae, offset, length); o < PAGE_SIZE && o / PteSize(sp) == byte / PteSize(sp)
  {
  }

  /** A write is handled completely by every page, if and only if it does not straddle two entries of a page with
    eight-byte entries that is not about to be zapped anyway. */
  lemma WriteIsHandled(sp: Sp, vcpuPae: bool, offset: nat, length: nat)
    requires WellFormed(sp) && 0 < length && offset + length <= PAGE_SIZE
    ensures Complete(sp, vcpuPae, offset, length) <==> !(Straddles(vcpuPae, offset, length) && sp.pae && !Flooded(sp))
  {
    var r := Respond(sp, vcpuPae, offset, length);
    if Straddles(vcpuPae, offset, length) && sp.pae && !Flooded(sp) {
      var byte := offset + 3;
      WrittenExactly(sp, byte, byte / 8);
      assert Uses(sp, byte, byte / 8);
      assert !Dropped(r, byte / 8);
    } else if r.Drop? {
      assert !Straddles(vcpuPae, offset, length);
      forall byte, i | offset <= byte < offset + length && Uses(sp, byte, i)
        ensures Dropped(r, i)
      {
        WrittenExactly(sp, byte, i);
        OneEntry(sp, vcpuPae, offset, length, byte);
        SameEntry(sp, Fetched(vcpuPae, offset, length).0, byte);
      }
    }
  }

  /** A four-byte write at offset 6 leaves entry 1, which holds bytes 8 and 9, in place. */
  lemma StraddleMissed()
    ensures Uses(Sp(1, true, 0, 0), 8, 1) && !Dropped(Respond(Sp(1, true, 0, 0), true, 6, 4), 1)
  {
    WrittenExactly(Sp(1, true, 0, 0), 8, 1);
  }
}
