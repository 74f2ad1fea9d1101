/** MMIO shadow entries: a word that packs a frame, an access and the memory-slot generation it was made under, and the
  generation numbers that make a stale one recognisable. */
module MmioGen {
  import opened Division
  import opened MemRegions
  import opened SpteBits
  import M = MemSlots

  const GEN_LOW_SHIFT: nat := 2
  const GEN_HIGH_SHIFT: nat := 52
  const MMIO_GEN_SHIFT: nat := 20
  const MMIO_GEN_LOW_SHIFT: nat := 10
  const PAGE_SHIFT: nat := 12
  const ACC_BITS: Word := {1, 2}
  const GEN_SPAN: nat := 0x10_0000

  function Shl(w: Word, k: nat): (r: Word)
    ensures forall b: nat :: b in r <==> b >= k && b - k in w
  {
    set b | b in w :: b + k
  }

  function Shr(w: Word, k: nat): (r: Word)
    ensures forall b: nat :: b in r <==> b + k in w
  {
    set b | b in w && b >= k :: b - k
  }

  /** The `k` lowest bits. */
  function Low(k: nat): (r: Word)
    ensures forall n: nat :: n in r <==> n < k
  {
    if k == 0 then {} else Low(k - 1) + {k - 1}
  }

  // ---------------------------------------------------------------- the word

  /** MMIO_GEN_LOW_MASK: bit 0 of a generation is not stored. */
  function LowMask(): Word {
    Low(MMIO_GEN_LOW_SHIFT) - {0}
  }

  /** generation_mmio_spte_mask. */
  function GenerationMask(gen: Word): Word {
    Shl(gen * LowMask(), GEN_LOW_SHIFT) + Shl(Shr(gen, MMIO_GEN_LOW_SHIFT), GEN_HIGH_SHIFT)
  }

  /** mark_mmio_spte. */
  function Mark(m: Masks, gfn: Word, access: Word, gen: Word): Word {
    GenerationMask(gen) + m.mmioValue + access * ACC_BITS + Shl(gfn, PAGE_SHIFT)
  }

  /** get_mmio_spte_generation. */
  function Generation(m: Masks, spte: Word): Word {
    var s := spte - m.mmioMask;
    Shr(s, GEN_LOW_SHIFT) * LowMask() + Shl(Shr(s, GEN_HIGH_SHIFT), MMIO_GEN_LOW_SHIFT)
  }

  function NotPayload(m: Masks): Word {
    GenerationMask(Low(MMIO_GEN_SHIFT)) + m.mmioMask
  }

  /** get_mmio_spte_gfn. */
  function Frame(m: Masks, spte: Word): Word {
    Shr(spte - NotPayload(m), PAGE_SHIFT)
  }

  /** get_mmio_spte_access. */
  function Access(m: Masks, spte: Word): Word {
    (spte - NotPayload(m)) * Low(PAGE_SHIFT)
  }

  /** The mask leaves the generation and access fields alone. */
  predicate Apart(m: Masks) {
    m.mmioValue <= m.mmioMask && m.mmioMask !! GenerationMask(Low(MMIO_GEN_SHIFT)) + ACC_BITS
  }

  /** The frame fits between the access bits and the high part of the generation, outside the mask. */
  predicate FrameFits(m: Masks, gfn: Word) {
    (forall b | b in gfn :: b + PAGE_SHIFT < GEN_HIGH_SHIFT) && m.mmioMask !! Shl(gfn, PAGE_SHIFT)
  }

  /** Encoding and decoding: the frame, the access and all of the generation but its bit 0 come back. */
  lemma RoundTrip(m: Masks, gfn: Word, access: Word, gen: Word)
    requires Apart(m) && FrameFits(m, gfn) && gen <= Low(MMIO_GEN_SHIFT)
    ensures var spte := Mark(m, gfn, access, gen);
            && IsMmio(m, spte)
            && Frame(m, spte) == gfn
            && Access(m, spte) == access * ACC_BITS
            && Generation(m, spte) == gen - {0}
  {
    hide Low;
  }

  // ---------------------------------------------------------------- numbers and their bits

  /** The one-bits of a number. */
  function Bits(n: nat): Word {
    if n == 0 then {} else Shl(Bits(n / 2), 1) + (if n % 2 == 1 then {0} else {})
  }

  lemma BitsHalf(n: nat)
    ensures Shr(Bits(n), 1) == Bits(n / 2)
    ensures 0 in Bits(n) <==> n % 2 == 1
  {
  }

  lemma {:induction false} BitsInjective(a: nat, b: nat)
    requires Bits(a) == Bits(b)
    ensures a == b
    decreases a + b
  {
    hide Bits;
    BitsHalf(a);
    BitsHalf(b);
    if a > 0 || b > 0 {
      BitsInjective(a / 2, b / 2);
    }
  }

  lemma {:induction false} BitsBelow(n: nat, k: nat, bound: nat)
    requires n < bound && bound == Pow2(k)
    ensures Bits(n) <= Low(k)
  {
    if n > 0 {
      assert k > 0 && Pow2(k) == 2 * Pow2(k - 1);
      BitsBelow(n / 2, k - 1, Pow2(k - 1));
    }
  }

  function Pow2(k: nat): nat {
    if k == 0 then 1 else 2 * Pow2(k - 1)
  }

  lemma SpanIsPower()
    ensures Pow2(MMIO_GEN_SHIFT) == GEN_SPAN
  {
    assert Pow2(5) == 32;
    assert Pow2(10) == 32 * Pow2(5);
    assert Pow2(15) == 32 * Pow2(10);
    assert Pow2(20) == 32 * Pow2(15);
  }

  /** Dropping bit 0 rounds down to an even number. */
  lemma BitsEven(n: nat)
    ensures Bits(n) - {0} == Bits(n - n % 2)
  {
    assert (n - n % 2) / 2 == n / 2 && (n - n % 2) % 2 == 0;
    assert n / 2 > 0 ==> Bits(n - n % 2) == Shl(Bits(n / 2), 1);
  }

  // ---------------------------------------------------------------- generations over a run

  /** Where vmrun_create_vm starts the generation of an address space: `i * 2 - 150` as an unsigned 64-bit number. */
  function Initial(asId: nat): M.u64
    requires asId < M.ADDRESS_SPACE_NUM
  {
    M.U64 + asId * 2 - 150
  }

  /** The generation after `n` installations. */
  function Gen(asId: nat, n: nat): M.u64
    requires asId < M.ADDRESS_SPACE_NUM
  {
    if n == 0 then Initial(asId) else NextGen(Gen(asId, n - 1))
  }

  /** What readers see: the odd generation while installation `n + 1` is under way; the generation after installation
    `n` before the zap that may follow it; and the same generation after that zap. */
  datatype Moment = Installing(n: nat) | Bumped(n: nat) | Steady(n: nat)

  function Current(asId: nat, t: Moment): nat
    requires asId < M.ADDRESS_SPACE_NUM
  {
    if t.Installing? then (Gen(asId, t.n) + 1) % M.U64 else Gen(asId, t.n)
  }

  /** vmrun_current_mmio_generation. */
  function MmioGeneration(asId: nat, t: Moment): nat
    requires asId < M.ADDRESS_SPACE_NUM
  {
    Current(asId, t) % GEN_SPAN
  }

  /** The generation before wrapping, up to multiples of the span. */
  function Unwrapped(asId: nat, n: nat): nat {
    GEN_SPAN - 150 + 2 * asId + 4 * n
  }

  lemma {:induction false} GenAt(asId: nat, n: nat) returns (q: int)
    requires asId < M.ADDRESS_SPACE_NUM
    ensures Gen(asId, n) == Unwrapped(asId, n) + q * GEN_SPAN
  {
    if n == 0 {
      q := 0xFFF_FFFF_FFFF;
    } else {
      q := GenAt(asId, n - 1);
      if Gen(asId, n - 1) + 4 >= M.U64 {
        q := q - 0x1000_0000_0000;
      }
    }
  }

  lemma SameRemainder(x: nat, y: nat, q: int)
    requires y == x + q * GEN_SPAN
    ensures x % GEN_SPAN == y % GEN_SPAN
  {
    assert 0 <= x / GEN_SPAN + q;
    DivMod(y, GEN_SPAN, x / GEN_SPAN + q, x % GEN_SPAN);
  }

  /** A span divides evenly into even numbers, so the odd generation of an installation is the even one plus 1. */
  lemma OddAfterEven(g: M.u64)
    requires g % 2 == 0
    ensures g % GEN_SPAN % 2 == 0 && g % GEN_SPAN + 1 < GEN_SPAN
    ensures (g + 1) % M.U64 % GEN_SPAN == g % GEN_SPAN + 1
  {
    var q, r := g / GEN_SPAN, g % GEN_SPAN;
    var h := g / 2;
    assert r == 2 * (h - 0x8_0000 * q);
    DivMod(g + 1, M.U64, 0, g + 1);
    DivMod(g + 1, GEN_SPAN, q, r + 1);
  }

  /** check_mmio_spte. */
  predicate Accepts(m: Masks, spte: Word, asId: nat, t: Moment)
    requires asId < M.ADDRESS_SPACE_NUM
  {
    Generation(m, spte) == Bits(MmioGeneration(asId, t))
  }

  /** An MMIO entry is accepted if and only if the table is not being replaced, the address space is the one it was
    made in, and the number of installations since then is a multiple of 2^18. */
  lemma AcceptedExactly(m: Masks, gfn: Word, access: Word, made: nat, since: Moment, asId: nat, now: Moment)
    requires made < M.ADDRESS_SPACE_NUM && asId < M.ADDRESS_SPACE_NUM && since.n <= now.n
    requires Apart(m) && FrameFits(m, gfn)
    ensures Accepts(m, Mark(m, gfn, access, Bits(MmioGeneration(made, since))), asId, now)
            <==> !now.Installing? && asId == made && (now.n - since.n) % 0x4_0000 == 0
  {
    hide Bits, Mark, Generation, Apart, FrameFits, MmioGeneration;
    var x, y := MmioGeneration(made, since), MmioGeneration(asId, now);
    assert x < GEN_SPAN by {
      MmioGenerationAt(made, since);
    }
    ReadBack(m, gfn, access, x);
    BitsEven(x);
    if Bits(x - x % 2) == Bits(y) {
      BitsInjective(x - x % 2, y);
    }
    Coincide(made, since, asId, now);
  }

  /** The generation read back from an entry is the one it was made with, but for bit 0. */
  lemma ReadBack(m: Masks, gfn: Word, access: Word, x: nat)
    requires x < GEN_SPAN && Apart(m) && FrameFits(m, gfn)
    ensures Generation(m, Mark(m, gfn, access, Bits(x))) == Bits(x) - {0}
  {
    hide Bits, Mark, Generation, Apart, FrameFits;
    SpanIsPower();
    BitsBelow(x, MMIO_GEN_SHIFT, GEN_SPAN);
    RoundTrip(m, gfn, access, Bits(x));
  }

  lemma MmioGenerationAt(asId: nat, t: Moment)
    requires asId < M.ADDRESS_SPACE_NUM
    ensures MmioGeneration(asId, t) == Unwrapped(asId, t.n) % GEN_SPAN + (if t.Installing? then 1 else 0)
    ensures MmioGeneration(asId, t) < GEN_SPAN && Unwrapped(asId, t.n) % GEN_SPAN % 2 == 0
  {
    hide Gen;
    var g := Gen(asId, t.n);
    var q := GenAt(asId, t.n);
    assert g == 2 * (0x8_0000 - 75 + asId + 2 * t.n + q * 0x8_0000);
    SameRemainder(Unwrapped(asId, t.n), g, q);
    OddAfterEven(g);
  }

  lemma Coincide(made: nat, since: Moment, asId: nat, now: Moment)
    requires made < M.ADDRESS_SPACE_NUM && asId < M.ADDRESS_SPACE_NUM && since.n <= now.n
    ensures var x, y := MmioGeneration(made, since), MmioGeneration(asId, now);
            x - x % 2 == y <==> !now.Installing? && asId == made && (now.n - since.n) % 0x4_0000 == 0
  {
    hide MmioGeneration, Unwrapped;
    MmioGenerationAt(made, since);
    MmioGenerationAt(asId, now);
    Rounding(Unwrapped(made, since.n) % GEN_SPAN, since.Installing?, Unwrapped(asId, now.n) % GEN_SPAN,
             now.Installing?);
    SameGeneration(made, since.n, asId, now.n);
  }

  lemma Rounding(a: nat, odd: bool, b: nat, odd': bool)
    requires a % 2 == b % 2 == 0
    ensures var x, y := a + (if odd then 1 else 0), b + (if odd' then 1 else 0); x - x % 2 == y <==> a == b && !odd'
  {
  }

  /** The two address spaces never share a generation, and one of them repeats only after 2^18 installations. */
  lemma SameGeneration(made: nat, n: nat, asId: nat, k: nat)
    requires made < M.ADDRESS_SPACE_NUM && asId < M.ADDRESS_SPACE_NUM && n <= k
    ensures Unwrapped(made, n) % GEN_SPAN == Unwrapped(asId, k) % GEN_SPAN
            <==> asId == made && (k - n) % 0x4_0000 == 0
  {
    var x, y := Unwrapped(made, n), Unwrapped(asId, k);
    if x % GEN_SPAN == y % GEN_SPAN {
      var e := y / GEN_SPAN - x / GEN_SPAN;
      assert y - x == GEN_SPAN * e;
      assert 4 * (k - n) + 2 * (asId - made) == 4 * (0x4_0000 * e);
      assert k - n == 0x4_0000 * e;
    }
    if asId == made && (k - n) % 0x4_0000 == 0 {
      var e := (k - n) / 0x4_0000;
      SameRemainder(x, y, e);
    }
  }

  // ---------------------------------------------------------------- wrap-around

  /** vmrun_mmu_invalidate_mmio_sptes after installation `n` zaps every shadow page. */
  predicate Rounds(asId: nat, n: nat)
    requires asId < M.ADDRESS_SPACE_NUM
  {
    Gen(asId, n) % GEN_SPAN == 0
  }

  /** A zap that follows an installation `j` comes after `Bumped(j)` and before `Steady(j)`. */
  function FirstZap(since: Moment): nat {
    if since.Bumped? then since.n else since.n + 1
  }

  function LastZap(now: Moment): int {
    if now.Bumped? then now.n - 1 else now.n
  }

  ghost predicate ZappedBetween(asId: nat, since: Moment, now: Moment)
    requires asId < M.ADDRESS_SPACE_NUM
  {
    exists j: nat | FirstZap(since) <= j <= LastZap(now) :: Rounds(asId, j)
  }

  lemma RoundsExactly(asId: nat, n: nat)
    requires asId < M.ADDRESS_SPACE_NUM
    ensures Rounds(asId, n) <==> asId == 1 && n % 0x4_0000 == 37
  {
    hide Gen;
    var x := Unwrapped(asId, n);
    var q := GenAt(asId, n);
    SameRemainder(x, Gen(asId, n), q);
    if x % GEN_SPAN == 0 {
      var e := x / GEN_SPAN - 1;
      assert 4 * n + 2 * asId == 4 * (0x4_0000 * e + 37) + 2;
      assert n == 0x4_0000 * e + 37;
    }
    if asId == 1 && n % 0x4_0000 == 37 {
      assert x == GEN_SPAN * (n / 0x4_0000 + 1);
    }
  }

  /** The entry was made right after the installation that rounded, and its generation comes back with the next one
    that does, whose zap is still to come. */
  predicate BeforeItsZap(since: Moment, now: Moment) {
    now.Bumped? && !since.Bumped? && since.n % 0x4_0000 == 37 && now.n - since.n == 0x4_0000
  }

  /** The zap on wrap-around is meant to remove every entry before its generation comes round again. When the generation
    of an old entry is current again, its address space has zapped all pages since the entry was made if and only if it
    is number 1 and the entry is not looked at in the moment before the zap that the same installation brings. In
    address space 0, whose generations are 2 modulo 4, there is no zap at all. */
  lemma StaleIsZapped(m: Masks, gfn: Word, access: Word, asId: nat, since: Moment, now: Moment)
    requires asId < M.ADDRESS_SPACE_NUM && since.n < now.n && Apart(m) && FrameFits(m, gfn)
    requires Accepts(m, Mark(m, gfn, access, Bits(MmioGeneration(asId, since))), asId, now)
    ensures ZappedBetween(asId, since, now) <==> asId == 1 && !BeforeItsZap(since, now)
  {
    hide Accepts, Mark, Bits, MmioGeneration, Apart, FrameFits, Rounds;
    AcceptedExactly(m, gfn, access, asId, since, asId, now);
    ZapsIn(asId, since, now);
  }

  lemma NextRound(from: nat) returns (j: nat)
    ensures from <= j < from + 0x4_0000 && j % 0x4_0000 == 37
  {
    var q, r := from / 0x4_0000, from % 0x4_0000;
    j := if r <= 37 then 0x4_0000 * q + 37 else 0x4_0000 * (q + 1) + 37;
    DivMod(j, 0x4_0000, if r <= 37 then q else q + 1, 37);
  }

  lemma NoRoundInside(n: nat, k: nat)
    requires n % 0x4_0000 == 37 && n < k < n + 0x4_0000
    ensures k % 0x4_0000 != 37
  {
    var p, q := k / 0x4_0000, n / 0x4_0000;
    assert k % 0x4_0000 == 37 ==> k - n == 0x4_0000 * (p - q);
  }

  lemma ZapsIn(asId: nat, since: Moment, now: Moment)
    requires asId < M.ADDRESS_SPACE_NUM && since.n < now.n && !now.Installing? && (now.n - since.n) % 0x4_0000 == 0
    ensures ZappedBetween(asId, since, now) <==> asId == 1 && !BeforeItsZap(since, now)
  {
    hide Rounds;
    forall j: nat | FirstZap(since) <= j <= LastZap(now)
      ensures Rounds(asId, j) ==> asId == 1 && !BeforeItsZap(since, now)
    {
      RoundsExactly(asId, j);
      if BeforeItsZap(since, now) {
        NoRoundInside(since.n, j);
      }
    }
    if asId == 1 && !BeforeItsZap(since, now) {
      var j := NextRound(FirstZap(since));
      RoundsExactly(asId, j);
      assert now.n - since.n >= 0x4_0000;
      assert j > LastZap(now) ==> now.Bumped? && !since.Bumped? && j == now.n == since.n + 0x4_0000;
      assert j <= LastZap(now);
    }
  }

  /** An entry made in address space 0 at the start is accepted again after 2^18 installations, with no zap between. */
  lemma StaleAccepted(m: Masks, gfn: Word, access: Word)
    requires Apart(m) && FrameFits(m, gfn)
    ensures Accepts(m, Mark(m, gfn, access, Bits(MmioGeneration(0, Steady(0)))), 0, Steady(0x4_0000))
    ensures !ZappedBetween(0, Steady(0), Steady(0x4_0000))
  {
    hide Accepts, Mark, Bits, MmioGeneration, Apart, FrameFits, Rounds, ZappedBetween;
    AcceptedExactly(m, gfn, access, 0, Steady(0), 0, Steady(0x4_0000));
    StaleIsZapped(m, gfn, access, 0, Steady(0), Steady(0x4_0000));
  }

  /** In address space 1 an entry made after installation 37, the first that rounds, is accepted again when installation
    37 + 2^18 has made its generation current, before the zap. */
  lemma StaleBeforeZap(m: Masks, gfn: Word, access: Word)
    requires Apart(m) && FrameFits(m, gfn)
    ensures Rounds(1, 37) && Rounds(1, 0x4_0025)
    ensures Accepts(m, Mark(m, gfn, access, Bits(MmioGeneration(1, Steady(37)))), 1, Bumped(0x4_0025))
    ensures !ZappedBetween(1, Steady(37), Bumped(0x4_0025))
  {
    hide Accepts, Mark, Bits, MmioGeneration, Apart, FrameFits, Rounds, ZappedBetween;
    RoundsExactly(1, 37);
    RoundsExactly(1, 0x4_0025);
    AcceptedExactly(m, gfn, access, 1, Steady(37), 1, Bumped(0x4_0025));
    StaleIsZapped(m, gfn, access, 1, Steady(37), Bumped(0x4_0025));
  }
}
