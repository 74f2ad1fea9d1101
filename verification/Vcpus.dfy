/** A virtual CPU and its VMCB: the setters, the clean bits they clear, and what the processor has cached.

  A register is the set of its one-bits, as in SpteBits. */
module Vcpus {
  import opened SpteBits

  const X86_CR0_PE: nat := 0
  const X86_CR0_MP: nat := 1
  const X86_CR0_TS: nat := 3
  const X86_CR0_ET: nat := 4
  const X86_CR0_WP: nat := 16
  const X86_CR0_NW: nat := 29
  const X86_CR0_CD: nat := 30
  const X86_CR0_PG: nat := 31
  const CR0_SELECTIVE_MASK: Word := {X86_CR0_TS, X86_CR0_MP}
  const X86_CR4_PAE: nat := 5
  const X86_CR4_PGE: nat := 7
  const X86_CR4_VMXE: nat := 13
  const EFER_LME: nat := 8
  const EFER_LMA: nat := 10
  const EFER_SVME: nat := 12
  const INTERCEPT_CR0_READ: nat := 0
  const INTERCEPT_CR0_WRITE: nat := 16
  const INTERCEPT_CR8_WRITE: nat := 24
  const INIT_INTERCEPTS: Word := {0, 1, 2, 32, 33} // INTR, NMI, SMI, VMRUN, VMMCALL

  /** The values vmrun_vmcb_init puts into CR0 as the guest sees it, the debug status register and the segments. */
  const INIT_CR0: Word := {X86_CR0_NW, X86_CR0_CD, X86_CR0_ET}
  const INIT_DR6: Word := set b: nat | b < 32 && (4 <= b < 12 || 16 <= b)
  const INIT_CODE := Segment(0xf000, {7, 4, 3, 1}, 0xffff, 0xffff0000)
  const INIT_DATA := Segment(0, {7, 4, 1}, 0xffff, 0)
  const INIT_LDTR := Segment(0, {7, 1}, 0xffff, 0)
  const INIT_TR := Segment(0, {7, 0}, 0xffff, 0)
  const V_TPR_MASK: Word := {0, 1, 2, 3}
  const V_INTR_MASK: Word := {24}

  /** The groups of VMCB fields that have a clean bit. */
  datatype Group = Intercepts | PermMap | Asid | Intr | Npt | Cr | Dr | Dt | Seg | Cr2 | Lbr | Avic

  const ALL_GROUPS: set<Group> := {Intercepts, PermMap, Asid, Intr, Npt, Cr, Dr, Dt, Seg, Cr2, Lbr, Avic}
  const ALWAYS_DIRTY: set<Group> := {Intr, Cr2}

  datatype TlbControl = DoNothing | FlushAllAsid | FlushAsid

  datatype Segment = Segment(selector: nat, attrib: Word, limit: nat, base: nat)

  datatype Table = Table(limit: nat, base: nat)

  datatype SegName = CS | DS | ES | FS | GS | SS | TR | LDTR

  /** struct vmcb: the fields of each group, and those that are read at every entry. */
  datatype Vmcb = Vmcb(
    interceptCr: Word, intercept: Word, iopmBase: nat, asid: nat, intCtl: Word, nestedCr3: nat,
    cr0: Word, cr3: Word, cr4: Word, efer: Word, dr6: Word, dr7: Word, gdtr: Table, idtr: Table,
    cs: Segment, ds: Segment, es: Segment, ss: Segment, fs: Segment, gs: Segment, tr: Segment, ldtr: Segment,
    cpl: nat, cr2: nat, lastBranch: nat, avic: nat,
    rflags: Word, rax: nat, rsp: nat, rip: nat, tlbCtl: TlbControl, clean: set<Group>)

  /** vmrun_seg. */
  function SegOf(v: Vmcb, name: SegName): Segment {
    match name
    case CS => v.cs
    case DS => v.ds
    case ES => v.es
    case FS => v.fs
    case GS => v.gs
    case SS => v.ss
    case TR => v.tr
    case LDTR => v.ldtr
  }

  /** The fields of one group agree. */
  predicate Same(a: Vmcb, b: Vmcb, g: Group) {
    match g
    case Intercepts => a.interceptCr == b.interceptCr && a.intercept == b.intercept
    case PermMap => a.iopmBase == b.iopmBase
    case Asid => a.asid == b.asid
    case Intr => a.intCtl == b.intCtl
    case Npt => a.nestedCr3 == b.nestedCr3
    case Cr => a.cr0 == b.cr0 && a.cr3 == b.cr3 && a.cr4 == b.cr4 && a.efer == b.efer
    case Dr => a.dr6 == b.dr6 && a.dr7 == b.dr7
    case Dt => a.gdtr == b.gdtr && a.idtr == b.idtr
    case Seg => a.cs == b.cs && a.ds == b.ds && a.es == b.es && a.ss == b.ss && a.cpl == b.cpl
    case Cr2 => a.cr2 == b.cr2
    case Lbr => a.lastBranch == b.lastBranch
    case Avic => a.avic == b.avic
  }

  /** Every group marked clean agrees with what the processor has cached, and the groups that are always written are
    never marked clean. */
  ghost predicate CleanAgrees(v: Vmcb, cached: Vmcb) {
    v.clean !! ALWAYS_DIRTY && forall g | g in v.clean :: Same(v, cached, g)
  }

  /** What the processor loads on VMRUN: a clean group comes from its cache, the others from memory. */
  function Loaded(v: Vmcb, cached: Vmcb): Vmcb {
    var c := v.clean;
    Vmcb(
      if Intercepts in c then cached.interceptCr else v.interceptCr,
      if Intercepts in c then cached.intercept else v.intercept,
      if PermMap in c then cached.iopmBase else v.iopmBase,
      if Asid in c then cached.asid else v.asid,
      if Intr in c then cached.intCtl else v.intCtl,
      if Npt in c then cached.nestedCr3 else v.nestedCr3,
      if Cr in c then cached.cr0 else v.cr0,
      if Cr in c then cached.cr3 else v.cr3,
      if Cr in c then cached.cr4 else v.cr4,
      if Cr in c then cached.efer else v.efer,
      if Dr in c then cached.dr6 else v.dr6,
      if Dr in c then cached.dr7 else v.dr7,
      if Dt in c then cached.gdtr else v.gdtr,
      if Dt in c then cached.idtr else v.idtr,
      if Seg in c then cached.cs else v.cs,
      if Seg in c then cached.ds else v.ds,
      if Seg in c then cached.es else v.es,
      if Seg in c then cached.ss else v.ss,
      v.fs, v.gs, v.tr, v.ldtr,
      if Seg in c then cached.cpl else v.cpl,
      if Cr2 in c then cached.cr2 else v.cr2,
      if Lbr in c then cached.lastBranch else v.lastBranch,
      if Avic in c then cached.avic else v.avic,
      v.rflags, v.rax, v.rsp, v.rip, v.tlbCtl, v.clean)
  }

  /** When the clean bits are right the processor runs the guest with the VMCB that is in memory. */
  lemma LoadsMemory(v: Vmcb, cached: Vmcb)
    requires CleanAgrees(v, cached)
    ensures Loaded(v, cached) == v
  {
    assert forall g | g in v.clean :: Same(v, cached, g);
    assert Intercepts in v.clean ==> Same(v, cached, Intercepts);
    assert PermMap in v.clean ==> Same(v, cached, PermMap);
    assert Asid in v.clean ==> Same(v, cached, Asid);
    assert Intr !in v.clean && Cr2 !in v.clean;
    assert Npt in v.clean ==> Same(v, cached, Npt);
    assert Cr in v.clean ==> Same(v, cached, Cr);
    assert Dr in v.clean ==> Same(v, cached, Dr);
    assert Dt in v.clean ==> Same(v, cached, Dt);
    assert Seg in v.clean ==> Same(v, cached, Seg);
    assert Lbr in v.clean ==> Same(v, cached, Lbr);
    assert Avic in v.clean ==> Same(v, cached, Avic);
  }

  // ---------------------------------------------------------------- the virtual CPU

  /** struct vmrun_vcpu. */
  class Vcpu {
    const id: nat
    var cpu: int
    var vmcb: Vmcb
    var generation: int
    var cr0: Word
    var cr2: nat
    var cr4: Word
    var cr8: Word
    var efer: Word
    var rax: nat
    var rsp: nat
    var rip: nat
    /** The processor on which the thread was last scheduled in, and what that processor holds of this VMCB. */
    ghost var home: nat
    ghost var cached: Vmcb
    /** A flush has been asked for and the guest has not been entered since. */
    ghost var flushOwed: bool

    /** `cpu` is never assigned after its initialisation. */
    ghost predicate Valid()
      reads this
    {
      cpu == -1 && CleanAgrees(vmcb, cached)
    }

    /** Nothing that the choice of an ASID depends on has changed. */
    twostate predicate Quiet()
      reads this
    {
      && generation == old(generation) && home == old(home) && cached == old(cached) && flushOwed == old(flushOwed)
      && vmcb.asid == old(vmcb.asid) && vmcb.tlbCtl == old(vmcb.tlbCtl)
    }

    /** A flush has been asked for: by the flush field, or by making the ASID out of date. */
    twostate predicate FlushAsked(flushByAsid: bool)
      reads this
    {
      && flushOwed && home == old(home) && cached == old(cached) && vmcb.asid == old(vmcb.asid)
      && if flushByAsid then vmcb.tlbCtl.FlushAsid? && generation == old(generation)
         else vmcb.tlbCtl == old(vmcb.tlbCtl) && generation == old(generation) - 1
    }

    /** vmrun_vcpu_init and vmrun_vmcb_init on a cleared VMCB. */
    constructor (id: nat, zero: Vmcb, iopm: nat)
      requires zero.tlbCtl.DoNothing?
      ensures Valid() && this.id == id && generation == 0 && home == 0 && !flushOwed && vmcb.tlbCtl.DoNothing?
      ensures vmcb.clean == {} && rip == 0xfff0 && vmcb.iopmBase == iopm
    {
      this.id, cpu, vmcb, cached := id, -1, zero, zero;
      cr0, cr2, cr4, cr8, efer, rax, rsp, rip := {}, 0, {}, {}, {}, 0, 0, 0;
      generation, home, flushOwed := 0, 0, false;
      new;
      Reset(iopm);
    }

    /** vmrun_vmcb_init: the guest starts at the reset vector, with what it sees of the control registers apart from
      what the processor runs with. */
    method Reset(iopm: nat)
      requires cpu == -1
      modifies this
      ensures Valid() && vmcb.clean == {} && generation == 0
      ensures home == old(home) && cached == old(cached) && flushOwed == old(flushOwed)
      ensures vmcb.tlbCtl == old(vmcb.tlbCtl) && vmcb.asid == old(vmcb.asid)
      ensures rip == vmcb.rip && efer == {} && vmcb.efer == {EFER_SVME} && vmcb.cr4 == {X86_CR4_PAE}
      ensures cr0 == INIT_CR0 && vmcb.cr0 == cr0 + {X86_CR0_PE, X86_CR0_PG, X86_CR0_WP}
      ensures vmcb.cs == INIT_CODE && vmcb.cs.base + rip == 0xffff_fff0
      ensures forall n: SegName | n !in {CS, TR, LDTR} :: SegOf(vmcb, n) == INIT_DATA
      ensures vmcb.ldtr == INIT_LDTR && vmcb.tr == INIT_TR
      ensures vmcb.gdtr == old(vmcb.gdtr).(limit := 0xffff) && vmcb.idtr == old(vmcb.idtr).(limit := 0xffff)
      ensures vmcb.intercept == old(vmcb.intercept) + INIT_INTERCEPTS && vmcb.interceptCr == old(vmcb.interceptCr)
      ensures vmcb.iopmBase == iopm && vmcb.intCtl == V_INTR_MASK && vmcb.rflags == {1} && vmcb.dr6 == INIT_DR6
    {
      vmcb := vmcb.(intercept := vmcb.intercept + INIT_INTERCEPTS, clean := vmcb.clean - {Intercepts});
      vmcb := vmcb.(iopmBase := iopm, intCtl := V_INTR_MASK);
      vmcb := vmcb.(es := INIT_DATA, ss := INIT_DATA, ds := INIT_DATA, fs := INIT_DATA, gs := INIT_DATA);
      vmcb := vmcb.(cs := INIT_CODE);
      vmcb := vmcb.(gdtr := vmcb.gdtr.(limit := 0xffff), idtr := vmcb.idtr.(limit := 0xffff));
      vmcb := vmcb.(ldtr := INIT_LDTR, tr := INIT_TR);
      vmcb := vmcb.(efer := {EFER_SVME}, cr0 := INIT_CR0 + {X86_CR0_PE, X86_CR0_PG, X86_CR0_WP}, cr4 := {X86_CR4_PAE});
      vmcb := vmcb.(rip := 0xfff0, dr6 := INIT_DR6, rflags := {1});
      vmcb := vmcb.(clean := vmcb.clean - {Cr});
      vmcb := vmcb.(clean := {});
      cr0, efer, generation, rip := INIT_CR0, {}, 0, vmcb.rip;
    }

    /** vmrun_set_cr_intercept. */
    method SetCrIntercept(bit: nat)
      requires Valid()
      modifies this`vmcb
      ensures Valid() && Quiet()
      ensures vmcb == old(vmcb).(interceptCr := old(vmcb).interceptCr + {bit}, clean := old(vmcb).clean - {Intercepts})
    {
      vmcb := vmcb.(interceptCr := vmcb.interceptCr + {bit}, clean := vmcb.clean - {Intercepts});
    }

    /** vmrun_clr_cr_intercept. */
    method ClrCrIntercept(bit: nat)
      requires Valid()
      modifies this`vmcb
      ensures Valid() && Quiet()
      ensures vmcb == old(vmcb).(interceptCr := old(vmcb).interceptCr - {bit}, clean := old(vmcb).clean - {Intercepts})
    {
      vmcb := vmcb.(interceptCr := vmcb.interceptCr - {bit}, clean := vmcb.clean - {Intercepts});
    }

    /** vmrun_update_cr0_intercept: reads and writes of CR0 are intercepted exactly when the guest would see, or set,
      something else than the processor runs with. */
    method UpdateCr0Intercept()
      requires cpu == -1 && CleanAgrees(vmcb.(clean := vmcb.clean - {Cr}), cached)
      modifies this`vmcb
      ensures Valid() && Quiet() && vmcb.cr0 == old(vmcb).cr0 - CR0_SELECTIVE_MASK + cr0 * CR0_SELECTIVE_MASK
      ensures INTERCEPT_CR0_READ in vmcb.interceptCr <==> cr0 != vmcb.cr0
      ensures INTERCEPT_CR0_WRITE in vmcb.interceptCr <==> cr0 != vmcb.cr0
      ensures vmcb.efer == old(vmcb).efer && vmcb.cr4 == old(vmcb).cr4
      ensures vmcb.clean == old(vmcb).clean - {Cr, Intercepts}
    {
      vmcb := vmcb.(cr0 := vmcb.cr0 - CR0_SELECTIVE_MASK + cr0 * CR0_SELECTIVE_MASK);
      vmcb := vmcb.(clean := vmcb.clean - {Cr});
      if cr0 == vmcb.cr0 {
        ClrCrIntercept(INTERCEPT_CR0_READ);
        ClrCrIntercept(INTERCEPT_CR0_WRITE);
      } else {
        SetCrIntercept(INTERCEPT_CR0_READ);
        SetCrIntercept(INTERCEPT_CR0_WRITE);
      }
    }

    /** vmrun_set_cr0. */
    method SetCr0(value: Word, npt: bool)
      requires Valid()
      modifies this`vmcb, this`cr0, this`efer
      ensures Valid() && Quiet() && cr0 == value
      ensures vmcb.cr0 == if npt then value else value + {X86_CR0_PG, X86_CR0_WP}
      ensures INTERCEPT_CR0_WRITE in vmcb.interceptCr <==> cr0 != vmcb.cr0
      ensures efer == if EFER_LME !in old(efer) || (X86_CR0_PG in old(cr0) <==> X86_CR0_PG in value) then old(efer)
                      else if X86_CR0_PG in value then old(efer) + {EFER_LMA} else old(efer) - {EFER_LMA}
      ensures var lm, was := {EFER_LMA, EFER_LME}, old(vmcb).efer;
              vmcb.efer == if EFER_LME !in old(efer) || (X86_CR0_PG in old(cr0) <==> X86_CR0_PG in value) then was
                           else if X86_CR0_PG in value then was + lm else was - lm
    {
      if EFER_LME in efer {
        if X86_CR0_PG !in cr0 && X86_CR0_PG in value {
          efer := efer + {EFER_LMA};
          vmcb := vmcb.(efer := vmcb.efer + {EFER_LMA, EFER_LME});
        }
        if X86_CR0_PG in cr0 && X86_CR0_PG !in value {
          efer := efer - {EFER_LMA};
          vmcb := vmcb.(efer := vmcb.efer - {EFER_LMA, EFER_LME});
        }
      }
      cr0 := value;
      var hw := if npt then value else value + {X86_CR0_PG, X86_CR0_WP};
      vmcb := vmcb.(cr0 := hw);
      vmcb := vmcb.(clean := vmcb.clean - {Cr});
      UpdateCr0Intercept();
      assert vmcb.cr0 == hw;
    }

    /** vmrun_flush_tlb. */
    method FlushTlb(flushByAsid: bool)
      requires Valid()
      modifies this`vmcb, this`generation, this`flushOwed
      ensures Valid() && FlushAsked(flushByAsid) && vmcb == old(vmcb).(tlbCtl := vmcb.tlbCtl)
    {
      if flushByAsid {
        vmcb := vmcb.(tlbCtl := FlushAsid);
      } else {
        generation := generation - 1;
      }
      flushOwed := true;
    }

    /** vmrun_set_cr4. */
    method SetCr4(value: Word, npt: bool, hostMce: Word, flushByAsid: bool) returns (r: nat)
      requires Valid()
      modifies this`vmcb, this`cr4, this`generation, this`flushOwed
      ensures Valid() && (r == 0 <==> X86_CR4_VMXE !in value)
      ensures r != 0 ==> vmcb == old(vmcb) && cr4 == old(cr4)
      ensures r == 0 ==> cr4 == value && vmcb.cr4 == value + hostMce + (if npt then {} else {X86_CR4_PAE})
      ensures if r == 0 && npt && X86_CR4_PGE in old(vmcb).cr4 + value && X86_CR4_PGE !in old(vmcb).cr4 * value
              then FlushAsked(flushByAsid) else Quiet()
    {
      var was := vmcb.cr4;
      if X86_CR4_VMXE in value {
        return 1;
      }
      if npt && (X86_CR4_PGE in was) != (X86_CR4_PGE in value) {
        FlushTlb(flushByAsid);
      }
      cr4 := value;
      vmcb := vmcb.(cr4 := value + hostMce + (if npt then {} else {X86_CR4_PAE}));
      vmcb := vmcb.(clean := vmcb.clean - {Cr});
      return 0;
    }

    /** vmrun_set_efer. */
    method SetEfer(value: Word, npt: bool)
      requires Valid()
      modifies this`vmcb, this`efer
      ensures Valid() && Quiet() && efer == value
      ensures vmcb.efer == (if !npt && EFER_LMA !in value then value - {EFER_LME} else value) + {EFER_SVME}
    {
      efer := value;
      vmcb := vmcb.(efer := (if !npt && EFER_LMA !in value then value - {EFER_LME} else value) + {EFER_SVME});
      vmcb := vmcb.(clean := vmcb.clean - {Cr});
    }

    /** vmrun_set_segment. */
    method SetSegment(name: SegName, seg: Segment, dpl: nat)
      requires Valid()
      modifies this`vmcb
      ensures Valid() && Quiet() && vmcb.cpl == if name.SS? then dpl % 4 else old(vmcb).cpl
      ensures forall n :: SegOf(vmcb, n) == if n == name then seg else SegOf(old(vmcb), n)
    {
      match name {
        case CS => vmcb := vmcb.(cs := seg);
        case DS => vmcb := vmcb.(ds := seg);
        case ES => vmcb := vmcb.(es := seg);
        case FS => vmcb := vmcb.(fs := seg);
        case GS => vmcb := vmcb.(gs := seg);
        case SS => vmcb := vmcb.(ss := seg);
        case TR => vmcb := vmcb.(tr := seg);
        case LDTR => vmcb := vmcb.(ldtr := seg);
      }
      if name.SS? {
        vmcb := vmcb.(cpl := dpl % 4);
      }
      vmcb := vmcb.(clean := vmcb.clean - {Seg});
    }

    /** vmrun_set_idt. */
    method SetIdt(table: Table)
      requires Valid()
      modifies this`vmcb
      ensures Valid() && Quiet() && vmcb == old(vmcb).(idtr := table, clean := old(vmcb).clean - {Dt})
    {
      vmcb := vmcb.(idtr := table);
      vmcb := vmcb.(clean := vmcb.clean - {Dt});
    }

    /** vmrun_set_gdt. */
    method SetGdt(table: Table)
      requires Valid()
      modifies this`vmcb
      ensures Valid() && Quiet() && vmcb == old(vmcb).(gdtr := table, clean := old(vmcb).clean - {Dt})
    {
      vmcb := vmcb.(gdtr := table);
      vmcb := vmcb.(clean := vmcb.clean - {Dt});
    }

    /** vmrun_set_rflags: RFLAGS has no clean bit. */
    method SetRflags(value: Word)
      requires Valid()
      modifies this`vmcb
      ensures Valid() && Quiet() && vmcb == old(vmcb).(rflags := value)
    {
      vmcb := vmcb.(rflags := value);
    }

    /** vmrun_svm_vcpu_load: `c` is the processor the thread is on now, and `there` whatever that processor holds. */
    method Load(c: nat, ghost there: Vmcb)
      requires Valid()
      modifies this`vmcb, this`generation, this`home, this`cached
      ensures Valid() && home == c && generation == 0 && vmcb == old(vmcb).(clean := {})
    {
      if c != cpu {
        generation := 0;
        vmcb := vmcb.(clean := {});
      }
      home, cached := c, there;
    }
  }
}
