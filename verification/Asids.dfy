/** Address-space identifiers: how they are handed out per processor, and a processor TLB whose entries are tagged with
  them, over every sequence of loads, migrations, flushes, register writes and guest entries. */
module Asids {
  import opened SpteBits
  import opened Vcpus

  function Under(tlb: map<nat, set<nat>>, asid: nat): set<nat> {
    if asid in tlb then tlb[asid] else {}
  }

  /** Under an ASID of this generation only its holder has entries; under one not yet handed out nobody has. */
  ghost predicate Tags(tlb: map<nat, set<nat>>, owner: map<nat, nat>, generation: nat, next: nat, max: nat) {
    && (generation > 1 ==> forall a | 1 <= a < next :: a in owner && Under(tlb, a) <= {owner[a]})
    && forall a | next <= a <= max :: Under(tlb, a) == {}
  }

  lemma TagsFlushed(tlb: map<nat, set<nat>>, owner: map<nat, nat>, generation: nat, next: nat, max: nat, asid: nat)
    requires Tags(tlb, owner, generation, next, max)
    ensures Tags(tlb[asid := {}], owner, generation, next, max)
  {
    var t := tlb[asid := {}];
    assert Under(t, asid) == {} && forall a | a != asid :: Under(t, a) == Under(tlb, a);
  }

  lemma TagsUsed(tlb: map<nat, set<nat>>, owner: map<nat, nat>, generation: nat, next: nat, max: nat, asid: nat)
    requires Tags(tlb, owner, generation, next, max) && generation > 1 && 1 <= asid < next
    ensures asid in owner && Under(tlb, asid) <= {owner[asid]}
    ensures Tags(tlb[asid := Under(tlb, asid) + {owner[asid]}], owner, generation, next, max)
  {
    var t := tlb[asid := Under(tlb, asid) + {owner[asid]}];
    assert forall a | a != asid :: Under(t, a) == Under(tlb, a);
  }

  /** struct vmrun_cpu_data. */
  class CpuData {
    const maxAsid: nat
    var nextAsid: nat
    var generation: nat
    /** Every (generation, ASID) pair handed out so far, and who holds the ASIDs of this generation. */
    ghost var issued: set<(nat, nat)>
    ghost var owner: map<nat, nat>
    /** The TLB: under each ASID, the virtual CPUs whose translations are cached. */
    ghost var tlb: map<nat, set<nat>>

    ghost function Entries(asid: nat): set<nat>
      reads this`tlb
    {
      Under(tlb, asid)
    }

    ghost predicate Counts()
      reads this`nextAsid, this`generation, this`issued, this`owner
    {
      && 1 <= maxAsid && 1 <= nextAsid <= maxAsid + 1 && 1 <= generation
      && (generation == 1 ==> nextAsid == maxAsid + 1)
      && (generation > 1 ==> forall a | 1 <= a < nextAsid :: a in owner)
      && forall p | p in issued :: 1 <= p.1 <= maxAsid && p.0 <= generation && (p.0 == generation ==> p.1 < nextAsid)
    }

    ghost predicate Tagged()
      reads this
    {
      Tags(tlb, owner, generation, nextAsid, maxAsid)
    }

    ghost predicate Valid()
      reads this
    {
      Counts() && Tagged()
    }

    /** The part of cpu_enable that sets the ASIDs up; the TLB may hold anything. */
    constructor (maxAsid: nat, ghost tlb: map<nat, set<nat>>)
      requires 1 <= maxAsid
      ensures Valid() && issued == {} && this.maxAsid == maxAsid && generation == 1
    {
      this.maxAsid, nextAsid, generation := maxAsid, maxAsid + 1, 1;
      this.tlb, issued, owner := tlb, {}, map[];
    }
  }

  /** What a virtual CPU may rely on while its thread is on that processor. */
  ghost predicate On(v: Vcpu, cd: CpuData)
    reads v, cd`generation, cd`nextAsid, cd`owner
  {
    && v.generation <= cd.generation
    && (v.generation == cd.generation ==>
          && cd.generation > 1 && 1 <= v.vmcb.asid < cd.nextAsid
          && v.vmcb.asid in cd.owner && cd.owner[v.vmcb.asid] == v.id)
    && (v.flushOwed ==> v.vmcb.tlbCtl.FlushAsid? || v.generation < cd.generation)
    && !v.vmcb.tlbCtl.FlushAllAsid?
  }

  /** What another virtual CPU on the same processor needs to be left alone. */
  twostate predicate Grown(cd: CpuData)
    reads cd
  {
    && old(cd.generation) <= cd.generation
    && (old(cd.generation) == cd.generation ==>
          && old(cd.nextAsid) <= cd.nextAsid
          && forall a | a in old(cd.owner) && a < old(cd.nextAsid) :: a in cd.owner && cd.owner[a] == old(cd.owner)[a])
    && old(cd.issued) <= cd.issued
  }

  /** vmrun_new_asid. */
  method NewAsid(v: Vcpu, cd: CpuData)
    requires v.Valid() && cd.Valid() && !v.vmcb.tlbCtl.FlushAllAsid?
    modifies v`generation, v`vmcb, cd`generation, cd`nextAsid, cd`owner, cd`issued
    ensures v.Valid() && cd.Counts() && Grown(cd)
    ensures v.generation == cd.generation > 1
    ensures 1 <= v.vmcb.asid < cd.nextAsid && v.vmcb.asid in cd.owner && cd.owner[v.vmcb.asid] == v.id
    ensures v.vmcb == old(v.vmcb).(asid := v.vmcb.asid, tlbCtl := v.vmcb.tlbCtl, clean := old(v.vmcb).clean - {Asid})
    ensures (cd.generation, v.vmcb.asid) !in old(cd.issued) && (cd.generation, v.vmcb.asid) in cd.issued
    ensures || v.vmcb.tlbCtl.FlushAllAsid?
            || (cd.Tagged() && cd.Entries(v.vmcb.asid) == {} && v.vmcb.tlbCtl == old(v.vmcb.tlbCtl))
  {
    if cd.nextAsid > cd.maxAsid {
      cd.generation := cd.generation + 1;
      cd.nextAsid := 1;
      v.vmcb := v.vmcb.(tlbCtl := FlushAllAsid);
    }
    v.generation := cd.generation;
    v.vmcb := v.vmcb.(asid := cd.nextAsid);
    cd.owner := cd.owner[cd.nextAsid := v.id];
    cd.issued := cd.issued + {(cd.generation, cd.nextAsid)};
    cd.nextAsid := cd.nextAsid + 1;
    v.vmcb := v.vmcb.(clean := v.vmcb.clean - {Asid});
  }

  /** The VMRUN instruction, from the guest's entry to its exit. The processor takes the clean groups from its cache,
    flushes what the flush field asks for, runs the guest and writes its state back. `exit` is that state: anything. */
  method Vmrun(v: Vcpu, cd: CpuData, exit: Vmcb) returns (ghost used: Vmcb, ghost entries: set<nat>)
    requires v.Valid() && cd.Counts() && cd.generation > 1
    requires 1 <= v.vmcb.asid < cd.nextAsid && v.vmcb.asid in cd.owner && cd.owner[v.vmcb.asid] == v.id
    requires v.vmcb.tlbCtl.FlushAllAsid? || cd.Tagged()
    modifies v`vmcb, v`cached, cd`tlb
    ensures cd.Valid()
    ensures used == old(v.vmcb) && entries <= {v.id}
    ensures !old(v.vmcb).tlbCtl.DoNothing? || old(cd.Entries(v.vmcb.asid)) == {} ==> entries == {}
    ensures v.cached == v.vmcb && v.vmcb.asid == old(v.vmcb.asid) && v.vmcb.tlbCtl == old(v.vmcb.tlbCtl)
  {
    LoadsMemory(v.vmcb, v.cached);
    used := Loaded(v.vmcb, v.cached);
    ghost var asid := used.asid;
    match used.tlbCtl {
      case DoNothing =>
      case FlushAllAsid => cd.tlb := map[];
      case FlushAsid =>
        TagsFlushed(cd.tlb, cd.owner, cd.generation, cd.nextAsid, cd.maxAsid, asid);
        cd.tlb := cd.tlb[asid := {}];
    }
    entries := cd.Entries(asid);
    TagsUsed(cd.tlb, cd.owner, cd.generation, cd.nextAsid, cd.maxAsid, asid);
    cd.tlb := cd.tlb[asid := entries + {v.id}];
    var vmcb := v.vmcb;
    v.vmcb := exit.(interceptCr := vmcb.interceptCr, intercept := vmcb.intercept, iopmBase := vmcb.iopmBase,
                    asid := vmcb.asid, nestedCr3 := vmcb.nestedCr3, avic := vmcb.avic, tlbCtl := vmcb.tlbCtl,
                    clean := vmcb.clean);
    v.cached := v.vmcb;
  }

  /** vmrun_vcpu_run up to the VMRUN instruction. */
  method Prepare(v: Vcpu, cd: CpuData)
    requires v.Valid() && cd.Valid() && On(v, cd)
    modifies v`generation, v`vmcb, cd`generation, cd`nextAsid, cd`owner, cd`issued
    ensures v.Valid() && cd.Counts() && Grown(cd) && v.generation == cd.generation > 1
    ensures 1 <= v.vmcb.asid < cd.nextAsid && v.vmcb.asid in cd.owner && cd.owner[v.vmcb.asid] == v.id
    ensures v.vmcb.tlbCtl.FlushAllAsid? || cd.Tagged()
    ensures v.flushOwed ==> !v.vmcb.tlbCtl.DoNothing? || cd.Entries(v.vmcb.asid) == {}
    ensures old(v.generation) != cd.generation ==> (cd.generation, v.vmcb.asid) !in old(cd.issued)
    ensures old(v.generation) == cd.generation ==> v.vmcb.asid == old(v.vmcb.asid)
    ensures Written(v.vmcb, old(v.vmcb), v.cr2, v.cr8, v.rax, v.rsp, v.rip)
  {
    hide CleanAgrees;
    var was := v.vmcb;
    AlwaysDirty(was, v.cached, was.intCtl, was.cr2, v.rax, v.rsp, v.rip);
    v.vmcb := v.vmcb.(rax := v.rax, rsp := v.rsp, rip := v.rip);
    if v.generation != cd.generation {
      NewAsid(v, cd);
    }
    var intCtl := v.vmcb.intCtl - V_TPR_MASK;
    AlwaysDirty(v.vmcb, v.cached, intCtl + v.cr8 * V_TPR_MASK, v.cr2, v.rax, v.rsp, v.rip);
    v.vmcb := v.vmcb.(intCtl := intCtl);
    v.vmcb := v.vmcb.(intCtl := v.vmcb.intCtl + v.cr8 * V_TPR_MASK);
    v.vmcb := v.vmcb.(cr2 := v.cr2);
  }

  /** What the guest is entered with: the registers of the virtual CPU, and every other group as the setters left it. */
  ghost predicate Written(a: Vmcb, was: Vmcb, cr2: nat, cr8: Word, rax: nat, rsp: nat, rip: nat) {
    && a.cr2 == cr2 && a.intCtl == was.intCtl - V_TPR_MASK + cr8 * V_TPR_MASK
    && a.rax == rax && a.rsp == rsp && a.rip == rip && a.rflags == was.rflags
    && forall g | g in ALL_GROUPS - ALWAYS_DIRTY - {Asid} :: Same(a, was, g)
  }

  /** The groups written before every entry are not marked clean, so writing them keeps the clean bits right. */
  lemma AlwaysDirty(v: Vmcb, cached: Vmcb, intCtl: Word, cr2: nat, rax: nat, rsp: nat, rip: nat)
    requires CleanAgrees(v, cached)
    ensures CleanAgrees(v.(intCtl := intCtl, cr2 := cr2, rax := rax, rsp := rsp, rip := rip), cached)
  {
    var w := v.(intCtl := intCtl, cr2 := cr2, rax := rax, rsp := rsp, rip := rip);
    forall g | g in w.clean
      ensures Same(w, cached, g)
    {
      assert Same(v, cached, g);
    }
  }

  /** vmrun_vcpu_run. The guest runs with the VMCB that is in memory; the TLB entries it can hit are its own; if a flush
    was asked for there are none; and an ASID that changes is a pair never handed out before on this processor. */
  method Run(v: Vcpu, cd: CpuData, exit: Vmcb) returns (ghost used: Vmcb, ghost entries: set<nat>)
    requires v.Valid() && cd.Valid() && On(v, cd)
    modifies v, cd
    ensures v.Valid() && cd.Valid() && On(v, cd) && Grown(cd) && v.home == old(v.home)
    ensures entries <= {v.id} && (old(v.flushOwed) ==> entries == {}) && !v.flushOwed
    ensures 1 <= used.asid <= cd.maxAsid
    ensures old(v.generation) != cd.generation ==> (cd.generation, used.asid) !in old(cd.issued)
    ensures old(v.generation) == cd.generation ==> used.asid == old(v.vmcb.asid)
    ensures Written(used, old(v.vmcb), old(v.cr2), old(v.cr8), old(v.rax), old(v.rsp), old(v.rip))
    ensures v.vmcb.clean == ALL_GROUPS - ALWAYS_DIRTY && v.vmcb.tlbCtl.DoNothing?
  {
    hide CleanAgrees, Written, Tags;
    Prepare(v, cd);
    used, entries := Vmrun(v, cd, exit);
    Finish(v);
  }

  /** vmrun_vcpu_run after the exit. */
  method Finish(v: Vcpu)
    requires v.cpu == -1 && v.cached == v.vmcb
    modifies v
    ensures v.Valid() && !v.flushOwed && v.home == old(v.home) && v.generation == old(v.generation)
    ensures v.vmcb == old(v.vmcb).(clean := ALL_GROUPS - ALWAYS_DIRTY, tlbCtl := DoNothing)
  {
    v.flushOwed := false;
    v.cr2, v.rax, v.rsp, v.rip := v.vmcb.cr2, v.vmcb.rax, v.vmcb.rsp, v.vmcb.rip;
    if INTERCEPT_CR8_WRITE !in v.vmcb.interceptCr {
      v.cr8 := v.vmcb.intCtl * V_TPR_MASK;
    }
    AllClean(v.vmcb);
    v.vmcb := v.vmcb.(tlbCtl := DoNothing);
    v.vmcb := v.vmcb.(clean := ALL_GROUPS - ALWAYS_DIRTY);
  }

  lemma AllClean(v: Vmcb)
    ensures CleanAgrees(v.(tlbCtl := DoNothing, clean := ALL_GROUPS - ALWAYS_DIRTY), v)
  {
  }

  // ---------------------------------------------------------------- all processors and virtual CPUs

  /** The operations on a virtual CPU that do not enter the guest. */
  datatype Op =
    | OpReset(iopm: nat)
    | OpCr0(value: Word, npt: bool)
    | OpCr4(value: Word, npt: bool, hostMce: Word, flushByAsid: bool)
    | OpEfer(value: Word, npt: bool)
    | OpSegment(name: SegName, seg: Segment, dpl: nat)
    | OpIdt(table: Table)
    | OpGdt(table: Table)
    | OpRflags(value: Word)
    | OpSetIntercept(bit: nat)
    | OpClearIntercept(bit: nat)
    | OpFlush(flushByAsid: bool)

  method Apply(v: Vcpu, op: Op, ghost cd: CpuData)
    requires v.Valid() && cd.Valid() && On(v, cd)
    modifies v
    ensures v.Valid() && On(v, cd) && v.home == old(v.home)
  {
    hide CleanAgrees, Tags;
    match op {
      case OpReset(iopm) => v.Reset(iopm);
      case OpCr0(value, npt) => v.SetCr0(value, npt);
      case OpCr4(value, npt, hostMce, flushByAsid) => var r := v.SetCr4(value, npt, hostMce, flushByAsid);
      case OpEfer(value, npt) => v.SetEfer(value, npt);
      case OpSegment(name, seg, dpl) => v.SetSegment(name, seg, dpl);
      case OpIdt(table) => v.SetIdt(table);
      case OpGdt(table) => v.SetGdt(table);
      case OpRflags(value) => v.SetRflags(value);
      case OpSetIntercept(bit) => v.SetCrIntercept(bit);
      case OpClearIntercept(bit) => v.ClrCrIntercept(bit);
      case OpFlush(flushByAsid) => v.FlushTlb(flushByAsid);
    }
  }

  class Host {
    const cpus: seq<CpuData>
    const vcpus: seq<Vcpu>

    /** The state that every sequence of operations keeps. */
    ghost predicate Valid()
      reads this, cpus, vcpus
    {
      && 0 < |cpus|
      && (forall i, j | 0 <= i < j < |cpus| :: cpus[i] != cpus[j])
      && (forall i, j | 0 <= i < j < |vcpus| :: vcpus[i] != vcpus[j] && vcpus[i].id != vcpus[j].id)
      && (forall i | 0 <= i < |cpus| :: cpus[i].Valid())
      && (forall i | 0 <= i < |vcpus| ::
            vcpus[i].Valid() && vcpus[i].home < |cpus| && On(vcpus[i], cpus[vcpus[i].home]))
    }

    constructor (cpus: seq<CpuData>, vcpus: seq<Vcpu>)
      requires 0 < |cpus| && forall i, j | 0 <= i < j < |cpus| :: cpus[i] != cpus[j]
      requires forall i, j | 0 <= i < j < |vcpus| :: vcpus[i] != vcpus[j] && vcpus[i].id != vcpus[j].id
      requires forall cd | cd in cpus :: cd.Valid()
      requires forall v | v in vcpus ::
                 v.Valid() && v.generation == 0 == v.home && !v.flushOwed && v.vmcb.tlbCtl.DoNothing?
      ensures Valid() && this.cpus == cpus && this.vcpus == vcpus
    {
      this.cpus, this.vcpus := cpus, vcpus;
    }

    /** The thread of a virtual CPU is scheduled in on processor `c`. */
    method Load(n: nat, c: nat, ghost there: Vmcb)
      requires Valid() && n < |vcpus| && c < |cpus|
      modifies vcpus[n]
      ensures Valid() && vcpus[n].home == c
    {
      vcpus[n].Load(c, there);
    }

    method Do(n: nat, op: Op)
      requires Valid() && n < |vcpus|
      modifies vcpus[n]
      ensures Valid() && vcpus[n].home == old(vcpus[n].home)
    {
      hide CleanAgrees, Tags;
      Apply(vcpus[n], op, cpus[vcpus[n].home]);
    }

    /** Two virtual CPUs whose ASIDs are current on one processor have different ones. */
    lemma DistinctAsids(m: nat, n: nat)
      requires Valid() && m < n < |vcpus| && vcpus[m].home == vcpus[n].home
      requires vcpus[m].generation == vcpus[n].generation == cpus[vcpus[n].home].generation
      ensures vcpus[m].vmcb.asid != vcpus[n].vmcb.asid
    {
      var c := vcpus[n].home;
      assert On(vcpus[m], cpus[c]) && On(vcpus[n], cpus[c]);
    }

    /** A virtual CPU enters the guest on processor `c`, which is where its thread was last scheduled in. */
    method Enter(n: nat, c: nat, exit: Vmcb) returns (ghost used: Vmcb, ghost entries: set<nat>)
      requires Valid() && n < |vcpus| && c == vcpus[n].home
      modifies vcpus[n], cpus[c]
      ensures Valid() && vcpus[n].home == c
      ensures entries <= {vcpus[n].id} && (old(vcpus[n].flushOwed) ==> entries == {})
      ensures 1 <= used.asid <= cpus[c].maxAsid
      ensures Written(used, old(vcpus[n].vmcb), old(vcpus[n].cr2), old(vcpus[n].cr8), old(vcpus[n].rax),
                      old(vcpus[n].rsp), old(vcpus[n].rip))
    {
      hide CleanAgrees, Written, Tags;
      used, entries := Run(vcpus[n], cpus[c], exit);
    }
  }
}
