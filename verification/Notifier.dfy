/** Page faults racing with MMU notifier invalidations: the sequence number, the count and mmu_lock. */
module Notifier {
  type Addr = nat
  type Pfn = nat
  type Id = nat

  /** A fault handler: it has read mmu_notifier_seq, or has also looked up the page frame (at time `at`). */
  datatype Fault =
    | GotSeq(seqno: nat)
    | Looked(seqno: nat, addr: Addr, pfn: Pfn, at: nat)

  /** `host` is the host's current mapping, `active` the ranges between invalidate start and end. `time` counts the
    steps and `ended[a]` is when the last invalidation of `a` ended; both exist only to state the result. */
  datatype State = State(seqno: nat, count: int, sptes: map<Addr, Pfn>, faults: map<Id, Fault>,
                         host: map<Addr, Pfn>, active: map<Id, set<Addr>>, time: nat, ended: map<Addr, nat>)

  datatype Step =
    | InvalidateStart(inv: Id, range: set<Addr>)
    | InvalidateEnd(inv: Id)
    | HostChange(addr: Addr, pfn: Pfn)
    | HostUnmap(addr: Addr)
    | ChangePte(addr: Addr, pfn: Pfn, writable: bool)
    | ReadSeq(id: Id)
    | Lookup(id: Id, addr: Addr)
    | Install(id: Id)

  predicate Covered(s: State, a: Addr) {
    exists i | i in s.active :: a in s.active[i]
  }

  /** mmu_notifier_retry: an invalidation is going on, or one has ended since the sequence number was read. */
  predicate Retry(s: State, seqno: nat) {
    s.count != 0 || s.seqno != seqno
  }

  /** The host changes a mapping only inside an invalidation that covers it, or through change_pte. */
  predicate Enabled(s: State, step: Step) {
    match step
    case InvalidateStart(i, _) => i !in s.active
    case InvalidateEnd(i) => i in s.active
    case HostChange(a, _) => Covered(s, a)
    case HostUnmap(a) => Covered(s, a)
    case ChangePte(a, _, _) => true
    case ReadSeq(f) => true
    case Lookup(f, a) => f in s.faults && s.faults[f].GotSeq? && a in s.host
    case Install(f) => f in s.faults && s.faults[f].Looked?
  }

  function Tick(s: State): State {
    s.(time := s.time + 1)
  }

  function Next(s: State, step: Step): State
    requires Enabled(s, step)
  {
    Tick(
      match step
      case InvalidateStart(i, range) =>
        s.(count := s.count + 1, sptes := s.sptes - range, active := s.active[i := range])
      case InvalidateEnd(i) =>
        s.(seqno := s.seqno + 1, count := s.count - 1, active := s.active - {i},
           ended := map a | a in s.ended.Keys + s.active[i] :: if a in s.active[i] then s.time else s.ended[a])
      case HostChange(a, p) => s.(host := s.host[a := p])
      case HostUnmap(a) => s.(host := s.host - {a})
      case ChangePte(a, p, writable) =>
        s.(seqno := s.seqno + 1, host := s.host[a := p],
           sptes := if a !in s.sptes then s.sptes else if writable then s.sptes - {a} else s.sptes[a := p])
      case ReadSeq(f) => s.(faults := s.faults[f := GotSeq(s.seqno)])
      case Lookup(f, a) => s.(faults := s.faults[f := Looked(s.faults[f].seqno, a, s.host[a], s.time)])
      case Install(f) =>
        var k := s.faults[f];
        s.(faults := s.faults - {f}, sptes := if Retry(s, k.seqno) then s.sptes else s.sptes[k.addr := k.pfn]))
  }

  ghost predicate Inv(s: State) {
    && s.count == |s.active|
    && EntriesRight(s)
    && LookupsRight(s)
    && (forall a | a in s.ended :: s.ended[a] < s.time)
  }

  /** Every entry maps what the host has at its address, outside of all ranges being invalidated. */
  ghost predicate EntriesRight(s: State) {
    forall a | a in s.sptes :: !Covered(s, a) && a in s.host && s.host[a] == s.sptes[a]
  }

  ghost predicate LookupsRight(s: State) {
    forall f | f in s.faults ::
      && s.faults[f].seqno <= s.seqno
      && (s.faults[f].Looked? && s.faults[f].seqno == s.seqno ==> Current(s, s.faults[f]))
  }

  /** A lookup that no finished invalidation has overtaken is still right, unless one is going on. */
  predicate Current(s: State, k: Fault)
    requires k.Looked?
  {
    && k.at < s.time
    && (Covered(s, k.addr) || (k.addr in s.host && s.host[k.addr] == k.pfn))
    && (k.addr in s.ended ==> s.ended[k.addr] < k.at)
  }

  predicate Initial(s: State) {
    s.seqno == 0 && s.count == 0 && s.sptes == map[] && s.faults == map[] && s.active == map[] && s.ended == map[]
  }

  lemma StartCovers(s: State, t: State, i: Id, range: set<Addr>, a: Addr)
    requires i !in s.active && t.active == s.active[i := range]
    ensures Covered(t, a) <==> Covered(s, a) || a in range
  {
    if Covered(s, a) {
      var j :| j in s.active && a in s.active[j];
      assert j in t.active && a in t.active[j];
    }
    if a in range {
      assert i in t.active && a in t.active[i];
    }
  }

  lemma StartEntries(s: State, t: State, i: Id, range: set<Addr>)
    requires EntriesRight(s) && i !in s.active && t.active == s.active[i := range]
    requires t.sptes == s.sptes - range && t.host == s.host
    ensures EntriesRight(t)
  {
    hide Covered;
    forall a | a in t.sptes
      ensures !Covered(t, a)
    {
      StartCovers(s, t, i, range, a);
    }
  }

  lemma StartLookups(s: State, t: State, i: Id, range: set<Addr>)
    requires LookupsRight(s) && i !in s.active && t.active == s.active[i := range]
    requires t.seqno == s.seqno && t.faults == s.faults && t.host == s.host && t.ended == s.ended && s.time <= t.time
    ensures LookupsRight(t)
  {
    hide Covered;
    forall f | f in t.faults && t.faults[f].Looked? && t.faults[f].seqno == t.seqno
      ensures Current(t, t.faults[f])
    {
      StartCovers(s, t, i, range, t.faults[f].addr);
    }
  }

  lemma StartKeeps(s: State, i: Id, range: set<Addr>)
    requires Inv(s) && i !in s.active
    ensures Inv(Next(s, InvalidateStart(i, range)))
  {
    hide EntriesRight, LookupsRight;
    var t := Next(s, InvalidateStart(i, range));
    StartEntries(s, t, i, range);
    StartLookups(s, t, i, range);
    StartCounts(s.active, i, range);
  }

  lemma StartCounts(active: map<Id, set<Addr>>, i: Id, range: set<Addr>)
    requires i !in active
    ensures |active[i := range]| == |active| + 1
  {
    assert active[i := range].Keys == active.Keys + {i};
  }

  lemma EndCovers(s: State, t: State, i: Id, a: Addr)
    requires t.active == s.active - {i} && Covered(t, a)
    ensures Covered(s, a)
  {
    var j :| j in t.active && a in t.active[j];
    assert j in s.active && a in s.active[j];
  }

  lemma EndKeeps(s: State, i: Id)
    requires Inv(s) && i in s.active
    ensures Inv(Next(s, InvalidateEnd(i)))
  {
    var t := Next(s, InvalidateEnd(i));
    hide Covered, Current;
    assert t.count == |t.active| by {
      assert s.active.Keys == t.active.Keys + {i};
    }
    assert EntriesRight(t) by {
      forall a | a in t.sptes
        ensures !Covered(t, a)
      {
        assert !Covered(s, a);
        if Covered(t, a) {
          EndCovers(s, t, i, a);
          assert false;
        }
      }
    }
    assert LookupsRight(t);
  }

  lemma SameCovers(s: State, t: State, a: Addr)
    requires t.active == s.active
    ensures Covered(t, a) <==> Covered(s, a)
  {
  }

  /** The host changes only what an invalidation covers, and no entry maps that. */
  lemma HostKeeps(s: State, step: Step)
    requires Inv(s) && Enabled(s, step) && (step.HostChange? || step.HostUnmap?)
    ensures Inv(Next(s, step))
  {
    var t := Next(s, step);
    hide Covered;
    forall a { SameCovers(s, t, a); }
  }

  /** change_pte moves the sequence number, so no lookup made before it is still current. */
  lemma ChangeKeeps(s: State, a: Addr, p: Pfn, writable: bool)
    requires Inv(s)
    ensures Inv(Next(s, ChangePte(a, p, writable)))
  {
    var t := Next(s, ChangePte(a, p, writable));
    hide Covered, Current;
    forall b { SameCovers(s, t, b); }
  }

  lemma ReadKeeps(s: State, f: Id)
    requires Inv(s)
    ensures Inv(Next(s, ReadSeq(f)))
  {
    var t := Next(s, ReadSeq(f));
    hide Covered;
    forall a { SameCovers(s, t, a); }
  }

  lemma LookupKeeps(s: State, f: Id, a: Addr)
    requires Inv(s) && Enabled(s, Lookup(f, a))
    ensures Inv(Next(s, Lookup(f, a)))
  {
    var t := Next(s, Lookup(f, a));
    hide Covered;
    forall b { SameCovers(s, t, b); }
  }

  lemma NoneCovered(s: State, a: Addr)
    requires Inv(s) && s.count == 0
    ensures !Covered(s, a)
  {
    assert |s.active.Keys| == 0;
  }

  /** An install that is not retried meets no invalidation, and its lookup is current. */
  lemma InstallKeeps(s: State, f: Id)
    requires Inv(s) && Enabled(s, Install(f))
    ensures Inv(Next(s, Install(f)))
  {
    var t := Next(s, Install(f));
    hide Covered;
    forall a { SameCovers(s, t, a); }
    if !Retry(s, s.faults[f].seqno) {
      NoneCovered(s, s.faults[f].addr);
    }
  }

  lemma StepKeeps(s: State, step: Step)
    requires Inv(s) && Enabled(s, step)
    ensures Inv(Next(s, step))
  {
    hide Inv, Next;
    match step
    case InvalidateStart(i, range) => StartKeeps(s, i, range);
    case InvalidateEnd(i) => EndKeeps(s, i);
    case HostChange(_, _) => HostKeeps(s, step);
    case HostUnmap(_) => HostKeeps(s, step);
    case ChangePte(a, p, writable) => ChangeKeeps(s, a, p, writable);
    case ReadSeq(f) => ReadKeeps(s, f);
    case Lookup(f, a) => LookupKeeps(s, f, a);
    case Install(f) => InstallKeeps(s, f);
  }

  // ---------------------------------------------------------------- whole runs

  predicate IsRun(states: seq<State>, steps: seq<Step>) {
    && |states| == |steps| + 1
    && Initial(states[0])
    && (forall i | 0 <= i < |steps| :: Enabled(states[i], steps[i]) && states[i + 1] == Next(states[i], steps[i]))
  }

  lemma {:induction false} RunInv(states: seq<State>, steps: seq<Step>, i: nat)
    requires IsRun(states, steps) && i < |states|
    ensures Inv(states[i])
  {
    if i > 0 {
      RunInv(states, steps, i - 1);
      StepKeeps(states[i - 1], steps[i - 1]);
    }
  }

  /** No shadow entry maps a frame the host no longer has at that address, or lies in a range being invalidated. */
  lemma NoStaleMapping(states: seq<State>, steps: seq<Step>, i: nat, a: Addr)
    requires IsRun(states, steps) && i < |states| && a in states[i].sptes
    ensures !Covered(states[i], a)
    ensures a in states[i].host && states[i].host[a] == states[i].sptes[a]
  {
    RunInv(states, steps, i);
  }

  /** An install that takes effect uses a lookup later than every finished invalidation of its address, with no
    invalidation of it going on. */
  lemma InstallIsFresh(states: seq<State>, steps: seq<Step>, i: nat)
    requires IsRun(states, steps) && i < |steps| && steps[i].Install?
    requires !Retry(states[i], states[i].faults[steps[i].id].seqno)
    ensures var s, k := states[i], states[i].faults[steps[i].id];
            && states[i + 1].sptes == s.sptes[k.addr := k.pfn]
            && !Covered(s, k.addr) && (k.addr in s.ended ==> s.ended[k.addr] < k.at)
            && k.addr in s.host && s.host[k.addr] == k.pfn
  {
    RunInv(states, steps, i);
    var s := states[i];
    assert s.active == map[] by {
      assert |s.active.Keys| == 0;
    }
  }

  /** mmu_notifier_count is the number of invalidations going on, so it never drops below zero. */
  lemma CountIsActive(states: seq<State>, steps: seq<Step>, i: nat)
    requires IsRun(states, steps) && i < |states|
    ensures states[i].count == |states[i].active| >= 0
  {
    RunInv(states, steps, i);
  }
}
