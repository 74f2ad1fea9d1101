/** One last-level shadow entry, changed by three parties at once: the hardware walker, a fast page fault
  (read, then cmpxchg) and the holder of mmu_lock (read, then plain store or xchg). A ghost TLB records
  whether a writable translation of the entry may be cached. */
module SpteProtocol {
  import opened Options
  import opened SpteBits

  /** What the lock holder is doing: it has decided on `after`, loaded `before`, or stored. `deferred` marks the
    dirty-logging write protection, whose flush is left to a later time outside the lock. */
  datatype Lock =
    | Idle
    | Begun(after: Word, deferred: bool)
    | Loaded(before: Word, after: Word, deferred: bool)
    | Stored(before: Word, after: Word, deferred: bool)

  /** `touched` and `wrote` are the frames the guest accessed and wrote through this entry since the kernel last
    collected that information; `accessedPfns` and `dirtyPfns` are the frames flagged with vmrun_set_pfn_accessed
    and vmrun_set_pfn_dirty; `owed` says that a TLB flush has been signalled and not yet done. */
  datatype State = State(word: Word, lock: Lock, fast: Option<Word>, touched: set<Word>, wrote: set<Word>,
                         accessedPfns: set<Word>, dirtyPfns: set<Word>, cached: bool, owed: bool)

  datatype Step =
    | Walk(write: bool)
    | FastRead
    | FastCas(write: bool)
    | Protect(pt: bool)
    | Update(after: Word)
    | Clear
    | Load
    | Store
    | Finish
    | Flush
    | CollectAccessed(pfn: Word)
    | CollectDirty(pfn: Word)

  const Start := State({}, Idle, None, {}, {}, {}, {}, false, false)

  /** An entry of the protocol: not present, or a mapping of a page frame that is writable only with both software bits
    set. */
  predicate Mapping(m: Masks, s: Word) {
    s == {} || (Present(m, s) && (IsWritable(s) ==> Lockless(s)) && PfnBits(s) <= m.frame)
  }

  /** The value spte_write_protect stores. */
  function ProtectedWord(s: Word, pt: bool): Word {
    s - {PT_WRITABLE} - (if pt then {SPTE_MMU_WRITEABLE} else {})
  }

  /** spte_write_protect returns at once for an entry that needs nothing. */
  predicate NothingToProtect(s: Word, pt: bool) {
    !IsWritable(s) && !(pt && Lockless(s))
  }

  /** The result of mmu_spte_update, or for a cleared entry that its callers flush. */
  predicate NeedsFlush(m: Masks, before: Word, after: Word) {
    Present(m, before) &&
    if after == {} then true
    else || (Lockless(before) && !IsWritable(after))
         || (IsAccessed(m, before) && !IsAccessed(m, after))
         || (IsDirty(m, before) && !IsDirty(m, after))
  }

  predicate MarksAccessed(m: Masks, before: Word, after: Word) {
    Present(m, before) && IsAccessed(m, before) && (after == {} || !IsAccessed(m, after))
  }

  predicate MarksDirty(m: Masks, before: Word, after: Word) {
    Present(m, before) && IsDirty(m, before) && (after == {} || !IsDirty(m, after))
  }

  ghost predicate Enabled(m: Masks, s: State, step: Step) {
    match step
    case Walk(write) => Present(m, s.word) && !IsAccessTrack(m, s.word) && (write ==> IsWritable(s.word))
    case FastRead => true
    case FastCas(_) => s.fast.Some?
    case Protect(_) => s.lock.Idle? && s.word != {}
    case Update(after) =>
      && s.lock.Idle? && after != {} && Mapping(m, after)
      && (s.word != {} ==> PfnBits(after) == PfnBits(s.word))
    case Clear => s.lock.Idle?
    case Load => s.lock.Begun?
    case Store => s.lock.Loaded?
    case Finish => s.lock.Stored?
    case Flush => true
    case CollectAccessed(p) => p in s.accessedPfns
    case CollectDirty(p) => p in s.dirtyPfns
  }

  ghost function Next(m: Masks, s: State, step: Step): State
    requires Enabled(m, s, step)
  {
    match step
    case Walk(write) =>
      s.(word := Walked(m, s.word, write), touched := s.touched + {PfnBits(s.word)},
         wrote := if write then s.wrote + {PfnBits(s.word)} else s.wrote,
         cached := s.cached || IsWritable(s.word))
    case FastRead => s.(fast := Some(s.word))
    case FastCas(write) =>
      s.(fast := None, word := if s.word == s.fast.value then FastFixed(m, s.word, write) else s.word)
    case Protect(pt) =>
      if NothingToProtect(s.word, pt) then s else s.(lock := Begun(ProtectedWord(s.word, pt), !pt))
    case Update(after) => s.(lock := Begun(after, false))
    case Clear => s.(lock := Begun({}, false))
    case Load => s.(lock := Loaded(s.word, s.lock.after, s.lock.deferred))
    case Store =>
      var before := if HasVolatileBits(m, s.lock.before) then s.word else s.lock.before;
      s.(word := s.lock.after, lock := Stored(before, s.lock.after, s.lock.deferred))
    case Finish =>
      var before, after := s.lock.before, s.lock.after;
      s.(lock := Idle,
         accessedPfns := if MarksAccessed(m, before, after) then s.accessedPfns + {PfnBits(before)} else s.accessedPfns,
         dirtyPfns := if MarksDirty(m, before, after) then s.dirtyPfns + {PfnBits(before)} else s.dirtyPfns,
         owed := s.owed || (NeedsFlush(m, before, after) && !s.lock.deferred))
    case Flush => s.(cached := false, owed := false)
    case CollectAccessed(p) => s.(accessedPfns := s.accessedPfns - {p}, touched := s.touched - {p})
    case CollectDirty(p) => s.(dirtyPfns := s.dirtyPfns - {p}, wrote := s.wrote - {p})
  }

  // ---------------------------------------------------------------- invariant

  predicate ShowsAccess(m: Masks, s: Word, p: Word) {
    Present(m, s) && PfnBits(s) == p && IsAccessed(m, s)
  }

  predicate ShowsWrite(m: Masks, s: Word, p: Word) {
    Present(m, s) && PfnBits(s) == p && IsDirty(m, s)
  }

  /** `t` is what concurrent steps can have made of `s`. */
  predicate Grown(m: Masks, s: Word, t: Word) {
    && (s == {} <==> t == {})
    && PfnBits(t) == PfnBits(s) && Lockless(t) == Lockless(s)
    && (IsAccessed(m, s) ==> IsAccessed(m, t)) && (IsDirty(m, s) ==> IsDirty(m, t))
  }

  predicate SameFrame(s: Word, t: Word) {
    s != {} && t != {} ==> PfnBits(s) == PfnBits(t)
  }

  predicate LockInv(m: Masks, s: State) {
    match s.lock
    case Idle => true
    case Begun(after, deferred) =>
      && Mapping(m, after) && SameFrame(s.word, after)
      && (deferred ==> s.word != {} && after != {} && Lockless(after) == Lockless(s.word))
    case Loaded(before, after, deferred) =>
      && Mapping(m, before) && Mapping(m, after) && SameFrame(s.word, after) && Grown(m, before, s.word)
      && (!HasVolatileBits(m, before) ==> s.word == before)
      && (deferred ==> s.word != {} && after != {} && Lockless(after) == Lockless(s.word))
    case Stored(before, after, deferred) =>
      && Mapping(m, before) && SameFrame(before, after) && Grown(m, after, s.word) && Mapping(m, after)
      && (deferred ==> before != {} && after != {} && Lockless(after) == Lockless(before))
  }

  ghost predicate Evidence(m: Masks, s: State) {
    && (forall p | p in s.touched ::
        p in s.accessedPfns || ShowsAccess(m, s.word, p) || (s.lock.Stored? && ShowsAccess(m, s.lock.before, p)))
    && (forall p | p in s.wrote ::
        p in s.dirtyPfns || ShowsWrite(m, s.word, p) || (s.lock.Stored? && ShowsWrite(m, s.lock.before, p)))
  }

  /** A writable translation is cached only while both software bits are set or a flush is signalled or about to be. */
  predicate TlbInv(s: State) {
    s.cached ==> s.owed || Lockless(s.word) || (s.lock.Stored? && Lockless(s.lock.before) && !s.lock.deferred)
  }

  ghost predicate Inv(m: Masks, s: State) {
    && Mapping(m, s.word)
    && (s.fast.Some? ==> Mapping(m, s.fast.value))
    && LockInv(m, s)
    && Evidence(m, s)
    && TlbInv(s)
  }

  // ---------------------------------------------------------------- steps

  lemma EmptyWord(m: Masks, write: bool)
    requires Configured(m) && Telling(m)
    ensures FastFixed(m, {}, write) == {}
  {}

  /** A concurrent change of the word that only grows it keeps the invariant. */
  lemma GrowKeeps(m: Masks, s: State, t: Word)
    requires Inv(m, s) && Mapping(m, t) && Grown(m, s.word, t)
    requires s.lock.Loaded? && !HasVolatileBits(m, s.lock.before) ==> t == s.word
    ensures Inv(m, s.(word := t))
  {
    hide HasVolatileBits, IsAccessed, IsDirty, PfnBits, IsMmio;
    forall p
      ensures ShowsAccess(m, s.word, p) ==> ShowsAccess(m, t, p)
      ensures ShowsWrite(m, s.word, p) ==> ShowsWrite(m, t, p)
    {}
  }

  lemma GrownByWalk(m: Masks, s: Word, write: bool)
    requires Configured(m) && Telling(m) && Mapping(m, s) && Present(m, s) && !IsAccessTrack(m, s)
             && (write ==> IsWritable(s))
    ensures var t := Walked(m, s, write);
            && Mapping(m, t) && Grown(m, s, t) && ShowsAccess(m, t, PfnBits(s))
            && (write ==> ShowsWrite(m, t, PfnBits(s)))
    ensures !HasVolatileBits(m, s) ==> Walked(m, s, write) == s
  {
    WalkedKeeps(m, s, write);
    if !HasVolatileBits(m, s) {
      NotVolatileIsStable(m, s, write);
    }
  }

  lemma GrownByFast(m: Masks, s: Word, write: bool)
    requires Configured(m) && Telling(m) && Mapping(m, s)
    ensures Mapping(m, FastFixed(m, s, write)) && Grown(m, s, FastFixed(m, s, write))
    ensures !HasVolatileBits(m, s) ==> FastFixed(m, s, write) == s
  {
    if s == {} {
      EmptyWord(m, write);
    } else {
      FastFixedKeeps(m, s, write);
      assert s - Changeable(m) == FastFixed(m, s, write) - Changeable(m);
      StaysPresent(m, s, FastFixed(m, s, write));
    }
    if !HasVolatileBits(m, s) {
      NotVolatileIsStable(m, s, write);
    }
  }

  lemma WalkKeeps(m: Masks, s: State, write: bool)
    requires Configured(m) && Telling(m) && Inv(m, s) && Enabled(m, s, Walk(write))
    ensures Inv(m, Next(m, s, Walk(write)))
  {
    hide Configured, HasVolatileBits, IsDirty, IsAccessed, PfnBits, IsMmio, Walked, AdEnabled, Lockless;
    GrownByWalk(m, s.word, write);
    GrowKeeps(m, s, Walked(m, s.word, write));
  }

  lemma FastKeeps(m: Masks, s: State, write: bool)
    requires Configured(m) && Telling(m) && Inv(m, s) && Enabled(m, s, FastCas(write))
    ensures Inv(m, Next(m, s, FastCas(write)))
  {
    hide Configured, HasVolatileBits, IsDirty, IsAccessed, PfnBits, IsMmio, FastFixed, AdEnabled, Lockless;
    if s.word == s.fast.value {
      GrownByFast(m, s.word, write);
      GrowKeeps(m, s, FastFixed(m, s.word, write));
    }
  }

  lemma ProtectedMapping(m: Masks, s: Word, pt: bool)
    requires Configured(m) && Telling(m) && Mapping(m, s) && s != {} && !NothingToProtect(s, pt)
    ensures ProtectedWord(s, pt) != {}
    ensures Mapping(m, ProtectedWord(s, pt)) && PfnBits(ProtectedWord(s, pt)) == PfnBits(s)
    ensures !pt ==> Lockless(ProtectedWord(s, pt)) == Lockless(s)
  {
    assert SPTE_HOST_WRITEABLE in ProtectedWord(s, pt);
    assert PfnBits(ProtectedWord(s, pt)) == PfnBits(s);
    assert s - Changeable(m) == ProtectedWord(s, pt) - Changeable(m);
    StaysPresent(m, s, ProtectedWord(s, pt));
  }

  lemma LockKeeps(m: Masks, s: State, step: Step)
    requires Configured(m) && Telling(m) && Inv(m, s) && Enabled(m, s, step)
    requires step.Protect? || step.Update? || step.Clear? || step.Load? || step.Store?
    ensures Inv(m, Next(m, s, step))
  {
    if step.Protect? && !NothingToProtect(s.word, step.pt) {
      ProtectedMapping(m, s.word, step.pt);
    }
    hide IsDirty, IsAccessed, PfnBits, IsMmio, AdEnabled, HasVolatileBits, ProtectedWord;
  }

  lemma FinishKeeps(m: Masks, s: State)
    requires Configured(m) && Telling(m) && Inv(m, s) && Enabled(m, s, Finish)
    ensures Inv(m, Next(m, s, Finish))
  {
    hide IsDirty, IsAccessed, PfnBits, IsMmio, AdEnabled, HasVolatileBits;
    var t := Next(m, s, Finish);
    forall p | p in t.touched
      ensures p in t.accessedPfns || ShowsAccess(m, t.word, p)
    {}
    forall p | p in t.wrote
      ensures p in t.dirtyPfns || ShowsWrite(m, t.word, p)
    {}
  }

  lemma StepKeeps(m: Masks, s: State, step: Step)
    requires Configured(m) && Telling(m) && Inv(m, s) && Enabled(m, s, step)
    ensures Inv(m, Next(m, s, step))
  {
    match step
    case Walk(write) => WalkKeeps(m, s, write);
    case FastCas(write) => FastKeeps(m, s, write);
    case Finish => FinishKeeps(m, s);
    case Protect(_) => LockKeeps(m, s, step);
    case Update(_) => LockKeeps(m, s, step);
    case Clear => LockKeeps(m, s, step);
    case Load => LockKeeps(m, s, step);
    case Store => LockKeeps(m, s, step);
    case FastRead =>
    case Flush =>
    case CollectAccessed(_) =>
    case CollectDirty(_) =>
  }

  // ---------------------------------------------------------------- whole runs

  /** `states` is a run from the empty entry: any interleaving of enabled steps. */
  ghost predicate IsRun(m: Masks, states: seq<State>, steps: seq<Step>) {
    && |states| == |steps| + 1
    && states[0] == Start
    && (forall i | 0 <= i < |steps| :: Enabled(m, states[i], steps[i]) && states[i + 1] == Next(m, states[i], steps[i]))
  }

  lemma {:induction false} RunInv(m: Masks, states: seq<State>, steps: seq<Step>, i: nat)
    requires Configured(m) && Telling(m) && IsRun(m, states, steps) && i < |states|
    ensures Inv(m, states[i])
  {
    if i > 0 {
      RunInv(m, states, steps, i - 1);
      StepKeeps(m, states[i - 1], steps[i - 1]);
    }
  }

  /** Whatever the interleaving, an access or a write the kernel has not collected shows in the entry
    or on the frame. */
  lemma NoEvidenceLost(m: Masks, states: seq<State>, steps: seq<Step>, i: nat)
    requires Configured(m) && Telling(m) && IsRun(m, states, steps) && i < |states| && states[i].lock.Idle?
    ensures forall p | p in states[i].touched :: p in states[i].accessedPfns || ShowsAccess(m, states[i].word, p)
    ensures forall p | p in states[i].wrote :: p in states[i].dirtyPfns || ShowsWrite(m, states[i].word, p)
  {
    RunInv(m, states, steps, i);
  }

  /** Whenever the lock holder takes the plain store, nobody has changed the entry since it was loaded, so the
    store returns the same old value as an xchg would. */
  lemma PlainStoreIsExchange(m: Masks, states: seq<State>, steps: seq<Step>, i: nat)
    requires Configured(m) && Telling(m) && IsRun(m, states, steps) && i < |states|
    requires states[i].lock.Loaded? && !HasVolatileBits(m, states[i].lock.before)
    ensures states[i].word == states[i].lock.before
  {
    RunInv(m, states, steps, i);
  }

  /** Once an entry lacks one of the software bits, as after write protection for shadowing, a writable translation
    can still be cached only if a flush has been signalled: also when an earlier dirty-logging protection
    deferred its flush. */
  lemma ProtectedNotCached(m: Masks, states: seq<State>, steps: seq<Step>, i: nat)
    requires Configured(m) && Telling(m) && IsRun(m, states, steps) && i < |states| && states[i].lock.Idle?
             && !Lockless(states[i].word)
    ensures states[i].cached ==> states[i].owed
  {
    RunInv(m, states, steps, i);
  }

  /** The lock holder is taking both write permissions from an entry that has both software bits. */
  predicate Protecting(s: State) {
    match s.lock
    case Idle => false
    case Begun(after, deferred) => !deferred && Lockless(s.word) && !IsWritable(after)
    case Loaded(before, after, deferred) => !deferred && Lockless(before) && !IsWritable(after)
    case Stored(before, after, deferred) => !deferred && Lockless(before) && !IsWritable(after)
  }

  /** No other party can get in the way of it. */
  lemma ProtectingStep(m: Masks, s: State, step: Step)
    requires Configured(m) && Telling(m) && Inv(m, s) && Enabled(m, s, step) && Protecting(s) && !step.Finish?
    ensures Protecting(Next(m, s, step))
  {
    match step
    case Walk(write) => GrownByWalk(m, s.word, write);
    case FastCas(write) =>
      if s.word == s.fast.value {
        GrownByFast(m, s.word, write);
      }
    case _ =>
      hide HasVolatileBits, IsDirty, IsAccessed, PfnBits, IsMmio;
  }

  lemma {:induction false} ProtectingRun(m: Masks, states: seq<State>, steps: seq<Step>, i: nat, j: nat)
    requires Configured(m) && Telling(m) && IsRun(m, states, steps) && i <= j < |states| && Protecting(states[i])
    requires forall k | i <= k < j :: !steps[k].Finish?
    ensures Protecting(states[j])
  {
    hide Inv, Protecting, Next, Enabled;
    if i < j {
      ProtectingRun(m, states, steps, i, j - 1);
      RunInv(m, states, steps, j - 1);
      ProtectingStep(m, states[j - 1], steps[j - 1]);
    }
  }

  /** The rule that mmu.h gives for the two sorts of write protection, in its direct form. Protection for shadowing that
    comes upon an entry while a writable translation of it may be cached, and no flush is signalled, is not skipped, and
    the update it makes signals a flush, whatever the other parties do in between. */
  lemma ProtectAsksForFlush(m: Masks, states: seq<State>, steps: seq<Step>, i: nat, j: nat)
    requires Configured(m) && Telling(m) && IsRun(m, states, steps) && i < j < |steps|
    requires steps[i] == Protect(true) && states[i].cached && !states[i].owed
    requires steps[j].Finish? && forall k | i < k < j :: !steps[k].Finish?
    ensures !NothingToProtect(states[i].word, true)
    ensures NeedsFlush(m, states[j].lock.before, states[j].lock.after) && states[j + 1].owed
  {
    hide HasVolatileBits, IsDirty, IsAccessed, PfnBits, IsMmio;
    RunInv(m, states, steps, i);
    assert states[i + 1] == Next(m, states[i], steps[i]);
    assert Protecting(states[i + 1]);
    ProtectingRun(m, states, steps, i + 1, j);
    RunInv(m, states, steps, j);
    assert states[j + 1] == Next(m, states[j], steps[j]);
  }
}
