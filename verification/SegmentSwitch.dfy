/**
 The double buffer behind the statistics: any number of recorders write to the current segment under its lock,
 while the switcher resets the standby segment, takes both locks and swaps the two.
 What a segment holds and what one record does to it are parameters.
 */
module SegmentSwitch {

  type Seg = x: int | 0 <= x < 2

  datatype Owner = Nobody | Switcher | Writer(i: nat)

  /** A segment: the cache object opened over it, its content, the records since its reset, and its lock. */
  datatype Segment<C, E> = Segment(ca: nat, content: C, history: seq<E>, owner: Owner)

  /** Where a recorder stands: it takes the segment and the cache pointer first, and only then the lock. */
  datatype Pc<C> =
    | Idle
    | HasSegment(seg: Seg)
    | HasCache(seg: Seg, ca: nat)
    | Inside(seg: Seg, ca: nat)
    | Loaded(seg: Seg, ca: nat, copy: C)
    | Stored(seg: Seg, ca: nat)

  datatype Phase = Sleeping | Resetting | ResetDone | OneLock | BothLocks | Swapped | OneReleased

  datatype State<C, E> =
    State(current: Seg, standby: Seg, segs: seq<Segment<C, E>>, writers: seq<Pc<C>>, phase: Phase, nextCa: nat)

  datatype Step<E> =
    | ReadCurrent(i: nat)
    | ReadCache(i: nat)
    | Enter(i: nat)
    | EnterThenRead(i: nat)
    | Load(i: nat)
    | Store(i: nat, record: E)
    | Leave(i: nat)
    | StartSwitch
    | FinishReset
    | LockCurrent
    | LockStandby
    | Swap
    | UnlockStandby
    | UnlockCurrent

  datatype Machine<!C, !E> = Machine(empty: C, apply: (C, E) -> C)

  /** Whether a recorder holds a lock. */
  predicate Critical<C>(p: Pc<C>) {
    p.Inside? || p.Loaded? || p.Stored?
  }

  predicate RefersTo<C>(p: Pc<C>, x: Seg) {
    !p.Idle? && p.seg == x
  }

  ghost predicate Formed<C, E>(s: State<C, E>) {
    |s.segs| == 2
  }

  /** Whether a step can be taken; a step to take a lock waits until nobody has it. */
  ghost predicate Enabled<C, E>(s: State<C, E>, t: Step<E>) {
    && Formed(s)
    && match t
      case ReadCurrent(i) => i < |s.writers| && s.writers[i].Idle?
      case ReadCache(i) => i < |s.writers| && s.writers[i].HasSegment?
      case Enter(i) => i < |s.writers| && s.writers[i].HasCache? && s.segs[s.writers[i].seg].owner == Nobody
      case EnterThenRead(i) => i < |s.writers| && s.writers[i].HasSegment? && s.segs[s.writers[i].seg].owner == Nobody
      case Load(i) => i < |s.writers| && s.writers[i].Inside?
      case Store(i, _) => i < |s.writers| && s.writers[i].Loaded?
      case Leave(i) => i < |s.writers| && s.writers[i].Stored?
      case StartSwitch => s.phase == Sleeping
      case FinishReset => s.phase == Resetting
      case LockCurrent => s.phase == ResetDone && s.segs[s.current].owner == Nobody
      case LockStandby => s.phase == OneLock && s.segs[s.standby].owner == Nobody
      case Swap => s.phase == BothLocks
      case UnlockStandby => s.phase == Swapped
      case UnlockCurrent => s.phase == OneReleased
  }

  function At<C, E>(s: State<C, E>, i: nat, p: Pc<C>): State<C, E>
    requires i < |s.writers|
  {
    s.(writers := s.writers[i := p])
  }

  function Owned<C, E>(s: State<C, E>, x: Seg, o: Owner): State<C, E>
    requires |s.segs| == 2
  {
    s.(segs := s.segs[x := s.segs[x].(owner := o)])
  }

  ghost function Next<C, E>(m: Machine<C, E>, s: State<C, E>, t: Step<E>): State<C, E>
    requires Enabled(s, t)
  {
    match t
    case ReadCurrent(i) => At(s, i, HasSegment(s.current))
    case ReadCache(i) => var x := s.writers[i].seg; At(s, i, HasCache(x, s.segs[x].ca))
    case Enter(i) => var p := s.writers[i]; Owned(At(s, i, Inside(p.seg, p.ca)), p.seg, Writer(i))
    case EnterThenRead(i) => var x := s.writers[i].seg; Owned(At(s, i, Inside(x, s.segs[x].ca)), x, Writer(i))
    case Load(i) => var p := s.writers[i]; At(s, i, Loaded(p.seg, p.ca, s.segs[p.seg].content))
    case Store(i, e) =>
      var p := s.writers[i];
      var g := s.segs[p.seg];
      At(s.(segs := s.segs[p.seg := g.(content := m.apply(p.copy, e), history := g.history + [e])]), i,
        Stored(p.seg, p.ca))
    case Leave(i) => Owned(At(s, i, Idle), s.writers[i].seg, Nobody)
    case StartSwitch => s.(phase := Resetting)
    case FinishReset =>
      var g := s.segs[s.standby];
      s.(segs := s.segs[s.standby := g.(ca := s.nextCa, content := m.empty, history := [])],
         nextCa := s.nextCa + 1, phase := ResetDone)
    case LockCurrent => Owned(s, s.current, Switcher).(phase := OneLock)
    case LockStandby => Owned(s, s.standby, Switcher).(phase := BothLocks)
    case Swap => s.(current := s.standby, standby := s.current, phase := Swapped)
    case UnlockStandby => Owned(s, s.standby, Nobody).(phase := OneReleased)
    case UnlockCurrent => Owned(s, s.current, Nobody).(phase := Sleeping)
  }

  /** The content after a list of records, one after the other. */
  ghost function ApplyAll<C, E>(m: Machine<C, E>, es: seq<E>): C {
    if es == [] then m.empty else m.apply(ApplyAll(m, es[..|es| - 1]), es[|es| - 1])
  }

  ghost predicate Initial<C, E>(m: Machine<C, E>, s: State<C, E>) {
    && Formed(s) && s.current == 0 && s.standby == 1 && s.phase == Sleeping
    && (forall i :: 0 <= i < |s.writers| ==> s.writers[i].Idle?)
    && (forall x: Seg ::
          s.segs[x].owner == Nobody && s.segs[x].history == [] && s.segs[x].content == m.empty
          && s.segs[x].ca < s.nextCa)
  }

  /** No recorder still refers to the standby segment. */
  ghost predicate Quiet<C, E>(s: State<C, E>) {
    forall i :: 0 <= i < |s.writers| ==> !RefersTo(s.writers[i], s.standby)
  }

  /** The writer uses the cache object that is open now; under the lock, nobody else changes what it has read. */
  ghost predicate WriterOk<C, E>(s: State<C, E>, i: nat)
    requires Formed(s) && i < |s.writers|
  {
    var p := s.writers[i];
    && ((p.HasCache? || Critical(p)) ==> p.ca == s.segs[p.seg].ca)
    && (Critical(p) ==> s.segs[p.seg].owner == Writer(i))
    && (p.Loaded? ==> p.copy == s.segs[p.seg].content)
  }

  /** A lock held by a recorder is held by one inside; the content is that of its history. */
  ghost predicate SegmentOk<C, E>(m: Machine<C, E>, s: State<C, E>, x: Seg)
    requires Formed(s)
  {
    var g := s.segs[x];
    && (g.owner.Writer? ==> g.owner.i < |s.writers| && Critical(s.writers[g.owner.i]) && s.writers[g.owner.i].seg == x)
    && g.content == ApplyAll(m, g.history)
    && g.ca < s.nextCa
  }

  predicate BeforeSwap(p: Phase) {
    p.Resetting? || p.ResetDone? || p.OneLock? || p.BothLocks?
  }

  predicate SwitcherHasCurrent(p: Phase) {
    p.OneLock? || p.BothLocks? || p.Swapped? || p.OneReleased?
  }

  predicate SwitcherHasStandby(p: Phase) {
    p.BothLocks? || p.Swapped?
  }

  ghost predicate PhaseOk<C, E>(m: Machine<C, E>, s: State<C, E>)
    requires Formed(s)
  {
    && s.current != s.standby
    && (BeforeSwap(s.phase) ==> Quiet(s))
    && (SwitcherHasCurrent(s.phase) <==> s.segs[s.current].owner == Switcher)
    && (SwitcherHasStandby(s.phase) <==> s.segs[s.standby].owner == Switcher)
    && (BeforeSwap(s.phase) && s.phase != Resetting ==> s.segs[s.standby].history == [])
    && (s.phase.Swapped? || s.phase.OneReleased? ==> s.segs[s.current].history == [])
  }

  ghost predicate Inv<C, E>(m: Machine<C, E>, s: State<C, E>) {
    && Formed(s)
    && (forall i :: 0 <= i < |s.writers| ==> WriterOk(s, i))
    && SegmentOk(m, s, 0) && SegmentOk(m, s, 1)
    && PhaseOk(m, s)
  }

  lemma InitialInv<C, E>(m: Machine<C, E>, s: State<C, E>)
    requires Initial(m, s)
    ensures Inv(m, s)
  {
  }

  /** Reading the pointers changes no segment. */
  lemma ReadKeeps<C, E>(m: Machine<C, E>, s: State<C, E>, t: Step<E>)
    requires Inv(m, s) && Enabled(s, t) && (t.ReadCurrent? || t.ReadCache? || t.Load?)
    ensures Inv(m, Next(m, s, t))
  {
    hide ApplyAll;
    var s' := Next(m, s, t);
    forall i | 0 <= i < |s'.writers| ensures WriterOk(s', i) {
      assert WriterOk(s, i);
    }
  }

  /** Giving back a lock. */
  lemma LeaveKeeps<C, E>(m: Machine<C, E>, s: State<C, E>, t: Step<E>)
    requires Inv(m, s) && Enabled(s, t) && t.Leave?
    ensures Inv(m, Next(m, s, t))
  {
    hide ApplyAll;
    var s' := Next(m, s, t);
    assert WriterOk(s, t.i);
    forall i | 0 <= i < |s'.writers| ensures WriterOk(s', i) {
      assert WriterOk(s, i);
    }
  }

  /** Taking a lock. */
  lemma EnterKeeps<C, E>(m: Machine<C, E>, s: State<C, E>, t: Step<E>)
    requires Inv(m, s) && Enabled(s, t) && (t.Enter? || t.EnterThenRead?)
    ensures Inv(m, Next(m, s, t))
  {
    hide ApplyAll;
    var s' := Next(m, s, t);
    assert WriterOk(s, t.i);
    forall i | 0 <= i < |s'.writers| ensures WriterOk(s', i) {
      assert WriterOk(s, i);
    }
  }

  lemma ApplyAllSnoc<C, E>(m: Machine<C, E>, es: seq<E>, e: E)
    ensures ApplyAll(m, es + [e]) == m.apply(ApplyAll(m, es), e)
  {
    assert (es + [e])[..|es|] == es;
  }

  /** A store applies its record to what the segment holds now: no update is lost. */
  lemma StoreKeeps<C, E>(m: Machine<C, E>, s: State<C, E>, t: Step<E>)
    requires Inv(m, s) && Enabled(s, t) && t.Store?
    ensures Inv(m, Next(m, s, t))
  {
    hide ApplyAll;
    var s' := Next(m, s, t);
    assert WriterOk(s, t.i);
    ApplyAllSnoc(m, s.segs[s.writers[t.i].seg].history, t.record);
    forall i | 0 <= i < |s'.writers| ensures WriterOk(s', i) {
      assert WriterOk(s, i);
    }
  }

  /** The switcher, from the end of the reset on. */
  lemma SwitchKeeps<C, E>(m: Machine<C, E>, s: State<C, E>, t: Step<E>)
    requires Inv(m, s) && Enabled(s, t)
    requires t.LockCurrent? || t.LockStandby? || t.Swap? || t.UnlockStandby? || t.UnlockCurrent?
    ensures Inv(m, Next(m, s, t))
  {
    hide ApplyAll;
    var s' := Next(m, s, t);
    forall i | 0 <= i < |s'.writers| ensures WriterOk(s', i) {
      assert WriterOk(s, i);
    }
  }

  lemma ResetKeeps<C, E>(m: Machine<C, E>, s: State<C, E>, t: Step<E>)
    requires Inv(m, s) && Enabled(s, t) && (t.FinishReset? || (t.StartSwitch? && Quiet(s)))
    ensures Inv(m, Next(m, s, t))
  {
    var s' := Next(m, s, t);
    forall i | 0 <= i < |s'.writers| ensures WriterOk(s', i) {
      assert WriterOk(s, i);
      assert !RefersTo(s.writers[i], s.standby);
    }
  }

  lemma StepKeeps<C, E>(m: Machine<C, E>, s: State<C, E>, t: Step<E>)
    requires Inv(m, s) && Enabled(s, t) && (t.StartSwitch? ==> Quiet(s))
    ensures Inv(m, Next(m, s, t))
  {
    hide Inv, Enabled, Next, Quiet;
    if t.ReadCurrent? || t.ReadCache? || t.Load? {
      ReadKeeps(m, s, t);
    } else if t.Enter? || t.EnterThenRead? {
      EnterKeeps(m, s, t);
    } else if t.Leave? {
      LeaveKeeps(m, s, t);
    } else if t.Store? {
      StoreKeeps(m, s, t);
    } else if t.FinishReset? || t.StartSwitch? {
      ResetKeeps(m, s, t);
    } else {
      SwitchKeeps(m, s, t);
    }
  }

  /** A run: steps in any order, each enabled where it is taken. */
  ghost predicate IsRun<C, E>(m: Machine<C, E>, s: State<C, E>, ts: seq<Step<E>>)
    decreases |ts|
  {
    ts == [] || (Enabled(s, ts[0]) && IsRun(m, Next(m, s, ts[0]), ts[1..]))
  }

  /** Every switch starts when no recorder refers to the standby segment any more. */
  ghost predicate Patient<C, E>(m: Machine<C, E>, s: State<C, E>, ts: seq<Step<E>>)
    requires IsRun(m, s, ts)
    decreases |ts|
  {
    ts == [] || ((ts[0].StartSwitch? ==> Quiet(s)) && Patient(m, Next(m, s, ts[0]), ts[1..]))
  }

  ghost function After<C, E>(m: Machine<C, E>, s: State<C, E>, ts: seq<Step<E>>): State<C, E>
    requires IsRun(m, s, ts)
    decreases |ts|
  {
    if ts == [] then s else After(m, Next(m, s, ts[0]), ts[1..])
  }

  lemma {:induction false} RunKeeps<C, E>(m: Machine<C, E>, s: State<C, E>, ts: seq<Step<E>>)
    requires Inv(m, s) && IsRun(m, s, ts) && Patient(m, s, ts)
    ensures Inv(m, After(m, s, ts))
    decreases |ts|
  {
    hide Inv, Enabled, Next, Quiet;
    if ts != [] {
      StepKeeps(m, s, ts[0]);
      RunKeeps(m, Next(m, s, ts[0]), ts[1..]);
    }
  }

  /** Someone who is waiting for a lock, and whom they wait for. */
  ghost predicate WaitsFor<C, E>(s: State<C, E>, a: Owner, b: Owner)
    requires Formed(s)
  {
    && b != Nobody
    && ((a.Writer? && a.i < |s.writers| && (s.writers[a.i].HasCache? || s.writers[a.i].HasSegment?)
         && s.segs[s.writers[a.i].seg].owner == b)
        || (a == Switcher && s.phase == ResetDone && s.segs[s.current].owner == b)
        || (a == Switcher && s.phase == OneLock && s.segs[s.standby].owner == b))
  }

  /** Who is inside has the lock, who has the lock is inside, and the switcher has its locks in its phases. */
  ghost predicate Locks<C, E>(s: State<C, E>) {
    && Formed(s) && s.current != s.standby
    && (forall i :: 0 <= i < |s.writers| ==> WriterLocks(s, i))
    && SegmentLocks(s, 0) && SegmentLocks(s, 1)
    && (SwitcherHasCurrent(s.phase) <==> s.segs[s.current].owner == Switcher)
    && (SwitcherHasStandby(s.phase) <==> s.segs[s.standby].owner == Switcher)
  }

  ghost predicate WriterLocks<C, E>(s: State<C, E>, i: nat)
    requires Formed(s) && i < |s.writers|
  {
    Critical(s.writers[i]) ==> s.segs[s.writers[i].seg].owner == Writer(i)
  }

  ghost predicate SegmentLocks<C, E>(s: State<C, E>, x: Seg)
    requires Formed(s)
  {
    var o := s.segs[x].owner;
    o.Writer? ==> o.i < |s.writers| && Critical(s.writers[o.i]) && s.writers[o.i].seg == x
  }

  predicate IsWriterStep<E>(t: Step<E>) {
    t.ReadCurrent? || t.ReadCache? || t.Enter? || t.EnterThenRead? || t.Load? || t.Store? || t.Leave?
  }

  lemma WriterKeepsLocks<C, E>(m: Machine<C, E>, s: State<C, E>, t: Step<E>)
    requires Locks(s) && Enabled(s, t) && IsWriterStep(t)
    ensures Locks(Next(m, s, t))
  {
    var s' := Next(m, s, t);
    assert WriterLocks(s, t.i);
    forall i | 0 <= i < |s'.writers| ensures WriterLocks(s', i) {
      assert WriterLocks(s, i);
    }
  }

  lemma SwitcherKeepsLocks<C, E>(m: Machine<C, E>, s: State<C, E>, t: Step<E>)
    requires Locks(s) && Enabled(s, t) && !IsWriterStep(t)
    ensures Locks(Next(m, s, t))
  {
    var s' := Next(m, s, t);
    forall i | 0 <= i < |s'.writers| ensures WriterLocks(s', i) {
      assert WriterLocks(s, i);
    }
  }

  lemma {:induction false} RunKeepsLocks<C, E>(m: Machine<C, E>, s: State<C, E>, ts: seq<Step<E>>)
    requires Locks(s) && IsRun(m, s, ts)
    ensures Locks(After(m, s, ts))
    decreases |ts|
  {
    hide Locks, Enabled, Next, IsWriterStep;
    if ts != [] {
      if IsWriterStep(ts[0]) {
        WriterKeepsLocks(m, s, ts[0]);
      } else {
        SwitcherKeepsLocks(m, s, ts[0]);
      }
      RunKeepsLocks(m, Next(m, s, ts[0]), ts[1..]);
    }
  }

  /** A recorder with a lock does not wait: who waits for a waiter waits for the switcher, and it for a recorder. */
  lemma WaitsEnd<C, E>(s: State<C, E>, a: Owner, b: Owner, c: Owner, d: Owner)
    requires Locks(s) && WaitsFor(s, a, b) && WaitsFor(s, b, c)
    ensures !WaitsFor(s, c, d)
  {
  }

  /** What the locks promise of every state. */
  ghost predicate Excluded<C, E>(s: State<C, E>) {
    && Formed(s)
    // the two pointers name the two segments
    && s.current != s.standby
    // the swap finds nobody inside
    && (s.phase.BothLocks? ==> forall i :: 0 <= i < |s.writers| ==> !Critical(s.writers[i]))
    // at most one recorder is inside a segment
    && (forall i, j :: 0 <= i < j < |s.writers| && Critical(s.writers[i]) && Critical(s.writers[j]) ==>
          s.writers[i].seg != s.writers[j].seg)
    // waiting does not go round in a circle: two waits in a row are the most
    && (forall a, b, c, d :: WaitsFor(s, a, b) && WaitsFor(s, b, c) ==> !WaitsFor(s, c, d))
  }

  lemma LocksExclude<C, E>(s: State<C, E>)
    requires Locks(s)
    ensures Excluded(s)
  {
    hide WaitsFor;
    forall a, b, c, d | WaitsFor(s, a, b) && WaitsFor(s, b, c) ensures !WaitsFor(s, c, d) {
      WaitsEnd(s, a, b, c, d);
    }
    forall i, j | 0 <= i < j < |s.writers| && Critical(s.writers[i]) && Critical(s.writers[j])
      ensures s.writers[i].seg != s.writers[j].seg
    {
      assert WriterLocks(s, i) && WriterLocks(s, j);
    }
    forall i | 0 <= i < |s.writers| && Critical(s.writers[i]) ensures !s.phase.BothLocks? {
      assert WriterLocks(s, i);
    }
  }

  /** In every run at all, with switches at any time: mutual exclusion and no deadlock. */
  lemma LocksAlwaysHold<C, E>(m: Machine<C, E>, s: State<C, E>, ts: seq<Step<E>>)
    requires Initial(m, s) && IsRun(m, s, ts)
    ensures Excluded(After(m, s, ts))
  {
    hide IsRun, After, Excluded;
    RunKeepsLocks(m, s, ts);
    LocksExclude(After(m, s, ts));
  }

  /** What the protocol promises of every state, on top of this, if switches are patient. */
  ghost predicate Safe<C, E>(m: Machine<C, E>, s: State<C, E>) {
    && Excluded(s)
    // reset overlaps no recorder
    && (s.phase.Resetting? ==> forall i :: 0 <= i < |s.writers| ==> !RefersTo(s.writers[i], s.standby))
    // the swap gives out an empty segment
    && (s.phase.BothLocks? ==> s.segs[s.standby].content == m.empty)
    // a recorder never works through a cache object that has been deleted
    && (forall i :: 0 <= i < |s.writers| && Critical(s.writers[i]) ==> s.writers[i].ca == s.segs[s.writers[i].seg].ca)
    // each segment holds the records since its reset, each applied once
    && (forall x: Seg :: s.segs[x].content == ApplyAll(m, s.segs[x].history))
    // nobody waits for someone who waits
    && (forall a, b, c :: WaitsFor(s, a, b) ==> !WaitsFor(s, b, c))
  }

  lemma NoWaitCycle<C, E>(m: Machine<C, E>, s: State<C, E>, a: Owner, b: Owner, c: Owner)
    requires Inv(m, s) && WaitsFor(s, a, b)
    ensures !WaitsFor(s, b, c)
  {
    hide ApplyAll;
  }

  lemma InvHasLocks<C, E>(m: Machine<C, E>, s: State<C, E>)
    requires Inv(m, s)
    ensures Locks(s)
  {
    hide ApplyAll;
    forall i | 0 <= i < |s.writers| ensures WriterLocks(s, i) {
      assert WriterOk(s, i);
    }
  }

  lemma InvIsSafe<C, E>(m: Machine<C, E>, s: State<C, E>)
    requires Inv(m, s)
    ensures Safe(m, s)
  {
    hide ApplyAll, Excluded, Locks, WaitsFor;
    InvHasLocks(m, s);
    LocksExclude(s);
    assert Formed(s);
    forall a, b, c | WaitsFor(s, a, b) ensures !WaitsFor(s, b, c) {
      NoWaitCycle(m, s, a, b, c);
    }
    forall i | 0 <= i < |s.writers| && Critical(s.writers[i]) ensures s.writers[i].ca == s.segs[s.writers[i].seg].ca {
      assert WriterOk(s, i);
    }
    if s.phase.BothLocks? {
      assert ApplyAll(m, []) == m.empty by { ApplyNone(m); }
    }
  }

  lemma ApplyNone<C, E>(m: Machine<C, E>)
    ensures ApplyAll(m, []) == m.empty
  {
  }

  /** Any number of recorders and switches, in any order: as long as switches are patient, every state is safe. */
  lemma SwitchIsSafe<C, E>(m: Machine<C, E>, s: State<C, E>, ts: seq<Step<E>>)
    requires Initial(m, s) && IsRun(m, s, ts) && Patient(m, s, ts)
    ensures Safe(m, After(m, s, ts))
  {
    hide Inv, Safe, Initial, IsRun, Patient, After;
    InitialInv(m, s);
    RunKeeps(m, s, ts);
    InvIsSafe(m, After(m, s, ts));
  }

  /** The current segment after a sequence of steps: every swap changes it. */
  ghost function CurrentAfter<E>(ts: seq<Step<E>>): Seg {
    if ts == [] then 0
    else if ts[|ts| - 1].Swap? then 1 - CurrentAfter(ts[..|ts| - 1])
    else CurrentAfter(ts[..|ts| - 1])
  }

  /** The segment that recorder i has taken last: the current one when it read the pointer. */
  ghost function SegmentTaken<E>(ts: seq<Step<E>>, i: nat): Seg {
    if ts == [] then 0
    else if ts[|ts| - 1] == ReadCurrent(i) then CurrentAfter(ts[..|ts| - 1])
    else SegmentTaken(ts[..|ts| - 1], i)
  }

  /** The records stored in x since its last reset, read off the steps alone; a reset empties the segment on standby. */
  ghost function RecordsIn<E>(ts: seq<Step<E>>, x: Seg): seq<E> {
    if ts == [] then []
    else
      var front, t := ts[..|ts| - 1], ts[|ts| - 1];
      if t.Store? && SegmentTaken(front, t.i) == x then RecordsIn(front, x) + [t.record]
      else if t.FinishReset? && CurrentAfter(front) != x then []
      else RecordsIn(front, x)
  }

  /** The state has what the steps say. */
  ghost predicate Follows<C, E>(s: State<C, E>, ts: seq<Step<E>>) {
    && Formed(s) && s.current == CurrentAfter(ts) && s.standby == 1 - s.current
    && (forall i :: 0 <= i < |s.writers| && !s.writers[i].Idle? ==> s.writers[i].seg == SegmentTaken(ts, i))
    && s.segs[0].history == RecordsIn(ts, 0) && s.segs[1].history == RecordsIn(ts, 1)
  }

  lemma FollowsStep<C, E>(m: Machine<C, E>, s: State<C, E>, ts: seq<Step<E>>, t: Step<E>)
    requires Follows(s, ts) && Enabled(s, t)
    ensures Follows(Next(m, s, t), ts + [t])
  {
    hide CurrentAfter, SegmentTaken, RecordsIn;
    StepsOneMore(ts, t);
    var s' := Next(m, s, t);
    forall i | 0 <= i < |s'.writers| && !s'.writers[i].Idle? ensures s'.writers[i].seg == SegmentTaken(ts + [t], i) {
      StepsOneMore(ts, t);
      TakenOneMore(ts, t, i);
    }
  }

  lemma StepsOneMore<E>(ts: seq<Step<E>>, t: Step<E>)
    ensures CurrentAfter(ts + [t]) == if t.Swap? then 1 - CurrentAfter(ts) else CurrentAfter(ts)
    ensures forall x: Seg :: RecordsIn(ts + [t], x) ==
                             if t.Store? && SegmentTaken(ts, t.i) == x then RecordsIn(ts, x) + [t.record]
                             else if t.FinishReset? && CurrentAfter(ts) != x then []
                             else RecordsIn(ts, x)
  {
    assert (ts + [t])[..|ts|] == ts;
  }

  lemma TakenOneMore<E>(ts: seq<Step<E>>, t: Step<E>, i: nat)
    ensures SegmentTaken(ts + [t], i) == if t == ReadCurrent(i) then CurrentAfter(ts) else SegmentTaken(ts, i)
  {
    assert (ts + [t])[..|ts|] == ts;
  }

  lemma {:induction false} RunFollows<C, E>(m: Machine<C, E>, s: State<C, E>, done: seq<Step<E>>, ts: seq<Step<E>>)
    requires Follows(s, done) && IsRun(m, s, ts)
    ensures Follows(After(m, s, ts), done + ts)
    decreases |ts|
  {
    hide Follows, Enabled, Next;
    if ts == [] {
      assert done + ts == done;
    } else {
      FollowsStep(m, s, done, ts[0]);
      RunFollows(m, Next(m, s, ts[0]), done + [ts[0]], ts[1..]);
      assert done + [ts[0]] + ts[1..] == done + ts;
    }
  }

  /** In every run at all, the history of a segment is what was stored in it since its reset. */
  lemma HistoryIsStored<C, E>(m: Machine<C, E>, s: State<C, E>, ts: seq<Step<E>>, x: Seg)
    requires Initial(m, s) && IsRun(m, s, ts)
    ensures Formed(After(m, s, ts)) && After(m, s, ts).segs[x].history == RecordsIn(ts, x)
    ensures After(m, s, ts).current == CurrentAfter(ts) && After(m, s, ts).standby == 1 - CurrentAfter(ts)
  {
    hide IsRun, After;
    RunFollows(m, s, [], ts);
    assert [] + ts == ts;
  }

  /** If switches are patient, a segment holds exactly these records, each applied once and in order. */
  lemma NothingIsLost<C, E>(m: Machine<C, E>, s: State<C, E>, ts: seq<Step<E>>, x: Seg)
    requires Initial(m, s) && IsRun(m, s, ts) && Patient(m, s, ts)
    ensures Formed(After(m, s, ts)) && After(m, s, ts).segs[x].content == ApplyAll(m, RecordsIn(ts, x))
  {
    hide Initial, IsRun, Patient, After, ApplyAll, RecordsIn, WaitsFor;
    HistoryIsStored(m, s, ts, x);
    SwitchIsSafe(m, s, ts);
  }

  /** The steps of one recording. */
  function Recording<E>(i: nat, e: E): seq<Step<E>> {
    [ReadCurrent(i)] + ([ReadCache(i)] + ([Enter(i)] + ([Load(i)] + ([Store(i, e)] + ([Leave(i)] + [])))))
  }

  /** A recorder that finds the current segment free can go through, and leaves its record there and nothing else. */
  lemma RecordingGoesThrough<C, E>(m: Machine<C, E>, s: State<C, E>, i: nat, e: E)
    requires Formed(s) && i < |s.writers| && s.writers[i].Idle? && s.segs[s.current].owner == Nobody
    ensures IsRun(m, s, Recording(i, e))
    ensures var g := s.segs[s.current];
      After(m, s, Recording(i, e)) ==
        s.(segs := s.segs[s.current := g.(content := m.apply(g.content, e), history := g.history + [e])])
  {
    hide IsRun, After;
    var s1 := Next(m, s, ReadCurrent(i));
    var s2 := Next(m, s1, ReadCache(i));
    var s3 := Next(m, s2, Enter(i));
    var s4 := Next(m, s3, Load(i));
    var s5 := Next(m, s4, Store(i, e));
    var s6 := Next(m, s5, Leave(i));
    RunNone(m, s6);
    RunCons(m, s5, Leave(i), []);
    RunCons(m, s4, Store(i, e), [Leave(i)] + []);
    RunCons(m, s3, Load(i), [Store(i, e)] + ([Leave(i)] + []));
    RunCons(m, s2, Enter(i), [Load(i)] + ([Store(i, e)] + ([Leave(i)] + [])));
    RunCons(m, s1, ReadCache(i), [Enter(i)] + ([Load(i)] + ([Store(i, e)] + ([Leave(i)] + []))));
    RunCons(m, s, ReadCurrent(i), [ReadCache(i)] + ([Enter(i)] + ([Load(i)] + ([Store(i, e)] + ([Leave(i)] + [])))));
    assert s6.writers == s.writers;
    var g := s.segs[s.current];
    assert s6.segs == s.segs[s.current := g.(content := m.apply(g.content, e), history := g.history + [e])];
  }

  /** The steps of one switch: up to both locks, and from there on. */
  function Locking<E>(): seq<Step<E>> {
    [StartSwitch] + ([FinishReset] + ([LockCurrent] + ([LockStandby] + [])))
  }

  function Swapping<E>(): seq<Step<E>> {
    [Swap] + ([UnlockStandby] + ([UnlockCurrent] + []))
  }

  lemma LockingGoesThrough<C, E>(m: Machine<C, E>, s: State<C, E>)
    requires Formed(s) && s.phase == Sleeping && s.current != s.standby
    requires s.segs[0].owner == Nobody && s.segs[1].owner == Nobody
    ensures IsRun(m, s, Locking())
    ensures After(m, s, Locking()) ==
      s.(segs := s.segs[s.standby := Segment(s.nextCa, m.empty, [], Switcher)]
                       [s.current := s.segs[s.current].(owner := Switcher)],
         nextCa := s.nextCa + 1, phase := BothLocks)
  {
    hide IsRun, After;
    var s1 := Next(m, s, StartSwitch);
    var s2 := Next(m, s1, FinishReset);
    var s3 := Next(m, s2, LockCurrent);
    var s4 := Next(m, s3, LockStandby);
    RunNone(m, s4);
    RunCons(m, s3, LockStandby, []);
    RunCons(m, s2, LockCurrent, [LockStandby] + []);
    RunCons(m, s1, FinishReset, [LockCurrent] + ([LockStandby] + []));
    RunCons(m, s, StartSwitch, [FinishReset] + ([LockCurrent] + ([LockStandby] + [])));
    assert s4.segs ==
      s.segs[s.standby := Segment(s.nextCa, m.empty, [], Switcher)][s.current := s.segs[s.current].(owner := Switcher)];
  }

  lemma SwappingGoesThrough<C, E>(m: Machine<C, E>, s: State<C, E>)
    requires Formed(s) && s.phase == BothLocks && s.current != s.standby
    ensures IsRun(m, s, Swapping())
    ensures After(m, s, Swapping()) ==
      s.(segs := [s.segs[0].(owner := Nobody), s.segs[1].(owner := Nobody)],
         current := s.standby, standby := s.current, phase := Sleeping)
  {
    hide IsRun, After;
    var s1 := Next(m, s, Swap);
    var s2 := Next(m, s1, UnlockStandby);
    var s3 := Next(m, s2, UnlockCurrent);
    RunNone(m, s3);
    RunCons(m, s2, UnlockCurrent, []);
    RunCons(m, s1, UnlockStandby, [UnlockCurrent] + []);
    RunCons(m, s, Swap, [UnlockStandby] + ([UnlockCurrent] + []));
    assert s3.segs == [s.segs[0].(owner := Nobody), s.segs[1].(owner := Nobody)];
  }

  lemma {:induction false} RunAppend<C, E>(m: Machine<C, E>, s: State<C, E>, ts: seq<Step<E>>, us: seq<Step<E>>)
    requires IsRun(m, s, ts) && IsRun(m, After(m, s, ts), us)
    ensures IsRun(m, s, ts + us) && After(m, s, ts + us) == After(m, After(m, s, ts), us)
    decreases |ts|
  {
    hide Enabled, Next;
    if ts == [] {
      assert ts + us == us;
    } else {
      RunAppend(m, Next(m, s, ts[0]), ts[1..], us);
      assert (ts + us)[1..] == ts[1..] + us;
    }
  }

  /** A switch that finds both segments free can go through: an empty segment is current then, the other as it was. */
  lemma SwitchGoesThrough<C, E>(m: Machine<C, E>, s: State<C, E>)
    requires Formed(s) && s.phase == Sleeping && s.current != s.standby
    requires s.segs[0].owner == Nobody && s.segs[1].owner == Nobody
    ensures IsRun(m, s, Locking() + Swapping())
    ensures After(m, s, Locking() + Swapping()) ==
      s.(segs := s.segs[s.standby := Segment(s.nextCa, m.empty, [], Nobody)],
         current := s.standby, standby := s.current, nextCa := s.nextCa + 1)
  {
    hide IsRun, After, Locking, Swapping;
    LockingGoesThrough(m, s);
    var t := After(m, s, Locking());
    SwappingGoesThrough(m, t);
    RunAppend(m, s, Locking(), Swapping());
    assert [t.segs[0].(owner := Nobody), t.segs[1].(owner := Nobody)] ==
      s.segs[s.standby := Segment(s.nextCa, m.empty, [], Nobody)];
  }

  lemma RunNone<C, E>(m: Machine<C, E>, s: State<C, E>)
    ensures IsRun(m, s, []) && After(m, s, []) == s
  {
  }

  /** A recorder is inside the segment that is being reset. */
  ghost predicate Overlap<C, E>(s: State<C, E>) {
    s.phase.Resetting? && exists i :: 0 <= i < |s.writers| && Critical(s.writers[i]) && s.writers[i].seg == s.standby
  }

  /** A switch that starts now can come to overlap a recorder before the next one starts. */
  ghost predicate OverlapAhead<C, E(!new)>(m: Machine<C, E>, s: State<C, E>) {
    exists ts: seq<Step<E>> :: Overlapping(m, s, ts)
  }

  ghost predicate Overlapping<C, E>(m: Machine<C, E>, s: State<C, E>, ts: seq<Step<E>>) {
    && ts != [] && ts[0] == StartSwitch && OneSwitch(ts[1..])
    && IsRun(m, s, ts) && Overlap(After(m, s, ts))
  }

  ghost predicate OneSwitch<E>(ts: seq<Step<E>>) {
    forall k :: 0 <= k < |ts| ==> !ts[k].StartSwitch?
  }

  lemma {:induction false} OneSwitchIsPatient<C, E>(m: Machine<C, E>, s: State<C, E>, ts: seq<Step<E>>)
    requires IsRun(m, s, ts) && OneSwitch(ts)
    ensures Patient(m, s, ts)
    decreases |ts|
  {
    hide Enabled, Next;
    if ts != [] {
      OneSwitchIsPatient(m, Next(m, s, ts[0]), ts[1..]);
    }
  }

  lemma QuietSwitch<C, E>(m: Machine<C, E>, s: State<C, E>, ts: seq<Step<E>>)
    requires Inv(m, s) && Quiet(s)
    ensures !Overlapping(m, s, ts)
  {
    hide Inv, Enabled, Next, Quiet;
    if Overlapping(m, s, ts) {
      OneSwitchIsPatient(m, Next(m, s, ts[0]), ts[1..]);
      RunKeeps(m, s, ts);
      InvIsSafe(m, After(m, s, ts));
      assert false;
    }
  }

  lemma EarlySwitch<C, E>(m: Machine<C, E>, s: State<C, E>, i: nat) returns (ts: seq<Step<E>>)
    requires Inv(m, s) && s.phase == Sleeping && i < |s.writers| && RefersTo(s.writers[i], s.standby)
    ensures Overlapping(m, s, ts)
  {
    hide ApplyAll;
    var p := s.writers[i];
    assert WriterOk(s, i);
    var s1 := Next(m, s, StartSwitch);
    var more: seq<Step<E>> := [];
    var j := i;
    if Critical(p) {
      assert Overlap(After(m, s1, more));
    } else if s.segs[s.standby].owner != Nobody {
      j := s.segs[s.standby].owner.i;
      assert Critical(s1.writers[j]);
    } else if p.HasCache? {
      more := [Enter(i)];
      RunCons(m, s1, Enter(i), []);
      assert Critical(After(m, s1, more).writers[j]);
    } else {
      var s2 := Next(m, s1, ReadCache(i));
      RunCons(m, s2, Enter(i), []);
      more := [ReadCache(i)] + [Enter(i)];
      RunCons(m, s1, ReadCache(i), [Enter(i)]);
      assert Critical(After(m, s1, more).writers[j]);
    }
    ts := [StartSwitch] + more;
    assert ts[1..] == more;
    RunCons(m, s, StartSwitch, more);
  }

  lemma RunCons<C, E>(m: Machine<C, E>, s: State<C, E>, t: Step<E>, ts: seq<Step<E>>)
    requires Enabled(s, t) && IsRun(m, Next(m, s, t), ts)
    ensures IsRun(m, s, [t] + ts) && After(m, s, [t] + ts) == After(m, Next(m, s, t), ts)
    ensures IsRun(m, s, []) && After(m, s, []) == s && [t] + [] == [t]
  {
    hide Enabled, Next;
    assert ([t] + ts)[1..] == ts;
  }

  /** Waiting for the late recorders is not only enough but also needed. */
  lemma PatienceIsExact<C, E(!new)>(m: Machine<C, E>, s: State<C, E>)
    requires Inv(m, s) && s.phase == Sleeping
    ensures Quiet(s) <==> !OverlapAhead(m, s)
  {
    hide Inv, Overlapping, RefersTo;
    if Quiet(s) {
      forall ts: seq<Step<E>> ensures !Overlapping(m, s, ts) {
        QuietSwitch(m, s, ts);
      }
    } else {
      var i :| 0 <= i < |s.writers| && RefersTo(s.writers[i], s.standby);
      var ts := EarlySwitch(m, s, i);
    }
  }
}
