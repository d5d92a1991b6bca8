/** The recorders on switched segments: the concurrent runs and the sequential statistics put together. */
module SwitchedStatistics {
  import opened RecencyMaps
  import opened HashedKeys
  import opened Statistics
  import opened Recorders
  import opened SegmentSwitch

  type Records = seq<Entry<IntPair, Stat>>

  ghost function RecorderMachine(lim: Limits): Machine<Records, Event<IntPair>> {
    Machine([], (es: Records, e: Event<IntPair>) => Record(es, lim, e))
  }

  lemma {:induction false} ApplyIsRecord(lim: Limits, es: seq<Event<IntPair>>)
    ensures ApplyAll(RecorderMachine(lim), es) == RecordAll(lim, es)
  {
    hide Record;
    if es != [] {
      ApplyIsRecord(lim, es[..|es| - 1]);
    }
  }

  /**
   Under any interleaving of recorders and patient switches, each segment holds the exact statistics
   of the records made in it since its reset.
   */
  lemma SegmentsAreExact(lim: Limits, s: State<Records, Event<IntPair>>, ts: seq<Step<Event<IntPair>>>, x: Seg)
    requires Initial(RecorderMachine(lim), s) && IsRun(RecorderMachine(lim), s, ts)
    requires Patient(RecorderMachine(lim), s, ts)
    ensures Formed(After(RecorderMachine(lim), s, ts))
    ensures Exact(After(RecorderMachine(lim), s, ts).segs[x].content, lim, RecordsIn(ts, x))
  {
    hide Initial, IsRun, Patient, After, Exact, RecordAll, ApplyAll, RecordsIn, RecorderMachine;
    NothingIsLost(RecorderMachine(lim), s, ts, x);
    ApplyIsRecord(lim, RecordsIn(ts, x));
    RecordsAreExact(lim, RecordsIn(ts, x));
  }
}
