/** When an insertion is refused in a concurrent run, and that a call running alone ends. */
module LeapfrogRefusal {
  import opened Options
  import opened LeapfrogTable
  import opened LeapfrogProtocol
  import opened LeapfrogInvariant
  import opened LeapfrogSteps
  import opened LeapfrogLinearizability
  import opened LeapfrogRuns
  import opened LeapfrogFull
  import opened LeapfrogMap

  /** No cell is claimed for the key, its home cell is taken, and so is every cell within a probe's reach of the last
      node of its bucket. */
  ghost predicate Closed(c: Config, m: Memory, k: Key)
    requires 0 < |m.cells|
  {
    && k !in m.cellOf
    && Claimed(m.cells, Home(c, m, k), 0)
    && Crowded(m.cells, c.threshold, Home(c, m, k))
  }

  ghost predicate ClosedAt(c: Config, states: seq<State>, j: nat, k: Key) {
    j < |states| && 0 < |states[j].mem.cells| && Closed(c, states[j].mem, k)
  }

  // ---------------------------------------------------------------- a refusal is justified

  /** Behind a node that is not the last, a cell of the bucket lies within a probe's reach. */
  lemma NextIsWithinReach(c: Config, m: Memory, threads: map<Tid, Thread>, b: nat, prev: nat, o: nat)
    requires TableInv(m.cells, c.threshold) && Pending(c, m, threads) && b < |m.cells|
    requires forall t :: t in threads ==> ThreadFits(c, m, t, threads[t])
    requires prev < o < |m.cells| && IsNode(m.cells, b, prev) && InBucket(m.cells, b, o)
    ensures exists x: nat :: prev < x <= prev + c.threshold && InBucket(m.cells, b, x)
  {
    if Leap(m.cells, b, prev) != 0 {
      assert LeapOk(m.cells, c.threshold, b, prev, Leap(m.cells, b, prev));
    } else {
      assert Storing(c, m, threads, At(|m.cells|, b, o), b, prev, o);
    }
  }

  /** Nothing of a bucket lies beyond a stretch of other buckets' cells that is as long as the probe limit. */
  lemma NothingBeyond(c: Config, m: Memory, threads: map<Tid, Thread>, b: nat, prev: nat)
    requires TableInv(m.cells, c.threshold) && Pending(c, m, threads) && b < |m.cells|
    requires forall t :: t in threads ==> ThreadFits(c, m, t, threads[t])
    requires prev < |m.cells| && IsNode(m.cells, b, prev) && Foreign(m.cells, b, prev, prev + c.threshold + 1)
    ensures Ends(m.cells, b, prev)
  {
    hide TableInv, Pending, Wrap;
    forall o: nat | prev < o < |m.cells| ensures !InBucket(m.cells, b, o) {
      if InBucket(m.cells, b, o) { NextIsWithinReach(c, m, threads, b, prev, o); }
    }
  }

  /** A refused insertion found the table closed to its key. */
  lemma RefusalIsJustified(c: Config, states: seq<State>, labels: seq<Label>, j: nat, op: Op)
    requires IsRun(c, states, labels) && j < |labels|
    requires Decides(states[j], labels[j], states[j + 1], op, Overcrowded)
    ensures ClosedAt(c, states, j, op.k)
  {
    RunStep(c, states, labels, j);
    StuckIsClosed(c, states[j], labels[j].t);
  }

  lemma StuckIsClosed(c: Config, s: State, t: Tid)
    requires Inv(c, s) && t in s.threads && s.threads[t].Run? && !s.threads[t].pc.Return?
    requires Act(c, s.mem, t, s.threads[t].op, s.threads[t].pc).1 == Return(Overcrowded)
    ensures 0 < |s.mem.cells| && Closed(c, s.mem, s.threads[t].op.k)
  {
    OneThread(c, s, t);
    var k, pc := s.threads[t].op.k, s.threads[t].pc;
    var b := Home(c, s.mem, k);
    hide TableInv, Claims, Pending, Wrap, InBucket, LeapOk;
    assert pc.Probe? && pc.left == 0;
    assert Claimed(s.mem.cells, b, 0);
    NothingBeyond(c, s.mem, s.threads, b, pc.prev);
    NoCellForKey(c, s.mem, k, pc.prev, pc.off);
  }

  /** A search that has passed every cell of the bucket has passed the key's. */
  lemma NoCellForKey(c: Config, m: Memory, k: Key, prev: nat, off: nat)
    requires 0 < |m.cells| && Claims(c, m) && Cleared(m, Home(c, m, k), k, off + 1) && prev <= off < |m.cells|
    requires Ends(m.cells, Home(c, m, k), prev)
    ensures k !in m.cellOf
  {
    if k in m.cellOf { BucketCellOf(c, m, k); }
  }

  // ---------------------------------------------------------------- a closed table stays closed

  /** No step claims a cell for a closed bucket. */
  lemma ClaimIsElsewhere(c: Config, s: State, t: Tid, k: Key)
    requires Inv(c, s) && 0 < |s.mem.cells| && Closed(c, s.mem, k)
    requires t in s.threads && s.threads[t].Run? && (s.threads[t].pc.CasHome? || s.threads[t].pc.CasProbe?)
    requires var off := if s.threads[t].pc.CasHome? then 0 else s.threads[t].pc.off;
             CellAt(c, s.mem, s.threads[t].op.k, off).hash == 0
    ensures Home(c, s.mem, s.threads[t].op.k) != Home(c, s.mem, k)
  {
    OneThread(c, s, t);
    var m, pc, b := s.mem, s.threads[t].pc, Home(c, s.mem, k);
    if Home(c, m, s.threads[t].op.k) == b && pc.CasProbe? {
      hide TableInv, Claims, Pending, Wrap;
      var p: nat :| && p < |m.cells| && IsNode(m.cells, b, p) && Ends(m.cells, b, p)
                    && forall o: nat :: p < o <= p + c.threshold ==> Claimed(m.cells, b, o);
      NodeIsLast(c, m, b, pc.prev, pc.off, p);
    }
  }

  /** A probe that has reached an unclaimed cell started from the last node. */
  lemma NodeIsLast(c: Config, m: Memory, b: nat, prev: nat, off: nat, p: nat)
    requires TableInv(m.cells, c.threshold) && b < |m.cells| && Crossed(c, m, b, prev, off)
    requires p < |m.cells| && IsNode(m.cells, b, p) && Ends(m.cells, b, p) && !Claimed(m.cells, b, off)
    ensures prev == p
  {
    assert 0 < p ==> InBucket(m.cells, b, p);
  }

  /** After a claim for another bucket, or a step that claims nothing, the bucket is as closed as before. */
  lemma ClosedIsStable(c: Config, m: Memory, m': Memory, k: Key)
    requires 0 < |m.cells| && Closed(c, m, k) && ClaimsKept(m.cells, m'.cells) && k !in m'.cellOf
    requires forall o: nat :: InBucket(m'.cells, Home(c, m, k), o) ==> InBucket(m.cells, Home(c, m, k), o)
    ensures Closed(c, m', k)
  {
    hide Wrap;
    var b := Home(c, m, k);
    var p: nat :| && p < |m.cells| && IsNode(m.cells, b, p) && Ends(m.cells, b, p)
                  && forall o: nat :: p < o <= p + c.threshold ==> Claimed(m.cells, b, o);
    assert IsNode(m'.cells, b, p) && Ends(m'.cells, b, p);
    forall o: nat | p < o <= p + c.threshold ensures Claimed(m'.cells, b, o) { assert Claimed(m.cells, b, o); }
  }

  lemma ClaimElsewhere(c: Config, m: Memory, t: Tid, k: Key, k': Key, off: nat)
    requires 0 < |m.cells| && Closed(c, m, k) && CellAt(c, m, k', off).hash == 0 && Home(c, m, k') != Home(c, m, k)
    ensures Closed(c, Claim(c, m, t, k', off), k)
  {
    hide Wrap, Crowded;
    var m', b := Claim(c, m, t, k', off), Home(c, m, k);
    forall o: nat | InBucket(m'.cells, b, o) ensures InBucket(m.cells, b, o) {
      assert At(|m.cells|, b, o) != CellIndex(c, m, k', off);
    }
    ClosedIsStable(c, m, m', k);
  }

  lemma ClosedStep(c: Config, s: State, l: Label, k: Key)
    requires Inv(c, s) && Enabled(s, l) && Closed(c, s.mem, k)
    ensures 0 < |Do(c, s, l).mem.cells| && Closed(c, Do(c, s, l).mem, k)
  {
    hide Inv, Closed, Wrap, Grows;
    if l.Go? && !s.threads[l.t].pc.Return? {
      var op, pc := s.threads[l.t].op, s.threads[l.t].pc;
      var off := if pc.CasHome? then 0 else if pc.CasProbe? then pc.off else 0;
      if (pc.CasHome? || pc.CasProbe?) && CellAt(c, s.mem, op.k, off).hash == 0 {
        ClaimIsElsewhere(c, s, l.t, k);
        ClaimElsewhere(c, s.mem, l.t, k, op.k, off);
      } else {
        QuietStep(c, s.mem, l.t, op, pc);
        SameHashesClosed(c, s.mem, Act(c, s.mem, l.t, op, pc).0, k);
      }
    }
  }

  /** A step that claims nothing changes no hash. */
  lemma QuietStep(c: Config, m: Memory, t: Tid, op: Op, pc: Pc)
    requires 0 < |m.cells| && !pc.Return?
    requires pc.CasHome? ==> CellAt(c, m, op.k, 0).hash != 0
    requires pc.CasProbe? ==> CellAt(c, m, op.k, pc.off).hash != 0
    ensures var m' := Act(c, m, t, op, pc).0; SameHashes(m.cells, m'.cells) && m'.cellOf == m.cellOf
  {
  }

  lemma SameHashesClosed(c: Config, m: Memory, m': Memory, k: Key)
    requires 0 < |m.cells| && Closed(c, m, k) && SameHashes(m.cells, m'.cells) && m'.cellOf == m.cellOf
    ensures Closed(c, m', k)
  {
    hide Wrap, Crowded;
    ClosedIsStable(c, m, m', k);
  }

  lemma {:induction false} ClosedForGood(c: Config, states: seq<State>, labels: seq<Label>, i: nat, j: nat, k: Key)
    requires IsRun(c, states, labels) && i <= j < |states| && ClosedAt(c, states, i, k)
    ensures ClosedAt(c, states, j, k)
  {
    hide Inv, Closed, Do, Enabled;
    if i < j {
      ClosedForGood(c, states, labels, i, j - 1, k);
      RunStep(c, states, labels, j - 1);
      ClosedStep(c, states[j - 1], labels[j - 1], k);
    }
  }

  /** An insertion that is not refused found the table open to its key when it was called, and all the time before:
      a call made when the table is closed to its key is refused. */
  lemma ClosedIsRefused(c: Config, states: seq<State>, labels: seq<Label>, i: nat, j: nat, t: Tid, op: Op, r: Result)
    requires IsRun(c, states, labels) && Pends(states, labels, i, j, t, op) && j < |labels|
    requires labels[j] == Go(t) && Decides(states[j], labels[j], states[j + 1], op, r)
    requires (op.Assoc? || op.PutIfAbsent?) && ClosedAt(c, states, i, op.k)
    ensures r == Overcrowded
  {
    ClosedForGood(c, states, labels, i, j, op.k);
    RunStep(c, states, labels, j);
    ClosedDecides(c, states[j], t);
  }

  lemma ClosedDecides(c: Config, s: State, t: Tid)
    requires Inv(c, s) && t in s.threads && s.threads[t].Run? && 0 < |s.mem.cells| && !s.threads[t].pc.Return?
    requires var op := s.threads[t].op; (op.Assoc? || op.PutIfAbsent?) && Closed(c, s.mem, op.k)
    ensures var pc' := Act(c, s.mem, t, s.threads[t].op, s.threads[t].pc).1;
            pc'.Return? ==> pc'.result == Overcrowded
  {
    OneThread(c, s, t);
    hide TableInv, Pending, Wrap, Crowded;
    var op, pc := s.threads[t].op, s.threads[t].pc;
    if pc.Found? || pc.PutKey? { OwnIntent(c, s.mem, t, op, pc); }
  }

  // ---------------------------------------------------------------- a call that runs alone ends

  /** The offset a search has got to. */
  function Reached(pc: Pc): nat {
    match pc
    case AwaitKey(off, _) => off
    case ReadLeap(off) => off
    case LoadLinked(off) => off
    case Probe(_, off, _) => off
    case CasProbe(_, off, _) => off
    case HelpLink(_, off) => off
    case WalkHash(off) => off
    case WalkKey(off) => off
    case WalkHit(off) => off
    case WalkLeap(off) => off
    case _ => 0
  }

  /** What is left to do at that offset. */
  function Stage(pc: Pc): nat {
    match pc
    case LoadHome => 7
    case CasHome => 6
    case CasProbe(_, _, _) => 6
    case LoadLinked(_) => 6
    case AwaitKey(_, _) => 5
    case HelpLink(_, _) => 4
    case ReadLeap(_) => 3
    case WalkHash(_) => 3
    case WalkKey(_) => 2
    case Probe(_, _, _) => 2
    case WalkHit(_) => 1
    case WalkLeap(_) => 0
    case StoreLink(_, _) => 3
    case PutValue(_) => 2
    case PutKey(_) => 1
    case Found(_) => 1
    case Return(_) => 0
  }

  /** How many steps a call that runs alone has left at most, in a table of `n` cells. */
  function Rank(n: nat, pc: Pc): nat {
    if InInsert(pc) || InWalk(pc) then 4 + 8 * (if Reached(pc) <= n then n - Reached(pc) else 0) + Stage(pc)
    else Stage(pc)
  }

  /** The state in which it does so: a free cell for an insertion to end at, and no half-made insertion to wait for. */
  ghost predicate Unhindered(c: Config, m: Memory, op: Op, pc: Pc) {
    && 0 < |m.cells| && Inv(c, Alone(m, op, pc))
    && (InInsert(pc) ==> HasFree(m.cells))
    && (InInsert(pc) || InWalk(pc) ==> Published(m))
  }

  /** A search comes nearer its end with each step. */
  lemma InsertAdvances(c: Config, m: Memory, t: Tid, op: Op, pc: Pc)
    requires 0 < |m.cells| && Fits(c, m, t, op, pc) && Published(m) && InInsert(pc)
    ensures Rank(|m.cells|, Insert(c, m, t, op.k, pc).1) < Rank(|m.cells|, pc)
  {
    hide Wrap, Fits, Published;
    match pc
    case AwaitKey(off, _) => NoWait(c, m, t, op, pc);
    case LoadLinked(off) => NoWait(c, m, t, op, pc);
    case ReadLeap(off) => NoWait(c, m, t, op, pc);
    case Probe(_, _, _) => ProbeAdvances(c, m, t, op, pc);
    case CasProbe(_, _, _) => ProbeAdvances(c, m, t, op, pc);
    case _ =>
  }

  lemma ProbeAdvances(c: Config, m: Memory, t: Tid, op: Op, pc: Pc)
    requires 0 < |m.cells| && Fits(c, m, t, op, pc) && (pc.Probe? || pc.CasProbe?)
    ensures Rank(|m.cells|, Insert(c, m, t, op.k, pc).1) < Rank(|m.cells|, pc)
  {
    hide Wrap, Cleared, Linked, Foreign, IsNode;
  }

  /** With every claimed cell published nothing has to be waited for. */
  lemma NoWait(c: Config, m: Memory, t: Tid, op: Op, pc: Pc)
    requires 0 < |m.cells| && Fits(c, m, t, op, pc) && Published(m)
    ensures pc.LoadLinked? ==> CellAt(c, m, op.k, pc.off).hash != 0 && pc.off < |m.cells|
    ensures pc.ReadLeap? ==> pc.off < |m.cells|
    ensures pc.AwaitKey? ==> CellAt(c, m, op.k, pc.off).key != None && pc.off < |m.cells|
  {
    hide Wrap, Cleared, Linked, Foreign;
    if pc.AwaitKey? { assert m.cells[CellIndex(c, m, op.k, pc.off)].hash != 0; }
  }

  /** Until it claims a cell a search changes leaps only. */
  lemma InsertKeepsRest(c: Config, m: Memory, t: Tid, op: Op, pc: Pc)
    requires 0 < |m.cells| && InInsert(pc)
    ensures var (m', pc') := Insert(c, m, t, op.k, pc);
            && |m'.cells| == |m.cells| && !InWalk(pc')
            && (InInsert(pc') ==>
                  forall i :: 0 <= i < |m.cells| ==>
                    m'.cells[i].hash == m.cells[i].hash && m'.cells[i].key == m.cells[i].key)
  {
    hide Wrap;
  }

  lemma SoloInsert(c: Config, m: Memory, op: Op, pc: Pc)
    requires Unhindered(c, m, op, pc) && InInsert(pc)
    ensures var (m', pc') := Act(c, m, 0, op, pc);
            Unhindered(c, m', op, pc') && |m'.cells| == |m.cells| && Rank(|m.cells|, pc') < Rank(|m.cells|, pc)
  {
    AloneFits(c, m, op, pc);
    AloneStep(c, m, op, pc);
    InsertAdvances(c, m, 0, op, pc);
    InsertKeepsRest(c, m, 0, op, pc);
    hide Inv, Fits, TableInv, Claims, Insert, Rank, Effect;
  }

  lemma WalkAdvances(c: Config, m: Memory, t: Tid, op: Op, pc: Pc)
    requires 0 < |m.cells| && Fits(c, m, t, op, pc) && Published(m) && InWalk(pc)
    ensures var (m', pc') := Walk(c, m, op, pc);
            && Rank(|m.cells|, pc') < Rank(|m.cells|, pc) && |m'.cells| == |m.cells|
            && !InInsert(pc') && (InWalk(pc') ==> m' == m)
  {
    hide Wrap;
    if pc.WalkKey? { assert m.cells[CellIndex(c, m, op.k, pc.off)].key != None; }
  }

  lemma SoloWalk(c: Config, m: Memory, op: Op, pc: Pc)
    requires Unhindered(c, m, op, pc) && InWalk(pc)
    ensures var (m', pc') := Act(c, m, 0, op, pc);
            Unhindered(c, m', op, pc') && |m'.cells| == |m.cells| && Rank(|m.cells|, pc') < Rank(|m.cells|, pc)
  {
    AloneFits(c, m, op, pc);
    AloneStep(c, m, op, pc);
    WalkAdvances(c, m, 0, op, pc);
    hide Inv, Fits, TableInv, Claims, Walk, Rank, Effect;
  }

  lemma SoloPublish(c: Config, m: Memory, op: Op, pc: Pc)
    requires Unhindered(c, m, op, pc) && InPublish(pc)
    ensures var (m', pc') := Act(c, m, 0, op, pc);
            Unhindered(c, m', op, pc') && |m'.cells| == |m.cells| && Rank(|m.cells|, pc') < Rank(|m.cells|, pc)
  {
    AloneStep(c, m, op, pc);
    PublishAdvances(c, m, op, pc);
    hide Inv, Effect, Publish, Rank;
  }

  lemma PublishAdvances(c: Config, m: Memory, op: Op, pc: Pc)
    requires 0 < |m.cells| && InPublish(pc)
    ensures var (m', pc') := Publish(c, m, op, pc);
            && |m'.cells| == |m.cells| && Rank(|m.cells|, pc') < Rank(|m.cells|, pc)
            && !InInsert(pc') && !InWalk(pc')
  {
    hide Wrap;
  }

  lemma {:induction false} SoloEnds(c: Config, m: Memory, op: Op, pc: Pc, steps: nat)
    requires Unhindered(c, m, op, pc) && Rank(|m.cells|, pc) <= steps
    ensures Solo(c, m, op, pc, steps).1.Return?
    decreases steps
  {
    hide Inv, Act, Rank;
    if pc.Return? {
    } else {
      var (m', pc') := Act(c, m, 0, op, pc);
      if InInsert(pc) { SoloInsert(c, m, op, pc); }
      else if InPublish(pc) { SoloPublish(c, m, op, pc); }
      else { SoloWalk(c, m, op, pc); }
      SoloEnds(c, m', op, pc', steps - 1);
    }
  }

  /** From any state in which no insertion is half made, and with a free cell if it is an insertion, a call that runs
      alone is over after a number of steps linear in the size of the table. */
  lemma SoloReturns(c: Config, m: Memory, op: Op)
    requires Inv(c, State(m, map[])) && Published(m) && (op.Assoc? || op.PutIfAbsent? ==> HasFree(m.cells))
    ensures Solo(c, m, op, FirstPc(op), 8 * |m.cells| + 11).1.Return?
  {
    Start(c, m, op);
    SoloEnds(c, m, op, FirstPc(op), 8 * |m.cells| + 11);
  }

  /** A thread that has its result is free for the next call one step later. */
  lemma ReturnFrees(c: Config, s: State, t: Tid)
    requires Enabled(s, Go(t)) && s.threads[t].pc.Return?
    ensures Do(c, s, Go(t)) == State(s.mem, s.threads[t := Idle])
  {
  }
}
