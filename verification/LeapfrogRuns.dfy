/** What every run of the Leapfrog map guarantees to its callers. */
module LeapfrogRuns {
  import opened Options
  import opened LeapfrogTable
  import opened LeapfrogProtocol
  import opened LeapfrogInvariant
  import opened LeapfrogSteps
  import opened LeapfrogLinearizability

  /** The map a state stands for. */
  ghost function MapOf(s: State): map<Key, Value> {
    Abs(s.mem)
  }

  /** In this step thread `l.t` decides the result `r` of its operation. */
  predicate Decides(s: State, l: Label, s': State, op: Op, r: Result) {
    && l.Go? && l.t in s.threads && l.t in s'.threads
    && s.threads[l.t].Run? && s.threads[l.t].op == op && !s.threads[l.t].pc.Return?
    && s'.threads[l.t] == Run(op, Return(r))
  }

  /** In this step the thread's operation happens, just as it would on a finite map. */
  ghost predicate TakesEffect(s: State, l: Label, s': State, r: Result) {
    && l.t in s.threads && s.threads[l.t].Run?
    && Decides(s, l, s', s.threads[l.t].op, r)
    && SpecStep(s.threads[l.t].op, MapOf(s), MapOf(s'), r)
  }

  lemma RunStep(c: Config, states: seq<State>, labels: seq<Label>, j: nat)
    requires IsRun(c, states, labels) && j < |labels|
    ensures Inv(c, states[j]) && HasFree(states[j].mem.cells)
    ensures Enabled(states[j], labels[j]) && states[j + 1] == Do(c, states[j], labels[j])
  {
    RunKeepsInv(c, states, labels, j);
    assert RunsAt(c, states, labels, j);
  }

  // ---------------------------------------------------------------- the table over whole runs

  /** A claim, a non-zero leap and a published key, once there, never change. */
  lemma {:induction false} LeapsAreForever(c: Config, states: seq<State>, labels: seq<Label>, i: nat, j: nat)
    requires IsRun(c, states, labels) && i <= j < |states|
    ensures Grows(states[i].mem.cells, states[j].mem.cells)
  {
    if i < j {
      LeapsAreForever(c, states, labels, i, j - 1);
      RunGrows(c, states, labels, j - 1);
      GrowsIsTransitive(states[i].mem.cells, states[j - 1].mem.cells, states[j].mem.cells);
    }
  }

  lemma RunGrows(c: Config, states: seq<State>, labels: seq<Label>, j: nat)
    requires IsRun(c, states, labels) && j < |labels|
    ensures Grows(states[j].mem.cells, states[j + 1].mem.cells)
  {
    RunStep(c, states, labels, j);
    StepGrows(c, states[j], labels[j]);
  }

  lemma StepGrows(c: Config, s: State, l: Label)
    requires Inv(c, s) && Enabled(s, l)
    ensures Grows(s.mem.cells, Do(c, s, l).mem.cells)
  {
    if l.Go? && !s.threads[l.t].pc.Return? {
      ActGrows(c, s, l.t);
    }
  }

  /** No two cells ever hold equal keys, and every cell holding a key is claimed under its hash. */
  lemma KeysAreUnique(c: Config, states: seq<State>, labels: seq<Label>, j: nat, x: nat, y: nat)
    requires IsRun(c, states, labels) && j < |states|
    requires var cells := states[j].mem.cells;
             x < |cells| && y < |cells| && cells[x].key != None && cells[x].key == cells[y].key
    ensures var (cell, k) := (states[j].mem.cells[x], states[j].mem.cells[x].key.value);
            x == y && cell.hash == if c.rawHash(k) == 0 then 1 else c.rawHash(k)
  {
    RunKeepsInv(c, states, labels, j);
    var m := states[j].mem;
    assert x in m.intent && y in m.intent;
    assert m.intent[x] == m.intent[y];
  }

  /** Every leap fits into the byte it is stored in. */
  lemma LeapsFitInByte(c: Config, states: seq<State>, labels: seq<Label>, j: nat, i: nat)
    requires IsRun(c, states, labels) && j < |states| && i < |states[j].mem.cells|
    ensures states[j].mem.cells[i].longLeap < 256 && states[j].mem.cells[i].shortLeap < 256
  {
    RunKeepsInv(c, states, labels, j);
    var cells := states[j].mem.cells;
    var n, cell := |cells|, cells[i];
    assert At(n, i, 0) == i && IsNode(cells, i, 0);
    if cell.longLeap != 0 { assert LeapOk(cells, c.threshold, i, 0, Leap(cells, i, 0)); }
    if cell.shortLeap != 0 {
      var b := Wrap(cell.hash, n);
      var o := Off(n, b, i);
      assert IsNode(cells, b, o) && o != 0;
      assert LeapOk(cells, c.threshold, b, o, Leap(cells, b, o));
    }
  }

  /** A step changes the map only when it decides the result of its operation. */
  lemma StepEffect(c: Config, s: State, l: Label)
    requires Inv(c, s) && Enabled(s, l)
    ensures var s' := Do(c, s, l);
            MapOf(s') != MapOf(s) ==>
              exists r :: TakesEffect(s, l, s', r)
  {
    if l.Go? && !s.threads[l.t].pc.Return? {
      ActEffect(c, s, l.t);
      var op, pc := s.threads[l.t].op, s.threads[l.t].pc;
      var pc' := Act(c, s.mem, l.t, op, pc).1;
      assert MapOf(Do(c, s, l)) != MapOf(s) ==> TakesEffect(s, l, Do(c, s, l), pc'.result);
    }
  }

  ghost predicate EffectAt(states: seq<State>, labels: seq<Label>, j: nat, r: Result)
    requires j < |labels| && |states| == |labels| + 1
  {
    TakesEffect(states[j], labels[j], states[j + 1], r)
  }

  lemma RunEffect(c: Config, states: seq<State>, labels: seq<Label>, j: nat)
    requires IsRun(c, states, labels) && j < |labels|
    ensures MapOf(states[j + 1]) != MapOf(states[j]) ==>
              exists r :: EffectAt(states, labels, j, r)
  {
    RunStep(c, states, labels, j);
    StepEffect(c, states[j], labels[j]);
    if MapOf(states[j + 1]) != MapOf(states[j]) {
      var r :| TakesEffect(states[j], labels[j], Do(c, states[j], labels[j]), r);
      assert EffectAt(states, labels, j, r);
    }
  }

  // ---------------------------------------------------------------- linearizability

  /** Thread `t` called `op` in step `i` and has not decided its result up to state `j`. */
  predicate Pends(states: seq<State>, labels: seq<Label>, i: nat, j: nat, t: Tid, op: Op) {
    && i < j < |states| && i < |labels| && labels[i] == Call(t, op)
    && forall x :: i < x <= j ==>
         t in states[x].threads && states[x].threads[t].Run? && states[x].threads[t].op == op
             && !states[x].threads[t].pc.Return?
  }

  /** The key was missing at some moment since the call, or the walker is still behind its cell. */
  ghost predicate MissedOrBehind(c: Config, states: seq<State>, i: nat, j: nat, t: Tid, k: Key) {
    || (exists x :: i < x <= j < |states| && k !in MapOf(states[x]))
    || (j < |states| && IsBehind(c, states[j], t, k))
  }

  ghost predicate IsBehind(c: Config, s: State, t: Tid, k: Key) {
    0 < |s.mem.cells| && t in s.threads && s.threads[t].Run? && Ahead(c, s.mem, k, s.threads[t].pc)
  }

  lemma {:induction false} BehindSinceCall(c: Config, states: seq<State>, labels: seq<Label>, i: nat, j: nat, t: Tid,
                                           op: Op)
    requires IsRun(c, states, labels) && Pends(states, labels, i, j, t, op) && (op.Get? || op.Dissoc?)
    ensures MissedOrBehind(c, states, i, j, t, op.k)
  {
    if j == i + 1 {
      BehindAtCall(c, states, labels, i, t, op);
    } else {
      BehindSinceCall(c, states, labels, i, j - 1, t, op);
      if IsBehind(c, states[j - 1], t, op.k) {
        BehindStep(c, states, labels, j - 1, t, op);
      }
    }
  }

  lemma BehindAtCall(c: Config, states: seq<State>, labels: seq<Label>, i: nat, t: Tid, op: Op)
    requires IsRun(c, states, labels) && i < |labels| && labels[i] == Call(t, op) && (op.Get? || op.Dissoc?)
    ensures op.k !in MapOf(states[i + 1]) || IsBehind(c, states[i + 1], t, op.k)
  {
    RunStep(c, states, labels, i);
  }

  lemma BehindStep(c: Config, states: seq<State>, labels: seq<Label>, j: nat, t: Tid, op: Op)
    requires IsRun(c, states, labels) && j < |labels| && (op.Get? || op.Dissoc?) && IsBehind(c, states[j], t, op.k)
    requires states[j].threads[t].op == op && !states[j].threads[t].pc.Return?
    requires t in states[j + 1].threads && states[j + 1].threads[t].Run? && !states[j + 1].threads[t].pc.Return?
    ensures op.k !in MapOf(states[j + 1]) || IsBehind(c, states[j + 1], t, op.k)
  {
    RunStep(c, states, labels, j);
    if labels[j] == Go(t) {
      WalkStaysBehind(c, states[j], t);
    } else {
      RunKeepsInv(c, states, labels, j + 1);
      StepGrows(c, states[j], labels[j]);
      assert states[j + 1].threads[t] == states[j].threads[t];
      if Present(states[j + 1].mem, op.k) {
        CellOfIsFixed(c, states[j].mem, states[j + 1].mem, op.k, states[j].threads[t].pc);
      }
    }
  }

  /** Linearizability. A call that is not refused takes effect, with exactly the result and the change
      the operation has on a finite map, at one moment between its start and its decision; until it
      decides, its own steps leave the map alone. A refused insertion never changes the map. */
  lemma Linearizable(c: Config, states: seq<State>, labels: seq<Label>, i: nat, j: nat, t: Tid, op: Op, r: Result)
    requires IsRun(c, states, labels) && Pends(states, labels, i, j, t, op) && j < |labels|
    requires labels[j] == Go(t) && Decides(states[j], labels[j], states[j + 1], op, r)
    ensures r != Overcrowded ==>
              || SpecStep(op, MapOf(states[j]), MapOf(states[j + 1]), r)
              || (MapOf(states[j + 1]) == MapOf(states[j])
                  && exists x :: i < x <= j && SpecStep(op, MapOf(states[x]), MapOf(states[x]), r))
    ensures r == Overcrowded ==> (op.Assoc? || op.PutIfAbsent?) && MapOf(states[j + 1]) == MapOf(states[j])
    ensures forall x :: i <= x < j && labels[x].t == t ==> MapOf(states[x + 1]) == MapOf(states[x])
  {
    RunStep(c, states, labels, j);
    ActEffect(c, states[j], t);
    var pc := states[j].threads[t].pc;
    if Misses(op, pc, r) {
      MissIsJustified(c, states, labels, i, j, t, op, r);
    }
    forall x | i <= x < j && labels[x].t == t
      ensures MapOf(states[x + 1]) == MapOf(states[x])
    {
      RunEffect(c, states, labels, x);
    }
  }

  lemma MissIsJustified(c: Config, states: seq<State>, labels: seq<Label>, i: nat, j: nat, t: Tid, op: Op, r: Result)
    requires IsRun(c, states, labels) && Pends(states, labels, i, j, t, op) && j < |labels|
    requires labels[j] == Go(t) && Decides(states[j], labels[j], states[j + 1], op, r)
    requires Misses(op, states[j].threads[t].pc, r)
    ensures exists x :: i < x <= j && SpecStep(op, MapOf(states[x]), MapOf(states[x]), r)
  {
    BehindSinceCall(c, states, labels, i, j, t, op);
    BehindDoesNotMiss(c, states, labels, j, t, op, r);
    var x :| i < x <= j && op.k !in MapOf(states[x]);
    assert SpecStep(op, MapOf(states[x]), MapOf(states[x]), r);
  }

  lemma BehindDoesNotMiss(c: Config, states: seq<State>, labels: seq<Label>, j: nat, t: Tid, op: Op, r: Result)
    requires IsRun(c, states, labels) && j < |labels|
    requires labels[j] == Go(t) && Decides(states[j], labels[j], states[j + 1], op, r)
    requires Misses(op, states[j].threads[t].pc, r)
    ensures !IsBehind(c, states[j], t, op.k)
  {
    RunStep(c, states, labels, j);
    if IsBehind(c, states[j], t, op.k) {
      WalkStaysBehind(c, states[j], t);
      assert false;
    }
  }

  /** A get never misses a key that stays in the map while it runs, and never makes a value up. */
  lemma GetNeverMisses(c: Config, states: seq<State>, labels: seq<Label>, i: nat, j: nat, t: Tid, k: Key, r: Result)
    requires IsRun(c, states, labels) && Pends(states, labels, i, j, t, Get(k)) && j < |labels|
    requires labels[j] == Go(t) && Decides(states[j], labels[j], states[j + 1], Get(k), r)
    requires forall x :: i < x <= j ==> k in MapOf(states[x])
    ensures exists x :: i < x <= j && r == Got(MapOf(states[x])[k])
  {
    Linearizable(c, states, labels, i, j, t, Get(k), r);
  }

  /** Only a dissoc of the key takes a key out of the map. */
  lemma {:induction false} StaysUntilDissoc(c: Config, states: seq<State>, labels: seq<Label>, k: Key, i: nat, j: nat)
    requires IsRun(c, states, labels) && i <= j < |states| && k in MapOf(states[i])
    requires forall x, t :: i <= x < j && t in states[x].threads && states[x].threads[t].Run? ==>
                              states[x].threads[t].op != Dissoc(k)
    ensures k in MapOf(states[j])
  {
    if i < j {
      StaysUntilDissoc(c, states, labels, k, i, j - 1);
      RunEffect(c, states, labels, j - 1);
    }
  }

  /** An insertion that is not refused leaves its key in the map. */
  lemma InsertPuts(c: Config, states: seq<State>, labels: seq<Label>, d: nat, op: Op, r: Result)
    requires IsRun(c, states, labels) && d < |labels| && Decides(states[d], labels[d], states[d + 1], op, r)
    requires (op.Assoc? || op.PutIfAbsent?) && r != Overcrowded
    ensures op.k in MapOf(states[d + 1])
  {
    RunStep(c, states, labels, d);
    ActEffect(c, states[d], labels[d].t);
  }

  /** A get that starts after an insertion of the key finished, in a stretch of the run where no dissoc of it is under
      way, does not miss it: it returns a value the key had during the call. */
  lemma GetAfterInsert(c: Config, states: seq<State>, labels: seq<Label>, d: nat, op: Op, q: Result,
                       i: nat, j: nat, t: Tid, r: Result)
    requires IsRun(c, states, labels) && d < i < j < |labels|
    requires Decides(states[d], labels[d], states[d + 1], op, q) && (op.Assoc? || op.PutIfAbsent?) && q != Overcrowded
    requires Pends(states, labels, i, j, t, Get(op.k)) && labels[j] == Go(t)
    requires Decides(states[j], labels[j], states[j + 1], Get(op.k), r)
    requires forall x, u :: d < x <= j && u in states[x].threads && states[x].threads[u].Run? ==>
                              states[x].threads[u].op != Dissoc(op.k)
    ensures exists x :: i < x <= j && op.k in MapOf(states[x]) && r == Got(MapOf(states[x])[op.k])
  {
    hide MapOf;
    InsertPuts(c, states, labels, d, op, q);
    forall x | i < x <= j ensures op.k in MapOf(states[x]) {
      StaysUntilDissoc(c, states, labels, op.k, d + 1, x);
    }
    GetNeverMisses(c, states, labels, i, j, t, op.k, r);
  }

  // ---------------------------------------------------------------- putIfAbsent

  /** Throughout the run, `k` is only read, or put if absent with a non-nil value. */
  ghost predicate OnlyPutIfAbsent(states: seq<State>, k: Key) {
    forall x, t ::
      0 <= x < |states| && t in states[x].threads && states[x].threads[t].Run? && states[x].threads[t].op.k == k ==>
      states[x].threads[t].op == Get(k) ||
      (states[x].threads[t].op.PutIfAbsent? && states[x].threads[t].op.v != Nil)
  }

  /** In step `j` a putIfAbsent of `k` with value `v` decides result `r`. */
  ghost predicate Puts(states: seq<State>, labels: seq<Label>, j: nat, k: Key, v: Value, r: Result) {
    j + 1 < |states| && j < |labels| && Decides(states[j], labels[j], states[j + 1], PutIfAbsent(k, v), r)
  }

  lemma {:induction false} PutValueStays(c: Config, states: seq<State>, labels: seq<Label>, k: Key, i: nat, j: nat)
    requires IsRun(c, states, labels) && OnlyPutIfAbsent(states, k) && i <= j < |states| && k in MapOf(states[i])
    ensures k in MapOf(states[j]) && MapOf(states[j])[k] == MapOf(states[i])[k]
  {
    if i < j {
      PutValueStays(c, states, labels, k, i, j - 1);
      RunEffect(c, states, labels, j - 1);
    }
  }

  /** A key in the map got there by a putIfAbsent that was told nil. */
  lemma {:induction false} PutHasWinner(c: Config, states: seq<State>, labels: seq<Label>, k: Key, j: nat)
    requires IsRun(c, states, labels) && OnlyPutIfAbsent(states, k) && j < |states| && k in MapOf(states[j])
    ensures exists w: nat :: w < j && Puts(states, labels, w, k, MapOf(states[j])[k], Got(Nil))
    ensures MapOf(states[j])[k] != Nil
  {
    assert !Present(states[0].mem, k);
    if j != 0 {
      RunEffect(c, states, labels, j - 1);
      if k in MapOf(states[j - 1]) {
        PutHasWinner(c, states, labels, k, j - 1);
        PutValueStays(c, states, labels, k, j - 1, j);
      } else {
        assert Puts(states, labels, j - 1, k, MapOf(states[j])[k], Got(Nil));
      }
    }
  }

  /** How a putIfAbsent that is not refused changes the map. */
  lemma PutEffect(c: Config, states: seq<State>, labels: seq<Label>, k: Key, j: nat, v: Value, r: Result)
    requires IsRun(c, states, labels) && Puts(states, labels, j, k, v, r) && r != Overcrowded
    ensures SpecStep(PutIfAbsent(k, v), MapOf(states[j]), MapOf(states[j + 1]), r)
  {
    RunStep(c, states, labels, j);
    ActEffect(c, states[j], labels[j].t);
  }

  /** Among concurrent putIfAbsent calls on one key, exactly one is told nil; every other call that is
      not refused decides later and is told the winner's value. */
  lemma OneWinner(c: Config, states: seq<State>, labels: seq<Label>, k: Key, j: nat, v: Value, r: Result)
    requires IsRun(c, states, labels) && OnlyPutIfAbsent(states, k) && Puts(states, labels, j, k, v, r)
             && r != Overcrowded
    ensures exists w: nat, u :: w <= j && Puts(states, labels, w, k, u, Got(Nil)) && u != Nil
                                && if w == j then r == Got(Nil) else r == Got(u)
    ensures forall w: nat, u :: Puts(states, labels, w, k, u, Got(Nil)) && Puts(states, labels, j, k, v, Got(Nil)) ==>
            w == j
  {
    PutEffect(c, states, labels, k, j, v, r);
    if k in MapOf(states[j]) {
      PutHasWinner(c, states, labels, k, j);
    } else {
      assert Puts(states, labels, j, k, v, Got(Nil));
    }
    forall w: nat, u | Puts(states, labels, w, k, u, Got(Nil)) && Puts(states, labels, j, k, v, Got(Nil))
      ensures w == j
    {
      NilOnce(c, states, labels, k, w, u, j, v);
      NilOnce(c, states, labels, k, j, v, w, u);
    }
  }

  lemma NilOnce(c: Config, states: seq<State>, labels: seq<Label>, k: Key, w: nat, u: Value, j: nat, v: Value)
    requires IsRun(c, states, labels) && OnlyPutIfAbsent(states, k)
    requires Puts(states, labels, w, k, u, Got(Nil)) && Puts(states, labels, j, k, v, Got(Nil))
    ensures j <= w
  {
    PutEffect(c, states, labels, k, w, u, Got(Nil));
    PutEffect(c, states, labels, k, j, v, Got(Nil));
    if w < j {
      PutHasWinner(c, states, labels, k, w + 1);
      PutValueStays(c, states, labels, k, w + 1, j);
      assert false;
    }
  }
}
