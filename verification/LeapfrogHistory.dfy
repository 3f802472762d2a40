/** Every run of the Leapfrog map is linearizable as a whole: one sequential history of finite-map operations
    explains it. */
module LeapfrogHistory {
  import opened Options
  import opened LeapfrogTable
  import opened LeapfrogProtocol
  import opened LeapfrogInvariant
  import opened LeapfrogSteps
  import opened LeapfrogLinearizability
  import opened LeapfrogRuns

  /** A call in a sequential history: where it was made and decided, the moment it is placed at, and the map
      before and after it. */
  datatype Entry = Entry(call: nat, decide: nat, t: Tid, op: Op, r: Result, point: nat,
                         pre: map<Key, Value>, post: map<Key, Value>)

  /** In step `j` some call is decided, and not refused. */
  ghost predicate Decided(states: seq<State>, labels: seq<Label>, j: nat) {
    j < |labels| && |states| == |labels| + 1 && exists op, r :: r != Overcrowded && DecidesAt(states, labels, j, op, r)
  }

  predicate DecidesAt(states: seq<State>, labels: seq<Label>, j: nat, op: Op, r: Result) {
    j < |labels| && |states| == |labels| + 1 && Decides(states[j], labels[j], states[j + 1], op, r)
  }

  /** The entry is a call of the run, placed between its start and its decision, and does what its operation does
      to a finite map. */
  ghost predicate Explains(states: seq<State>, labels: seq<Label>, e: Entry) {
    && Pends(states, labels, e.call, e.decide, e.t, e.op)
    && DecidesAt(states, labels, e.decide, e.op, e.r) && labels[e.decide] == Go(e.t) && e.r != Overcrowded
    && e.call < e.point <= e.decide
    && SpecStep(e.op, e.pre, e.post, e.r)
  }

  /** The map after the first `k` entries. */
  ghost function After(h: seq<Entry>, k: nat): map<Key, Value>
    requires k <= |h|
  {
    if k == 0 then map[] else h[k - 1].post
  }

  /** The history runs from the empty map, each entry taking up where the last one left off, in the order of the
      moments. */
  ghost predicate Sequential(h: seq<Entry>) {
    Chained(h) && Ordered(h)
  }

  ghost predicate Chained(h: seq<Entry>) {
    forall k :: 0 <= k < |h| ==> h[k].pre == After(h, k)
  }

  ghost predicate Ordered(h: seq<Entry>) {
    forall k, l :: 0 <= k < l < |h| ==> h[k].point <= h[l].point
  }

  /** The history has each decided call of the first `j` steps exactly once, and nothing else. */
  ghost predicate Complete(states: seq<State>, labels: seq<Label>, h: seq<Entry>, j: nat) {
    && (forall k :: 0 <= k < |h| ==> Explains(states, labels, h[k]) && h[k].decide < j)
    && (forall k, l :: 0 <= k < l < |h| ==> h[k].decide != h[l].decide)
    && (forall x: nat :: x < j && Decided(states, labels, x) ==> Has(h, x))
  }

  ghost predicate Has(h: seq<Entry>, x: nat) {
    exists k :: 0 <= k < |h| && h[k].decide == x
  }

  /** Entries before `p` are placed before moment `x`, the others not. */
  ghost predicate IsCut(h: seq<Entry>, x: nat, p: nat) {
    && p <= |h|
    && (forall k :: 0 <= k < p ==> h[k].point < x)
    && (forall k :: p <= k < |h| ==> x <= h[k].point)
  }

  /** At moment `x` the history has reached the map of the run. */
  ghost predicate InStep(states: seq<State>, h: seq<Entry>, x: nat) {
    x < |states| && exists p: nat :: IsCut(h, x, p) && After(h, p) == MapOf(states[x])
  }

  ghost predicate Follows(states: seq<State>, labels: seq<Label>, h: seq<Entry>, j: nat) {
    && Sequential(h) && Complete(states, labels, h, j)
    && forall x: nat :: x <= j ==> InStep(states, h, x)
  }

  // ---------------------------------------------------------------- inserting a call that leaves the map alone

  function Inserted(h: seq<Entry>, p: nat, e: Entry): (h': seq<Entry>)
    requires p <= |h|
    ensures |h'| == |h| + 1 && h'[p] == e
    ensures forall k :: 0 <= k < p ==> h'[k] == h[k]
    ensures forall k :: p < k < |h'| ==> h'[k] == h[k - 1]
  {
    h[..p] + [e] + h[p..]
  }

  lemma InsertKeepsChained(h: seq<Entry>, p: nat, e: Entry)
    requires Chained(h) && p <= |h| && e.pre == After(h, p) && (p < |h| ==> e.post == e.pre)
    ensures Chained(Inserted(h, p, e))
  {
    hide Inserted;
    var h' := Inserted(h, p, e);
    forall k | 0 <= k < |h'| ensures h'[k].pre == After(h', k) {
      if k < p {
        assert h[k].pre == After(h, k);
      } else if p < k {
        assert h[k - 1].pre == After(h, k - 1);
      }
    }
  }

  lemma InsertKeepsOrdered(h: seq<Entry>, p: nat, e: Entry)
    requires Ordered(h) && p <= |h|
    requires forall k :: 0 <= k < p ==> h[k].point <= e.point
    requires forall k :: p <= k < |h| ==> e.point <= h[k].point
    ensures Ordered(Inserted(h, p, e))
  {
    hide Inserted;
    var h' := Inserted(h, p, e);
    forall k, l | 0 <= k < l < |h'| ensures h'[k].point <= h'[l].point {
      if l < p {
        assert h'[k] == h[k] && h'[l] == h[l];
      } else if l == p {
        assert h'[k] == h[k];
      } else if k == p {
        assert h'[l] == h[l - 1];
      } else {
        assert h'[l] == h[l - 1] && h'[k] == h[if k < p then k else k - 1];
      }
    }
  }

  lemma AppendKeepsInStep(states: seq<State>, h: seq<Entry>, e: Entry, x: nat)
    requires InStep(states, h, x) && x <= e.point
    ensures InStep(states, Inserted(h, |h|, e), x)
  {
    hide Inserted, MapOf;
    var h' := Inserted(h, |h|, e);
    var p: nat :| IsCut(h, x, p) && After(h, p) == MapOf(states[x]);
    assert IsCut(h', x, p) && After(h', p) == After(h, p);
  }

  lemma InsertKeepsInStep(states: seq<State>, h: seq<Entry>, p: nat, e: Entry, x: nat)
    requires IsCut(h, e.point, p) && e.pre == e.post == After(h, p) && InStep(states, h, x)
    ensures InStep(states, Inserted(h, p, e), x)
  {
    hide Inserted, MapOf;
    var h' := Inserted(h, p, e);
    var q: nat :| IsCut(h, x, q) && After(h, q) == MapOf(states[x]);
    if x <= e.point {
      assert q <= p;
      assert IsCut(h', x, q) && After(h', q) == After(h, q);
    } else {
      assert p <= q;
      assert IsCut(h', x, q + 1) && After(h', q + 1) == After(h, q);
    }
  }

  lemma InsertKeepsComplete(states: seq<State>, labels: seq<Label>, h: seq<Entry>, p: nat, e: Entry, j: nat)
    requires Complete(states, labels, h, j) && p <= |h| && Explains(states, labels, e) && e.decide == j
    ensures Complete(states, labels, Inserted(h, p, e), j + 1)
  {
    hide Inserted, Explains, Decided;
    var h' := Inserted(h, p, e);
    forall x: nat | x < j + 1 && Decided(states, labels, x) ensures Has(h', x) {
      if x == j {
        assert h'[p].decide == x;
      } else {
        var k :| 0 <= k < |h| && h[k].decide == x;
        assert h'[if k < p then k else k + 1].decide == x;
      }
    }
    forall k, l | 0 <= k < l < |h'| ensures h'[k].decide != h'[l].decide {
      assert k != p ==> h'[k] == h[if k < p then k else k - 1];
      assert l != p ==> h'[l] == h[if l < p then l else l - 1];
    }
  }

  // ---------------------------------------------------------------- one step

  /** A running operation was called at some step, and has been running since. */
  lemma {:induction false} WasCalled(c: Config, states: seq<State>, labels: seq<Label>, j: nat, t: Tid) returns (i: nat)
    requires IsRun(c, states, labels) && j < |states| && t in states[j].threads
    requires states[j].threads[t].Run? && !states[j].threads[t].pc.Return?
    ensures Pends(states, labels, i, j, t, states[j].threads[t].op)
  {
    if j == 0 {
      assert false;
    } else {
      assert RunsAt(c, states, labels, j - 1);
      if labels[j - 1] == Call(t, states[j].threads[t].op) {
        i := j - 1;
      } else {
        KeptRunning(c, states[j - 1], labels[j - 1], t);
        i := WasCalled(c, states, labels, j - 1, t);
      }
    }
  }

  lemma KeptRunning(c: Config, s: State, l: Label, t: Tid)
    requires Enabled(s, l) && t in Do(c, s, l).threads && Do(c, s, l).threads[t].Run?
             && !Do(c, s, l).threads[t].pc.Return?
    requires l != Call(t, Do(c, s, l).threads[t].op)
    ensures t in s.threads && s.threads[t].Run? && s.threads[t].op == Do(c, s, l).threads[t].op
    ensures !s.threads[t].pc.Return?
  {
    hide Act;
  }

  lemma LastCut(states: seq<State>, labels: seq<Label>, h: seq<Entry>, j: nat)
    requires Complete(states, labels, h, j) && InStep(states, h, j)
    ensures After(h, |h|) == MapOf(states[j]) && IsCut(h, j + 1, |h|)
  {
    forall k | 0 <= k < |h| ensures h[k].point < j { assert Explains(states, labels, h[k]); }
    hide MapOf, Explains;
    var p: nat :| IsCut(h, j, p) && After(h, p) == MapOf(states[j]);
  }

  lemma EndInStep(states: seq<State>, h: seq<Entry>, x: nat)
    requires x < |states| && IsCut(h, x, |h|) && After(h, |h|) == MapOf(states[x])
    ensures InStep(states, h, x)
  {
  }

  /** A step that decides nothing, or refuses: the history stays. */
  lemma StepWithout(c: Config, states: seq<State>, labels: seq<Label>, h: seq<Entry>, j: nat)
    requires Follows(states, labels, h, j) && j < |labels| && |states| == |labels| + 1
    requires !Decided(states, labels, j) && MapOf(states[j + 1]) == MapOf(states[j])
    ensures Follows(states, labels, h, j + 1)
  {
    LastCut(states, labels, h, j);
    assert InStep(states, h, j + 1);
  }

  /** A step in which a call takes effect: it is added at the end. */
  lemma StepWithEffect(states: seq<State>, labels: seq<Label>, h: seq<Entry>, j: nat, e: Entry)
    requires Follows(states, labels, h, j) && j < |labels| && |states| == |labels| + 1
    requires Explains(states, labels, e) && e.decide == e.point == j && e.pre == MapOf(states[j])
             && e.post == MapOf(states[j + 1])
    ensures Follows(states, labels, Inserted(h, |h|, e), j + 1)
  {
    hide Chained, Ordered, Complete, Explains, MapOf, InStep, Inserted;
    var h' := Inserted(h, |h|, e);
    assert InStep(states, h, j);
    LastCut(states, labels, h, j);
    InsertKeepsComplete(states, labels, h, |h|, e, j);
    InsertKeepsChained(h, |h|, e);
    InsertKeepsOrdered(h, |h|, e);
    forall x: nat | x <= j + 1 ensures InStep(states, h', x) {
      if x <= j {
        assert InStep(states, h, x);
        AppendKeepsInStep(states, h, e, x);
      } else {
        EndInStep(states, h', x);
      }
    }
  }

  /** A step in which a call turns out to have missed its key: it goes back to a moment when the key was missing. */
  lemma StepWithMiss(states: seq<State>, labels: seq<Label>, h: seq<Entry>, j: nat, e: Entry) returns (h': seq<Entry>)
    requires Follows(states, labels, h, j) && j < |labels| && |states| == |labels| + 1
    requires Explains(states, labels, e) && e.decide == j && e.pre == e.post == MapOf(states[e.point])
    requires MapOf(states[j + 1]) == MapOf(states[j])
    ensures Follows(states, labels, h', j + 1)
  {
    hide Chained, Ordered, Complete, MapOf, Inserted, SpecStep;
    assert InStep(states, h, e.point) && InStep(states, h, j);
    var p: nat :| IsCut(h, e.point, p) && After(h, p) == MapOf(states[e.point]);
    h' := Inserted(h, p, e);
    InsertKeepsChained(h, p, e);
    InsertKeepsOrdered(h, p, e);
    InsertKeepsComplete(states, labels, h, p, e, j);
    LastCut(states, labels, h, j);
    EndInStep(states, h, j + 1);
    hide InStep, IsCut;
    forall x: nat | x <= j + 1 ensures InStep(states, h', x) {
      assert InStep(states, h, x);
      InsertKeepsInStep(states, h, p, e, x);
    }
  }

  lemma OneStep(c: Config, states: seq<State>, labels: seq<Label>, h: seq<Entry>, j: nat) returns (h': seq<Entry>)
    requires IsRun(c, states, labels) && j < |labels| && Follows(states, labels, h, j)
    ensures Follows(states, labels, h', j + 1)
  {
    hide Follows, SpecStep;
    if Decided(states, labels, j) {
      var op, r :| r != Overcrowded && DecidesAt(states, labels, j, op, r);
      var t := labels[j].t;
      var i := WasCalled(c, states, labels, j, t);
      Linearizable(c, states, labels, i, j, t, op, r);
      if SpecStep(op, MapOf(states[j]), MapOf(states[j + 1]), r) {
        var e := Entry(i, j, t, op, r, j, MapOf(states[j]), MapOf(states[j + 1]));
        StepWithEffect(states, labels, h, j, e);
        h' := Inserted(h, |h|, e);
      } else {
        var x :| i < x <= j && SpecStep(op, MapOf(states[x]), MapOf(states[x]), r);
        h' := StepWithMiss(states, labels, h, j, Entry(i, j, t, op, r, x, MapOf(states[x]), MapOf(states[x])));
      }
    } else {
      Undecided(c, states, labels, j);
      StepWithout(c, states, labels, h, j);
      h' := h;
    }
  }

  lemma Undecided(c: Config, states: seq<State>, labels: seq<Label>, j: nat)
    requires IsRun(c, states, labels) && j < |labels| && !Decided(states, labels, j)
    ensures MapOf(states[j + 1]) == MapOf(states[j])
  {
    RunEffect(c, states, labels, j);
    if MapOf(states[j + 1]) != MapOf(states[j]) {
      var r :| EffectAt(states, labels, j, r);
      var op := states[j].threads[labels[j].t].op;
      assert DecidesAt(states, labels, j, op, r);
    }
  }

  lemma {:induction false} HistoryUpTo(c: Config, states: seq<State>, labels: seq<Label>, j: nat)
    returns (h: seq<Entry>)
    requires IsRun(c, states, labels) && j < |states|
    ensures Follows(states, labels, h, j)
  {
    if j == 0 {
      h := [];
      assert IsCut(h, 0, 0) && MapOf(states[0]) == map[];
    } else {
      h := HistoryUpTo(c, states, labels, j - 1);
      h := OneStep(c, states, labels, h, j - 1);
    }
  }

  /** Linearizability of a whole run. There is one sequential history of finite-map operations, from the empty map to
      the final one, that has every decided call exactly once with its result, and has a call before another
      whenever it was decided before the other was made. */
  lemma RunIsLinearizable(c: Config, states: seq<State>, labels: seq<Label>) returns (h: seq<Entry>)
    requires IsRun(c, states, labels)
    ensures Sequential(h) && Complete(states, labels, h, |labels|)
    ensures After(h, |h|) == MapOf(states[|labels|])
    ensures forall a, b :: 0 <= a < |h| && 0 <= b < |h| && h[a].decide < h[b].call ==> a < b
  {
    h := HistoryUpTo(c, states, labels, |labels|);
    LastCut(states, labels, h, |labels|);
    forall a, b | 0 <= a < |h| && 0 <= b < |h| && h[a].decide < h[b].call ensures a < b {
      assert Explains(states, labels, h[a]) && Explains(states, labels, h[b]);
      assert a != b;
    }
  }
}
