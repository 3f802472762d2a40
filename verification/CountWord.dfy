/** The reference-count word of one object (Object.h). Bit 0 says "shared", the rest is the count. On a local
    word retain and release are a load and a separate store; on a shared one they are atomic. A reference
    reaches another thread only while the word is marked shared. */
module CountWord {

  const COUNT_INC: nat := 2

  datatype Pc =
    | Idle
    | RetainLoad
    | RetainStore(newVal: nat)
    | RetainAdd
    | ReleaseLoad
    | ReleaseStore(newVal: nat)
    | ReleaseSub
    | PromoteLoad
    | PromoteStore(newVal: nat)
    | ReusableLoad
    | Demote
    | Answer(reusable: bool)

  /** `refs` is the number of references the thread holds; the word does not record whose they are. */
  datatype Thread = Thread(refs: nat, pc: Pc)

  datatype State = State(word: nat, destroyed: nat, threads: seq<Thread>)

  datatype Label =
    | Begin(t: nat, pc: Pc)
    | Step(t: nat)
    | Give(t: nat, to: nat)

  predicate Shared(word: nat) {
    word % 2 == 1
  }

  /** Object_create: one reference, held by its creator. */
  predicate Init(s: State) {
    && s.word == COUNT_INC && s.destroyed == 0
    && (forall t :: 0 <= t < |s.threads| ==> s.threads[t].pc.Idle?)
    && exists t :: 0 <= t < |s.threads| && s.threads[t].refs == 1
                   && forall u :: 0 <= u < |s.threads| && u != t ==> s.threads[u].refs == 0
  }

  predicate Starts(pc: Pc) {
    pc.RetainLoad? || pc.ReleaseLoad? || pc.PromoteLoad? || pc.ReusableLoad?
  }

  /** Only a thread that holds a reference may operate on the object or pass a reference on. */
  predicate Enabled(s: State, l: Label) {
    && l.t < |s.threads|
    && match l
       case Begin(t, pc) => s.threads[t].pc.Idle? && 0 < s.threads[t].refs && Starts(pc)
       case Step(t) => !s.threads[t].pc.Idle?
       case Give(t, to) =>
         && to < |s.threads| && t != to && s.threads[t].pc.Idle? && 0 < s.threads[t].refs && Shared(s.word)
  }

  function Set(s: State, t: nat, th: Thread): State
    requires t < |s.threads|
  {
    s.(threads := s.threads[t := th])
  }

  function Do(s: State, l: Label): State
    requires Enabled(s, l)
  {
    var th := s.threads[l.t];
    match l
    case Begin(t, pc) => Set(s, t, th.(pc := pc))
    case Give(t, to) => Set(Set(s, t, th.(refs := th.refs - 1)), to, s.threads[to].(refs := s.threads[to].refs + 1))
    case Step(t) => Act(s, t)
  }

  /** One access to the word. */
  function Act(s: State, t: nat): State
    requires t < |s.threads|
  {
    var th := s.threads[t];
    match th.pc
    case RetainLoad => Set(s, t, th.(pc := if Shared(s.word) then RetainAdd else RetainStore(s.word + COUNT_INC)))
    case RetainStore(newVal) => Set(s, t, Thread(th.refs + 1, Idle)).(word := newVal)
    case RetainAdd => Set(s, t, Thread(th.refs + 1, Idle)).(word := s.word + COUNT_INC)
    case ReleaseLoad =>
      if Shared(s.word) then Set(s, t, th.(pc := ReleaseSub))
      else if s.word / 2 == 1 then Set(s, t, Thread(Less(th.refs), Idle)).(destroyed := s.destroyed + 1)
      else Set(s, t, th.(pc := ReleaseStore(if COUNT_INC <= s.word then s.word - COUNT_INC else 0)))
    case ReleaseStore(newVal) => Set(s, t, Thread(Less(th.refs), Idle)).(word := newVal)
    case ReleaseSub =>
      var relVal := s.word;
      Set(s, t, Thread(Less(th.refs), Idle)).(
        word := if COUNT_INC <= relVal then relVal - COUNT_INC else 0,
        destroyed := if relVal / 2 == 1 then s.destroyed + 1 else s.destroyed)
    case PromoteLoad => Set(s, t, th.(pc := if Shared(s.word) then Idle else PromoteStore(s.word + 1)))
    case PromoteStore(newVal) => Set(s, t, th.(pc := Idle)).(word := newVal)
    case ReusableLoad =>
      if s.word / 2 == 1 then Set(s, t, th.(pc := if Shared(s.word) then Demote else Answer(true)))
      else Set(s, t, th.(pc := Answer(false)))
    case Demote => Set(s, t, th.(pc := Answer(true))).(word := COUNT_INC)
    case Answer(_) => Set(s, t, th.(pc := Idle))
    case Idle => s
  }

  function Less(n: nat): nat {
    if n == 0 then 0 else n - 1
  }

  predicate RunsAt(states: seq<State>, labels: seq<Label>, j: nat)
    requires |states| == |labels| + 1 && j < |labels|
  {
    Enabled(states[j], labels[j]) && states[j + 1] == Do(states[j], labels[j])
  }

  predicate IsRun(states: seq<State>, labels: seq<Label>) {
    && |states| == |labels| + 1 && Init(states[0])
    && forall j: nat :: j < |labels| ==> RunsAt(states, labels, j)
  }

  // ---------------------------------------------------------------- counting references

  /** All references outstanding. */
  function Total(threads: seq<Thread>): nat {
    if threads == [] then 0 else Total(threads[..|threads| - 1]) + threads[|threads| - 1].refs
  }

  lemma {:induction false} TotalUpdate(threads: seq<Thread>, t: nat, th: Thread)
    requires t < |threads|
    ensures Total(threads[t := th]) == Total(threads) - threads[t].refs + th.refs
    ensures threads[t].refs <= Total(threads)
  {
    var n := |threads| - 1;
    if t == n {
      assert threads[t := th][..n] == threads[..n];
    } else {
      TotalUpdate(threads[..n], t, th);
      assert threads[t := th][..n] == threads[..n][t := th];
    }
  }

  /** No thread but `t` holds a reference. */
  ghost predicate Sole(threads: seq<Thread>, t: nat) {
    forall u :: 0 <= u < |threads| && u != t ==> threads[u].refs == 0
  }

  lemma {:induction false} TotalZero(threads: seq<Thread>)
    requires forall u :: 0 <= u < |threads| ==> threads[u].refs == 0
    ensures Total(threads) == 0
  {
    if threads != [] { TotalZero(threads[..|threads| - 1]); }
  }

  /** One thread holds every reference exactly when no other holds any. */
  lemma SoleTotal(threads: seq<Thread>, t: nat)
    requires t < |threads|
    ensures Sole(threads, t) <==> Total(threads) == threads[t].refs
  {
    TotalUpdate(threads, t, Thread(0, Idle));
    var rest := threads[t := Thread(0, Idle)];
    if Sole(threads, t) {
      TotalZero(rest);
    } else {
      var u :| 0 <= u < |threads| && u != t && threads[u].refs != 0;
      TotalUpdate(rest, u, Thread(0, Idle));
    }
  }

  // ---------------------------------------------------------------- the invariant

  /** What a thread in the middle of an operation relies on. */
  ghost predicate Fits(s: State, t: nat)
    requires t < |s.threads|
  {
    var th := s.threads[t];
    && (!th.pc.Idle? ==> 0 < th.refs && s.destroyed == 0)
    && match th.pc
       case RetainStore(newVal) => !Shared(s.word) && newVal == s.word + COUNT_INC
       case ReleaseStore(newVal) => !Shared(s.word) && 4 <= s.word && newVal == s.word - COUNT_INC
       case PromoteStore(newVal) => !Shared(s.word) && newVal == s.word + 1
       case Demote => s.word == 3
       case Answer(true) => s.word == 2
       case _ => true
  }

  ghost predicate Inv(s: State) {
    && s.destroyed <= 1
    && (s.destroyed == 1 <==> Total(s.threads) == 0)
    && (s.destroyed == 0 ==> s.word / 2 == Total(s.threads))
    && (s.destroyed == 0 && !Shared(s.word) ==> exists t :: 0 <= t < |s.threads| && Sole(s.threads, t))
    && forall t :: 0 <= t < |s.threads| ==> Fits(s, t)
  }

  /** On a local word, the thread that holds a reference holds them all. */
  lemma LocalIsSole(s: State, t: nat)
    requires Inv(s) && s.destroyed == 0 && t < |s.threads| && 0 < s.threads[t].refs
    requires !Shared(s.word) || s.word / 2 == 1
    ensures Sole(s.threads, t) && s.threads[t].refs == s.word / 2
  {
    SoleTotal(s.threads, t);
    if Shared(s.word) {
      TotalUpdate(s.threads, t, Thread(0, Idle));
    }
  }

  lemma StepKeepsInv(s: State, l: Label)
    requires Inv(s) && Enabled(s, l)
    ensures Inv(Do(s, l))
  {
    match l
    case Begin(t, pc) => BeginKeepsInv(s, t, pc);
    case Give(t, to) => GiveKeepsInv(s, t, to);
    case Step(t) => ActKeepsInv(s, t);
  }

  /** A step that changes neither the word nor any reference. */
  lemma QuietStep(s: State, t: nat, pc: Pc)
    requires Inv(s) && t < |s.threads|
    requires Fits(Set(s, t, s.threads[t].(pc := pc)), t)
    ensures Inv(Set(s, t, s.threads[t].(pc := pc)))
  {
    var s' := Set(s, t, s.threads[t].(pc := pc));
    TotalUpdate(s.threads, t, s'.threads[t]);
    if s.destroyed == 0 && !Shared(s.word) {
      var u :| 0 <= u < |s.threads| && Sole(s.threads, u);
      assert Sole(s'.threads, u);
    }
    forall u | 0 <= u < |s'.threads| ensures Fits(s', u) { assert Fits(s, u); }
  }

  lemma BeginKeepsInv(s: State, t: nat, pc: Pc)
    requires Inv(s) && Enabled(s, Begin(t, pc))
    ensures Inv(Do(s, Begin(t, pc)))
  {
    TotalUpdate(s.threads, t, s.threads[t]);
    QuietStep(s, t, pc);
  }

  lemma GiveKeepsInv(s: State, t: nat, to: nat)
    requires Inv(s) && Enabled(s, Give(t, to))
    ensures Inv(Do(s, Give(t, to)))
  {
    var s' := Do(s, Give(t, to));
    var th := s.threads[t].(refs := s.threads[t].refs - 1);
    TotalUpdate(s.threads, t, th);
    TotalUpdate(s.threads[t := th], to, s'.threads[to]);
    forall u | 0 <= u < |s.threads| ensures Fits(s', u) { assert Fits(s, u); }
  }

  /** A step on a word that stays shared, by a thread that gains or loses one reference. */
  lemma SharedStep(s: State, t: nat, th: Thread, s': State)
    requires Inv(s) && t < |s.threads| && 0 < s.threads[t].refs && Shared(s.word) && s.destroyed == 0
    requires th.pc.Idle? && s'.threads == s.threads[t := th] && Shared(s'.word)
    requires s'.word + 2 * s.threads[t].refs == s.word + 2 * th.refs
    requires s'.destroyed == if s'.word == 1 then 1 else 0
    requires !exists u :: 0 <= u < |s.threads| && u != t && s.threads[u].pc.Demote?
    ensures Inv(s')
  {
    TotalUpdate(s.threads, t, th);
    forall u | 0 <= u < |s'.threads| ensures Fits(s', u) {
      assert Fits(s, u);
      if u != t && !s.threads[u].pc.Idle? { TotalUpdate(s'.threads, u, Thread(0, Idle)); }
    }
  }

  /** No other thread can be about to demote, or have been told the object is reusable. */
  lemma NoOtherExclusive(s: State, t: nat, u: nat)
    requires Inv(s) && t < |s.threads| && u < |s.threads| && t != u && 0 < s.threads[t].refs && s.destroyed == 0
    ensures !s.threads[u].pc.Demote? && s.threads[u].pc != Answer(true)
  {
    assert Fits(s, u);
    if s.threads[u].pc.Demote? || s.threads[u].pc == Answer(true) { LocalIsSole(s, u); }
  }

  /** A step by the only holder. */
  lemma SoleStep(s: State, t: nat, th: Thread, s': State)
    requires Inv(s) && t < |s.threads| && Sole(s.threads, t) && s.destroyed == 0
    requires s'.threads == s.threads[t := th] && Fits(s', t)
    requires s'.destroyed == (if th.refs == 0 then 1 else 0) && (0 < th.refs ==> s'.word / 2 == th.refs)
    ensures Inv(s')
  {
    assert Sole(s'.threads, t);
    SoleTotal(s'.threads, t);
    forall u | 0 <= u < |s'.threads| ensures Fits(s', u) { assert Fits(s, u); }
  }

  lemma ActKeepsInv(s: State, t: nat)
    requires Inv(s) && Enabled(s, Step(t))
    ensures Inv(Act(s, t))
  {
    var th, s' := s.threads[t], Act(s, t);
    assert Fits(s, t);
    TotalUpdate(s.threads, t, th);
    if th.pc.RetainAdd? || th.pc.ReleaseSub? {
      AtomicKeepsInv(s, t);
    } else if !Shared(s.word) || th.pc.Demote? {
      LocalIsSole(s, t);
      SoleStep(s, t, s'.threads[t], s');
    } else {
      QuietStep(s, t, s'.threads[t].pc);
    }
  }

  lemma AtomicKeepsInv(s: State, t: nat)
    requires Inv(s) && Enabled(s, Step(t)) && (s.threads[t].pc.RetainAdd? || s.threads[t].pc.ReleaseSub?)
    ensures Inv(Act(s, t))
  {
    var th, s' := s.threads[t], Act(s, t);
    assert Fits(s, t);
    TotalUpdate(s.threads, t, th);
    forall u | 0 <= u < |s.threads| && u != t ensures !s.threads[u].pc.Demote? { NoOtherExclusive(s, t, u); }
    if Shared(s.word) {
      SharedStep(s, t, s'.threads[t], s');
    } else {
      LocalIsSole(s, t);
      SoleStep(s, t, s'.threads[t], s');
    }
  }

  lemma InitInv(s: State)
    requires Init(s)
    ensures Inv(s)
  {
    var t :| 0 <= t < |s.threads| && s.threads[t].refs == 1
             && forall u :: 0 <= u < |s.threads| && u != t ==> s.threads[u].refs == 0;
    assert Sole(s.threads, t);
    SoleTotal(s.threads, t);
  }

  lemma {:induction false} RunKeepsInv(states: seq<State>, labels: seq<Label>, j: nat)
    requires IsRun(states, labels) && j < |states|
    ensures Inv(states[j])
  {
    if j == 0 {
      InitInv(states[0]);
    } else {
      RunKeepsInv(states, labels, j - 1);
      assert RunsAt(states, labels, j - 1);
      StepKeepsInv(states[j - 1], labels[j - 1]);
    }
  }

  // ---------------------------------------------------------------- results

  /** While the object lives its count is the number of outstanding references, and it lives exactly as long
      as there are any; no thread is ever inside an operation on a destroyed object. */
  lemma CountIsReferences(states: seq<State>, labels: seq<Label>, j: nat)
    requires IsRun(states, labels) && j < |states|
    ensures var s := states[j];
            && s.destroyed == (if Total(s.threads) == 0 then 1 else 0)
            && (s.destroyed == 0 ==> s.word / 2 == Total(s.threads))
            && (s.destroyed != 0 ==> forall t :: 0 <= t < |s.threads| ==> s.threads[t].pc.Idle?)
  {
    RunKeepsInv(states, labels, j);
    var s := states[j];
    forall t | 0 <= t < |s.threads| && s.destroyed != 0 ensures s.threads[t].pc.Idle? { assert Fits(s, t); }
  }

  /** The object is destroyed by exactly the step that gives up the last reference. */
  lemma DestroyedAtLastRelease(states: seq<State>, labels: seq<Label>, j: nat)
    requires IsRun(states, labels) && j < |labels|
    ensures var (s, s') := (states[j], states[j + 1]);
            s'.destroyed == s.destroyed + (if Total(s.threads) != 0 && Total(s'.threads) == 0 then 1 else 0)
  {
    RunKeepsInv(states, labels, j);
    RunKeepsInv(states, labels, j + 1);
    assert RunsAt(states, labels, j);
    hide Inv;
    CountIsReferences(states, labels, j);
    CountIsReferences(states, labels, j + 1);
    DestroyedStays(states[j], labels[j]);
  }

  lemma DestroyedStays(s: State, l: Label)
    requires Inv(s) && Enabled(s, l)
    ensures s.destroyed <= Do(s, l).destroyed
  {
  }

  /** The shared mark is taken off only by a thread that holds the one reference there is. */
  lemma DemotionIsExclusive(states: seq<State>, labels: seq<Label>, j: nat)
    requires IsRun(states, labels) && j < |labels|
    requires Shared(states[j].word) && !Shared(states[j + 1].word)
    ensures var (s, t) := (states[j], labels[j].t);
            labels[j].Step? && t < |s.threads| && s.threads[t].pc.Demote? && s.threads[t].refs == 1
                && Sole(s.threads, t)
  {
    RunKeepsInv(states, labels, j);
    assert RunsAt(states, labels, j);
    var (s, t) := (states[j], labels[j].t);
    assert Fits(s, t);
    if s.threads[t].pc.Demote? { LocalIsSole(s, t); }
  }

  /** A thread told that the object is reusable holds the only reference. */
  lemma ReusableIsExclusive(states: seq<State>, labels: seq<Label>, j: nat, t: nat)
    requires IsRun(states, labels) && j < |states| && t < |states[j].threads|
    requires states[j].threads[t].pc == Answer(true)
    ensures states[j].threads[t].refs == 1 && Sole(states[j].threads, t)
  {
    RunKeepsInv(states, labels, j);
    assert Fits(states[j], t);
    LocalIsSole(states[j], t);
  }

  // ---------------------------------------------------------------- every operation does its work

  datatype Kind = Nothing | Retaining | Releasing | Promoting | Asking

  function KindOf(pc: Pc): Kind {
    if pc.RetainLoad? || pc.RetainStore? || pc.RetainAdd? then Retaining
    else if pc.ReleaseLoad? || pc.ReleaseStore? || pc.ReleaseSub? then Releasing
    else if pc.PromoteLoad? || pc.PromoteStore? then Promoting
    else if pc.Idle? then Nothing
    else Asking
  }

  /** How many steps of its own an operation has left at most. */
  function Rank(pc: Pc): nat {
    match pc
    case Idle => 0
    case RetainStore(_) => 1
    case RetainAdd => 1
    case ReleaseStore(_) => 1
    case ReleaseSub => 1
    case PromoteStore(_) => 1
    case Answer(_) => 1
    case Demote => 2
    case ReusableLoad => 3
    case _ => 2
  }

  /** How many of the steps from `i` to `j` are taken by thread `t`. */
  function Taken(labels: seq<Label>, t: nat, i: nat, j: nat): nat
    requires i <= j <= |labels|
  {
    if i == j then 0 else Taken(labels, t, i, j - 1) + if labels[j - 1] == Step(t) then 1 else 0
  }

  /** An operation is over after at most three steps of its own, whatever the others do. */
  lemma {:induction false} OperationEnds(states: seq<State>, labels: seq<Label>, i: nat, j: nat, t: nat, pc: Pc)
    requires IsRun(states, labels) && i < j < |states| && labels[i] == Begin(t, pc)
    requires forall x :: i < x <= j ==> t < |states[x].threads| && !states[x].threads[t].pc.Idle?
    ensures KindOf(states[j].threads[t].pc) == KindOf(pc)
    ensures Taken(labels, t, i + 1, j) + Rank(states[j].threads[t].pc) <= 3
  {
    assert RunsAt(states, labels, j - 1);
    if i + 1 < j {
      OperationEnds(states, labels, i, j - 1, t, pc);
      StepRank(states[j - 1], labels[j - 1], t);
    }
  }

  /** A thread's own step brings its operation nearer its end; the others leave it where it is. */
  lemma StepRank(s: State, l: Label, t: nat)
    requires Enabled(s, l) && t < |s.threads| && !s.threads[t].pc.Idle?
    ensures t < |Do(s, l).threads|
    ensures var (pc, pc') := (s.threads[t].pc, Do(s, l).threads[t].pc);
            if l == Step(t) then Rank(pc') < Rank(pc) && (pc'.Idle? || KindOf(pc') == KindOf(pc)) else pc' == pc
  {
  }

  /** Step `j` ends an operation of this kind. */
  predicate Ends(states: seq<State>, labels: seq<Label>, j: nat, kind: Kind) {
    && j < |labels| && |states| == |labels| + 1 && labels[j].Step?
    && labels[j].t < |states[j].threads| && labels[j].t < |states[j + 1].threads|
    && KindOf(states[j].threads[labels[j].t].pc) == kind && states[j + 1].threads[labels[j].t].pc.Idle?
  }

  /** How many operations of a kind have ended in the first `j` steps. */
  function Ended(states: seq<State>, labels: seq<Label>, j: nat, kind: Kind): nat {
    if j == 0 then 0 else Ended(states, labels, j - 1, kind) + if Ends(states, labels, j - 1, kind) then 1 else 0
  }

  /** Each retain adds one reference and each release gives one up; nothing else does. */
  lemma {:induction false} ReferencesAreRetainsLessReleases(states: seq<State>, labels: seq<Label>, j: nat)
    requires IsRun(states, labels) && j < |states|
    ensures Total(states[j].threads)
            == 1 + Ended(states, labels, j, Retaining) - Ended(states, labels, j, Releasing)
  {
    if j == 0 {
      var t :| 0 <= t < |states[0].threads| && states[0].threads[t].refs == 1
               && forall u :: 0 <= u < |states[0].threads| && u != t ==> states[0].threads[u].refs == 0;
      SoleTotal(states[0].threads, t);
    } else {
      ReferencesAreRetainsLessReleases(states, labels, j - 1);
      RunKeepsInv(states, labels, j - 1);
      assert RunsAt(states, labels, j - 1);
      StepTotal(states[j - 1], labels[j - 1]);
    }
  }

  lemma StepTotal(s: State, l: Label)
    requires Inv(s) && Enabled(s, l)
    ensures var (th, s') := (s.threads[l.t], Do(s, l));
            && |s'.threads| == |s.threads|
            && Total(s'.threads) == Total(s.threads) +
               if !(l.Step? && s'.threads[l.t].pc.Idle?) then 0
               else if KindOf(th.pc) == Retaining then 1 else if KindOf(th.pc) == Releasing then -1 else 0
  {
    var th, s' := s.threads[l.t], Do(s, l);
    assert Fits(s, l.t);
    if l.Give? {
      var less := th.(refs := th.refs - 1);
      TotalUpdate(s.threads, l.t, less);
      TotalUpdate(s.threads[l.t := less], l.to, s'.threads[l.to]);
    } else {
      TotalUpdate(s.threads, l.t, s'.threads[l.t]);
    }
  }

  /** Once a promotion ends the word is marked shared, so references may be passed on. */
  lemma PromotionShares(states: seq<State>, labels: seq<Label>, j: nat)
    requires IsRun(states, labels) && Ends(states, labels, j, Promoting)
    ensures Shared(states[j + 1].word) && states[j + 1].word / 2 == states[j].word / 2
  {
    RunKeepsInv(states, labels, j);
    assert RunsAt(states, labels, j);
    assert Fits(states[j], labels[j].t);
  }

  /** The answer to "reusable" is yes exactly when there was one reference at the moment of the load. */
  lemma {:induction false} ReusableIff(states: seq<State>, labels: seq<Label>, x: nat, j: nat, t: nat)
    requires IsRun(states, labels) && x < j < |states| && labels[x] == Step(t)
    requires t < |states[x].threads| && states[x].threads[t].pc.ReusableLoad?
    requires forall y :: x < y <= j ==> t < |states[y].threads| && !states[y].threads[t].pc.Idle?
    ensures var pc := states[j].threads[t].pc;
            if Total(states[x].threads) == 1 then pc.Demote? || pc == Answer(true) else pc == Answer(false)
  {
    assert RunsAt(states, labels, j - 1);
    if x + 1 == j {
      RunKeepsInv(states, labels, x);
      assert Fits(states[x], t);
    } else {
      ReusableIff(states, labels, x, j - 1, t);
    }
  }
}
