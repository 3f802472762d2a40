/** Epoch-based reclamation as a transition system: any number of threads register, enter, flush, leave and
    retire, while one reclaimer at a time scans them, advances the epoch and releases old garbage.
    Every label is one access to shared memory. Epochs are unbounded. */
module Ebr {
  import opened Options

  /** Where the owner of a thread slot stands. */
  datatype Pc =
    | Gone                       // terminated; the slot may be taken again
    | TakeActive | TakeLocal     // taking a terminated slot: about to reset `active`, then `local`
    | Out                        // registered, outside a critical section
    | OutFlush(seen: nat)        // flushing outside a critical section
    | EnterActive(seen: nat)     // entering: epoch read, about to set `active`
    | EnterLocal(seen: nat)      // entering: about to store the epoch read
    | In                         // inside a critical section
    | InFlush(seen: nat)         // flushing: epoch read, about to store it
    | Quit                       // unregistering: `active` cleared, about to set `terminated`

  /** `retiring` holds the epoch read by an unfinished autorelease. */
  datatype Slot = Slot(local: nat, active: bool, terminated: bool, pc: Pc, retiring: Option<nat>)

  /** A retired object. `pushedAt` records the global epoch at its push; no step reads it. */
  datatype Node = Node(id: nat, epoch: nat, pushedAt: nat)

  /** The reclaimer. `left` counts the slots still to be scanned; the registry lists new slots first. */
  datatype Sync =
    | Idle
    | Started(current: nat)
    | ReadActive(current: nat, left: nat)
    | ReadLocal(current: nat, i: nat)
    | Steal(current: nat)
    | Sweep(current: nat, todo: seq<Node>, keep: seq<Node>)

  /** `pushed` lists every object ever retired, in the order of the pushes; an object's id is its index there. */
  datatype State = State(epoch: nat, slots: seq<Slot>, pending: seq<Node>, sync: Sync, released: seq<Node>,
                         pushed: seq<Node>)

  datatype Label =
    | Register
    | Take(t: nat) | TakeStep(t: nat)
    | Enter(t: nat) | EnterStep(t: nat)
    | Flush(t: nat) | FlushStore(t: nat)
    | Leave(t: nat)
    | Unregister(t: nat) | Terminate(t: nat)
    | RetireLoad(t: nat) | RetirePush(t: nat)
    | SyncStep

  predicate Init(s: State) {
    s == State(0, [], [], Idle, [], [])
  }

  predicate Enabled(s: State, l: Label) {
    if l.Register? || l.SyncStep? then true
    else
      && l.t < |s.slots|
      && var slot := s.slots[l.t];
      (l.RetirePush? <==> slot.retiring.Some?)
      && match l
         case Take(_) => slot.pc.Gone? && slot.terminated
         case TakeStep(_) => slot.pc.TakeActive? || slot.pc.TakeLocal?
         case Enter(_) => slot.pc.Out?
         case EnterStep(_) => slot.pc.EnterActive? || slot.pc.EnterLocal?
         case Flush(_) => slot.pc.In? || slot.pc.Out?
         case FlushStore(_) => slot.pc.InFlush? || slot.pc.OutFlush?
         case Leave(_) => slot.pc.In?
         case Unregister(_) => slot.pc.In? || slot.pc.Out?
         case Terminate(_) => slot.pc.Quit?
         case RetireLoad(_) => slot.pc.In? || slot.pc.Out?
         case RetirePush(_) => true
  }

  /** One step of the owner of a slot. */
  function Own(slot: Slot, epoch: nat, l: Label): Slot
    requires l.EnterStep? ==> slot.pc.EnterActive? || slot.pc.EnterLocal?
    requires l.FlushStore? ==> slot.pc.InFlush? || slot.pc.OutFlush?
  {
    match l
    case Take(_) => slot.(terminated := false, pc := TakeActive)
    case TakeStep(_) =>
      if slot.pc.TakeActive? then slot.(active := false, pc := TakeLocal) else slot.(local := 0, pc := Out)
    case Enter(_) => slot.(pc := EnterActive(epoch))
    case EnterStep(_) =>
      if slot.pc.EnterActive? then slot.(active := true, pc := EnterLocal(slot.pc.seen))
      else slot.(local := slot.pc.seen, pc := In)
    case Flush(_) => slot.(pc := if slot.pc.In? then InFlush(epoch) else OutFlush(epoch))
    case FlushStore(_) => slot.(local := slot.pc.seen, pc := if slot.pc.InFlush? then In else Out)
    case Leave(_) => slot.(active := false, pc := Out)
    case Unregister(_) => slot.(active := false, pc := Quit)
    case Terminate(_) => slot.(terminated := true, pc := Gone)
    case RetireLoad(_) => slot.(retiring := Some(epoch))
    case RetirePush(_) => slot.(retiring := None)
    case _ => slot
  }

  function Do(s: State, l: Label): State
    requires Enabled(s, l)
  {
    match l
    case Register => s.(slots := s.slots + [Slot(0, false, false, Out, None)])
    case SyncStep => DoSync(s)
    case RetirePush(t) =>
      var node := Node(|s.pushed|, s.slots[t].retiring.value, s.epoch);
      s.(slots := s.slots[t := Own(s.slots[t], s.epoch, l)], pending := [node] + s.pending, pushed := s.pushed + [node])
    case _ => s.(slots := s.slots[l.t := Own(s.slots[l.t], s.epoch, l)])
  }

  /** Ebr_synchronize_and_reclaim, under its mutex. */
  function DoSync(s: State): State {
    match s.sync
    case Idle => s.(sync := Started(s.epoch))
    case Started(current) => s.(sync := ReadActive(current, |s.slots|))
    case ReadActive(current, left) =>
      if left == 0 then s.(epoch := s.epoch + 1, sync := Steal(current + 1))
      else if left <= |s.slots| && s.slots[left - 1].active then s.(sync := ReadLocal(current, left - 1))
      else s.(sync := ReadActive(current, left - 1))
    case ReadLocal(current, i) =>
      if i < |s.slots| && s.slots[i].local != current then s.(sync := Steal(current))
      else s.(sync := ReadActive(current, i))
    case Steal(current) => s.(pending := [], sync := Sweep(current, s.pending, []))
    case Sweep(current, todo, keep) =>
      if todo == [] then s.(pending := keep + s.pending, sync := Idle)
      else if 2 <= current - todo[0].epoch then
          s.(released := s.released + [todo[0]], sync := Sweep(current, todo[1..], keep))
      else s.(sync := Sweep(current, todo[1..], keep + [todo[0]]))
  }

  ghost predicate RunsAt(states: seq<State>, labels: seq<Label>, j: nat)
    requires j < |labels| && |states| == |labels| + 1
  {
    Enabled(states[j], labels[j]) && states[j + 1] == Do(states[j], labels[j])
  }

  ghost predicate IsRun(states: seq<State>, labels: seq<Label>) {
    && |states| == |labels| + 1
    && Init(states[0])
    && forall j: nat :: j < |labels| ==> RunsAt(states, labels, j)
  }

  // ---------------------------------------------------------------- invariant

  /** The owner is inside a critical section: it has set `active`, and not cleared it. */
  predicate Inside(slot: Slot) {
    slot.pc.EnterLocal? || slot.pc.In? || slot.pc.InFlush?
  }

  ghost predicate Fits(slot: Slot, epoch: nat) {
    && slot.local <= epoch
    && (slot.retiring.Some? ==> slot.retiring.value <= epoch)
    && (slot.pc.OutFlush? || slot.pc.EnterActive? || slot.pc.EnterLocal? || slot.pc.InFlush? ==> slot.pc.seen <= epoch)
    && (slot.active <==> Inside(slot))
  }

  ghost predicate SyncFits(s: State) {
    match s.sync
    case Idle => true
    case Started(current) => current == s.epoch
    case ReadActive(current, left) => current == s.epoch && left <= |s.slots|
    case ReadLocal(current, i) => current == s.epoch && i < |s.slots|
    case Steal(current) => current == s.epoch
    case Sweep(current, todo, keep) => current == s.epoch
  }

  /** The nodes the reclaimer holds: still to be examined, and to be kept. */
  function Todo(s: State): seq<Node> {
    if s.sync.Sweep? then s.sync.todo else []
  }

  function Keep(s: State): seq<Node> {
    if s.sync.Sweep? then s.sync.keep else []
  }

  /** A node retired at `epoch`, at most `slack` advances ago. */
  predicate Recent(n: Node, epoch: nat, slack: nat) {
    n.epoch <= n.pushedAt <= epoch <= n.pushedAt + slack
  }

  /** No node is due, except that between an advance and its sweep the pending ones may have just become so.
      In particular `current_global - epoch_retired` never wraps below zero. */
  ghost predicate Timely(s: State) {
    && (forall n :: n in s.pending ==> Recent(n, s.epoch, if s.sync.Steal? then 2 else 1))
    && (forall n :: n in Todo(s) ==> Recent(n, s.epoch, 2))
    && (forall n :: n in Keep(s) ==> Recent(n, s.epoch, 1))
    && (forall n :: n in s.released ==> n.epoch + 2 <= s.epoch)
  }

  /** Every place a retired object can be. */
  ghost function Places(s: State): multiset<Node> {
    multiset(s.pending) + multiset(Todo(s)) + multiset(Keep(s)) + multiset(s.released)
  }

  /** The places together hold exactly the objects pushed so far. */
  ghost predicate Conserved(s: State) {
    && Places(s) == multiset(s.pushed)
    && forall i :: 0 <= i < |s.pushed| ==> s.pushed[i].id == i && s.pushed[i].pushedAt <= s.epoch
  }

  ghost predicate Inv(s: State) {
    && (forall t :: 0 <= t < |s.slots| ==> Fits(s.slots[t], s.epoch))
    && SyncFits(s)
    && Timely(s)
    && Conserved(s)
  }

  lemma StepKeepsFits(s: State, l: Label)
    requires Inv(s) && Enabled(s, l)
    ensures var s' := Do(s, l); SyncFits(s') && forall t :: 0 <= t < |s'.slots| ==> Fits(s'.slots[t], s'.epoch)
  {
  }

  lemma StepKeepsTimely(s: State, l: Label)
    requires Inv(s) && Enabled(s, l)
    ensures Timely(Do(s, l))
  {
    if l.SyncStep? {
      if s.sync.Sweep? { SweepKeepsTimely(s); }
    } else if l.RetirePush? {
      assert Fits(s.slots[l.t], s.epoch);
    }
  }

  lemma SweepKeepsTimely(s: State)
    requires Timely(s) && s.sync.Sweep? && s.sync.current == s.epoch
    ensures Timely(DoSync(s))
  {
    var todo, keep := s.sync.todo, s.sync.keep;
    if todo != [] {
      assert todo[0] in Todo(s);
      assert forall n :: n in todo[1..] ==> n in Todo(s);
      assert forall n :: n in keep + [todo[0]] ==> n in Keep(s) || n == todo[0];
    }
  }

  lemma StepConserves(s: State, l: Label)
    requires Conserved(s) && Enabled(s, l)
    ensures Conserved(Do(s, l))
  {
    if l.SyncStep? {
      SyncConserves(s);
    } else if l.RetirePush? {
      PushConserves(s, Do(s, l));
    }
  }

  lemma PushConserves(s: State, s': State)
    requires Conserved(s) && s'.sync == s.sync && s'.released == s.released
    requires s'.pending != [] && s'.pending == [s'.pending[0]] + s.pending && s'.pushed == s.pushed + [s'.pending[0]]
    requires s'.pending[0].id == |s.pushed| && s'.pending[0].pushedAt == s.epoch == s'.epoch
    ensures Conserved(s')
  {
    assert multiset(s'.pending) == multiset{s'.pending[0]} + multiset(s.pending);
    assert Places(s') == Places(s) + multiset{s'.pending[0]};
  }

  lemma SyncConserves(s: State)
    requires Conserved(s)
    ensures Conserved(DoSync(s))
  {
    hide Places, DoSync;
    SyncKeepsPlaces(s);
  }

  lemma SyncKeepsPlaces(s: State)
    ensures Places(DoSync(s)) == Places(s) && DoSync(s).pushed == s.pushed && s.epoch <= DoSync(s).epoch
  {
    if s.sync.Sweep? {
      SweepConserves(s);
    } else if s.sync.Steal? {
      assert multiset(Todo(DoSync(s))) == multiset(s.pending);
    }
  }

  lemma SweepConserves(s: State)
    requires s.sync.Sweep?
    ensures Places(DoSync(s)) == Places(s) && DoSync(s).pushed == s.pushed
  {
    var todo, keep := s.sync.todo, s.sync.keep;
    if todo != [] {
      assert todo == [todo[0]] + todo[1..];
      assert multiset(todo) == multiset{todo[0]} + multiset(todo[1..]);
    }
  }

  lemma StepKeepsInv(s: State, l: Label)
    requires Inv(s) && Enabled(s, l)
    ensures Inv(Do(s, l))
  {
    hide Timely, Conserved, SyncFits, Do;
    StepKeepsFits(s, l);
    StepKeepsTimely(s, l);
    StepConserves(s, l);
  }

  lemma {:induction false} RunKeepsInv(states: seq<State>, labels: seq<Label>, j: nat)
    requires IsRun(states, labels) && j < |states|
    ensures Inv(states[j])
  {
    if j != 0 {
      RunKeepsInv(states, labels, j - 1);
      assert RunsAt(states, labels, j - 1);
      StepKeepsInv(states[j - 1], labels[j - 1]);
    }
  }

  // ---------------------------------------------------------------- safety

  /** The scan in progress, if any, is past slot `t` or does not include it. */
  predicate Passed(s: State, t: nat) {
    || (s.sync.ReadActive? && s.sync.left <= t)
    || (s.sync.ReadLocal? && s.sync.i < t)
  }

  /** Thread `t` settled in a critical section when the epoch was `g`: the epoch has advanced at most once
      since, and cannot advance again before `t` flushes or leaves. */
  ghost predicate Pinned(s: State, t: nat, g: nat) {
    && t < |s.slots|
    && (s.slots[t].pc.In? || s.slots[t].pc.InFlush?)
    && s.slots[t].local <= g <= s.epoch <= g + 1
    && (s.epoch == g + 1 ==> !Passed(s, t))
  }

  /** The steps by which `t` gives up what it may hold. */
  predicate Releases(l: Label, t: nat) {
    l == Leave(t) || l == FlushStore(t) || l == Unregister(t)
  }

  lemma PinnedStep(s: State, l: Label, t: nat, g: nat)
    requires Inv(s) && Enabled(s, l) && Pinned(s, t, g) && !Releases(l, t)
    ensures Pinned(Do(s, l), t, g)
  {
    assert Fits(s.slots[t], s.epoch);
  }

  /** Thread `t` finishes entering, or flushes inside, its critical section in step `i`. */
  predicate Settles(states: seq<State>, labels: seq<Label>, i: nat, t: nat) {
    && i < |labels| && |states| == |labels| + 1
    && t < |states[i].slots|
    && ((labels[i] == EnterStep(t) && states[i].slots[t].pc.EnterLocal?)
        || (labels[i] == FlushStore(t) && states[i].slots[t].pc.InFlush?))
  }

  /** Between steps `i` and `j` thread `t` neither flushes, leaves nor unregisters. */
  ghost predicate Stays(labels: seq<Label>, i: nat, j: nat, t: nat) {
    forall x :: i < x < j && x < |labels| ==> !Releases(labels[x], t)
  }

  lemma {:induction false} PinnedSince(states: seq<State>, labels: seq<Label>, i: nat, j: nat, t: nat)
    requires IsRun(states, labels) && Settles(states, labels, i, t) && i < j < |states| && Stays(labels, i, j, t)
    ensures Pinned(states[j], t, states[i].epoch)
  {
    RunKeepsInv(states, labels, j - 1);
    assert RunsAt(states, labels, j - 1);
    if j == i + 1 {
      assert Fits(states[i].slots[t], states[i].epoch);
    } else {
      PinnedSince(states, labels, i, j - 1, t);
      PinnedStep(states[j - 1], labels[j - 1], t, states[i].epoch);
    }
  }

  /** Thread `u` starts retiring in step `k` and pushes the object in step `p`. */
  predicate Retires(states: seq<State>, labels: seq<Label>, k: nat, p: nat, u: nat) {
    && k < p < |labels| && |states| == |labels| + 1
    && labels[k] == RetireLoad(u) && labels[p] == RetirePush(u)
    && forall x :: k < x < p ==> labels[x] != RetirePush(u)
  }

  lemma {:induction false} RetiringSince(states: seq<State>, labels: seq<Label>, k: nat, p: nat, j: nat, u: nat)
    requires IsRun(states, labels) && Retires(states, labels, k, p, u) && k < j <= p
    ensures u < |states[j].slots| && states[j].slots[u].retiring == Some(states[k].epoch)
  {
    assert RunsAt(states, labels, j - 1);
    if k + 1 < j {
      RetiringSince(states, labels, k, p, j - 1, u);
    }
  }

  /** The epoch and the record of pushes only grow. */
  lemma {:induction false} RecordGrows(states: seq<State>, labels: seq<Label>, i: nat, j: nat)
    requires IsRun(states, labels) && i <= j < |states|
    ensures states[i].epoch <= states[j].epoch && states[i].pushed <= states[j].pushed
    ensures |states[i].slots| <= |states[j].slots|
  {
    if i < j {
      RecordGrows(states, labels, i, j - 1);
      assert RunsAt(states, labels, j - 1);
    }
  }

  /** The object pushed in step `p`, as it is recorded from then on. */
  lemma PushRecorded(states: seq<State>, labels: seq<Label>, p: nat, j: nat, u: nat)
    requires IsRun(states, labels) && p < j < |states| && labels[p] == RetirePush(u)
    ensures var id := |states[p].pushed|;
            && id < |states[j].pushed| && states[j].pushed[id].pushedAt == states[p].epoch
            && u < |states[p].slots| && Some(states[j].pushed[id].epoch) == states[p].slots[u].retiring
  {
    assert RunsAt(states, labels, p);
    RecordGrows(states, labels, p + 1, j);
    assert states[p + 1].pushed[|states[p].pushed|] == states[j].pushed[|states[p].pushed|];
  }

  /** An object is wherever its recorded node is. */
  lemma OnlyItsNode(s: State, n: Node)
    requires Conserved(s) && n in Places(s)
    ensures n.id < |s.pushed| && n == s.pushed[n.id]
  {
    assert n in multiset(s.pushed);
    assert n in s.pushed;
  }

  /** Safety. An object whose retirement starts after `t` finished entering (or last flushed) its critical
      section is not released before `t` flushes, leaves or unregisters, whatever scans are under way. */
  lemma NotReleasedWhilePinned(states: seq<State>, labels: seq<Label>, i: nat, j: nat, t: nat, k: nat, p: nat, u: nat)
    requires IsRun(states, labels) && Settles(states, labels, i, t) && i < j && Stays(labels, i, j, t)
    requires i < k && Retires(states, labels, k, p, u) && p < j < |states|
    ensures forall n :: n in states[j].released ==> n.id != |states[p].pushed|
  {
    PinnedSince(states, labels, i, j, t);
    RetiringSince(states, labels, k, p, p, u);
    PushRecorded(states, labels, p, j, u);
    RecordGrows(states, labels, i, k);
    RunKeepsInv(states, labels, j);
    forall n | n in states[j].released
      ensures n.id != |states[p].pushed|
    {
      assert n in Places(states[j]);
      OnlyItsNode(states[j], n);
    }
  }

  // ---------------------------------------------------------------- conservation and progress

  lemma RecordedOnce(pushed: seq<Node>, id: nat)
    requires id < |pushed| && forall i :: 0 <= i < |pushed| ==> pushed[i].id == i
    ensures multiset(pushed)[pushed[id]] == 1
  {
    var n := pushed[id];
    assert pushed == pushed[..id] + [n] + pushed[id + 1..];
    assert n !in pushed[..id] && n !in pushed[id + 1..];
  }

  /** Whatever the interleaving, each retired object is in exactly one place: pending, in the reclaimer's
      hands, or released; so it is never released twice and never lost. */
  lemma ExactlyOnePlace(states: seq<State>, labels: seq<Label>, j: nat, id: nat)
    requires IsRun(states, labels) && j < |states| && id < |states[j].pushed|
    ensures var s, n := states[j], states[j].pushed[id];
            multiset(s.pending)[n] + multiset(Todo(s))[n] + multiset(Keep(s))[n] + multiset(s.released)[n] == 1
  {
    RunKeepsInv(states, labels, j);
    RecordedOnce(states[j].pushed, id);
    assert Places(states[j])[states[j].pushed[id]] == 1;
  }

  /** An object pushed when the epoch was `e` has been released, once, whenever no reclamation is under way
      and the epoch has reached `e + 2`. */
  lemma ReleasedAfterTwoAdvances(states: seq<State>, labels: seq<Label>, p: nat, u: nat, j: nat)
    requires IsRun(states, labels) && p < j < |states| && labels[p] == RetirePush(u)
    requires states[j].sync.Idle? && states[p].epoch + 2 <= states[j].epoch
    ensures |states[p].pushed| < |states[j].pushed|
    ensures multiset(states[j].released)[states[j].pushed[|states[p].pushed|]] == 1
  {
    PushRecorded(states, labels, p, j, u);
    ExactlyOnePlace(states, labels, j, |states[p].pushed|);
    RunKeepsInv(states, labels, j);
    var s, n := states[j], states[j].pushed[|states[p].pushed|];
    assert !Recent(n, s.epoch, 1);
    assert n !in s.pending;
  }

  // ---------------------------------------------------------------- passes

  /** A reclamation pass runs from state `a` on, and is not over before state `b`. */
  ghost predicate UnderWay(states: seq<State>, labels: seq<Label>, a: nat, b: nat) {
    && a < b < |states| && |states| == |labels| + 1
    && states[a].sync.Idle? && labels[a] == SyncStep
    && forall x :: a < x < b ==> !states[x].sync.Idle?
  }

  /** A complete pass. */
  ghost predicate Pass(states: seq<State>, labels: seq<Label>, a: nat, b: nat) {
    UnderWay(states, labels, a, b) && states[b].sync.Idle?
  }

  /** The scan is about to read the epoch of a slot and to find another one than `epoch`. */
  predicate ReadsOther(s: State, epoch: nat) {
    s.sync.ReadLocal? && s.sync.i < |s.slots| && s.slots[s.sync.i].local != epoch
  }

  predicate FindsOther(states: seq<State>, labels: seq<Label>, x: nat, epoch: nat) {
    x < |labels| && x < |states| && labels[x] == SyncStep && ReadsOther(states[x], epoch)
  }

  /** Before state `b` the pass has read a slot, which it had read to be active, with another epoch. */
  ghost predicate Blocked(states: seq<State>, labels: seq<Label>, a: nat, b: nat) {
    a < |states| && exists x :: a < x < b && FindsOther(states, labels, x, states[a].epoch)
  }

  /** In state `z` of the scan the slot's owner was inside. */
  predicate WasInside(states: seq<State>, z: nat, epoch: nat, i: nat) {
    z < |states| && states[z].epoch == epoch && i < |states[z].slots| && Inside(states[z].slots[i])
  }

  predicate Scanning(sync: Sync) {
    sync.Started? || sync.ReadActive? || sync.ReadLocal?
  }

  /** What one step does to a pass. */
  lemma PassStep(s: State, l: Label)
    requires Inv(s) && Enabled(s, l) && !s.sync.Idle?
    ensures var s' := Do(s, l);
            if l != SyncStep then s'.sync == s.sync && s'.epoch == s.epoch
            else if !Scanning(s.sync) then !Scanning(s'.sync) && s'.epoch == s.epoch
            else if ReadsOther(s, s.epoch) then s'.sync.Steal? && s'.epoch == s.epoch
            else if !Scanning(s'.sync) then s'.sync.Steal? && s'.epoch == s.epoch + 1
            else s'.epoch == s.epoch
    ensures var s' := Do(s, l);
            s'.sync.ReadLocal? && !s.sync.ReadLocal? ==> s'.sync.i < |s.slots| && Inside(s.slots[s'.sync.i])
    ensures var s' := Do(s, l); s'.sync.ReadLocal? && s.sync.ReadLocal? ==> s'.sync == s.sync
  {
    if s.sync.ReadActive? && 0 < s.sync.left { assert Fits(s.slots[s.sync.left - 1], s.epoch); }
  }

  lemma {:induction false} PassSoFar(states: seq<State>, labels: seq<Label>, a: nat, x: nat)
    requires IsRun(states, labels) && UnderWay(states, labels, a, x)
    ensures var (g, s) := (states[a].epoch, states[x]);
            && (Scanning(s.sync) ==> s.epoch == g && !Blocked(states, labels, a, x))
            && (!Scanning(s.sync) ==> s.epoch == g + if Blocked(states, labels, a, x) then 0 else 1)
            && (s.sync.ReadLocal? ==> exists z :: a < z < x && WasInside(states, z, g, s.sync.i))
  {
    var y := x - 1;
    RunKeepsInv(states, labels, y);
    assert RunsAt(states, labels, y);
    if a < y {
      PassSoFar(states, labels, a, y);
      PassStep(states[y], labels[y]);
      assert Blocked(states, labels, a, x) <==>
             Blocked(states, labels, a, y) || FindsOther(states, labels, y, states[a].epoch);
      if states[x].sync.ReadLocal? && !states[y].sync.ReadLocal? {
        assert WasInside(states, y, states[a].epoch, states[x].sync.i);
      }
    }
  }

  /** A complete pass advances the epoch by one if no slot it read was active with another epoch, else not at all. */
  lemma AdvancesIff(states: seq<State>, labels: seq<Label>, a: nat, b: nat)
    requires IsRun(states, labels) && Pass(states, labels, a, b)
    ensures states[b].epoch == states[a].epoch + if Blocked(states, labels, a, b) then 0 else 1
  {
    PassSoFar(states, labels, a, b);
  }

  /** While the epoch is still the one the pass started with, the slot is never inside, or always at that epoch. */
  ghost predicate OutOrCurrent(states: seq<State>, a: nat, b: nat, t: nat) {
    a < |states| && b < |states|
    && ((forall x :: a < x <= b ==> !WasInside(states, x, states[a].epoch, t))
        || (forall x :: a < x <= b && states[x].epoch == states[a].epoch && t < |states[x].slots| ==>
              states[x].slots[t].local == states[a].epoch))
  }

  ghost predicate Quiet(states: seq<State>, a: nat, b: nat) {
    forall t: nat :: OutOrCurrent(states, a, b, t)
  }

  /** A pass advances the epoch if every slot stays outside a critical section, or at the current epoch. */
  lemma AdvancesWhenQuiet(states: seq<State>, labels: seq<Label>, a: nat, b: nat)
    requires IsRun(states, labels) && Pass(states, labels, a, b) && Quiet(states, a, b)
    ensures states[b].epoch == states[a].epoch + 1
  {
    AdvancesIff(states, labels, a, b);
    if Blocked(states, labels, a, b) { BlockedIsNotQuiet(states, labels, a, b); }
  }

  lemma BlockedIsNotQuiet(states: seq<State>, labels: seq<Label>, a: nat, b: nat)
    requires IsRun(states, labels) && Pass(states, labels, a, b) && Blocked(states, labels, a, b)
    ensures !Quiet(states, a, b)
  {
    var x :| a < x < b && FindsOther(states, labels, x, states[a].epoch);
    BlockerIsNotQuiet(states, labels, a, b, x);
  }

  lemma BlockerIsNotQuiet(states: seq<State>, labels: seq<Label>, a: nat, b: nat, x: nat)
    requires IsRun(states, labels) && Pass(states, labels, a, b) && a < x < b
    requires FindsOther(states, labels, x, states[a].epoch)
    ensures !OutOrCurrent(states, a, b, states[x].sync.i)
  {
    PassSoFar(states, labels, a, x);
    var z :| a < z < x && WasInside(states, z, states[a].epoch, states[x].sync.i);
  }

  /** A thread that stays inside with another epoch, from before the pass to its end, holds the epoch back. */
  lemma {:induction false} HeldBack(states: seq<State>, labels: seq<Label>, a: nat, x: nat, t: nat)
    requires IsRun(states, labels) && UnderWay(states, labels, a, x) && t < |states[a].slots|
    requires forall z :: a < z <= x ==> WasInside(states, z, states[z].epoch, t)
                                        && states[z].slots[t].local != states[a].epoch
    ensures states[x].epoch == states[a].epoch
    ensures states[x].sync.ReadActive? ==> t < states[x].sync.left
    ensures states[x].sync.ReadLocal? ==> t <= states[x].sync.i
  {
    var y := x - 1;
    RunKeepsInv(states, labels, y);
    assert RunsAt(states, labels, y);
    if a < y {
      HeldBack(states, labels, a, y, t);
      PassSoFar(states, labels, a, y);
      PassStep(states[y], labels[y]);
      assert WasInside(states, y, states[y].epoch, t);
      assert Fits(states[y].slots[t], states[y].epoch);
    }
  }

  /** No thread is inside at any time during the pass. */
  lemma OutIsQuiet(states: seq<State>, a: nat, b: nat)
    requires a < b < |states|
    requires forall x, t :: a < x <= b && 0 <= t < |states[x].slots| ==> !Inside(states[x].slots[t])
    ensures Quiet(states, a, b)
  {
    forall t: nat ensures OutOrCurrent(states, a, b, t) {
      assert forall x :: a < x <= b ==> !WasInside(states, x, states[a].epoch, t);
    }
  }

  /** At the current epoch, with no older store under way. */
  predicate UpToDate(slot: Slot, epoch: nat) {
    slot.local == epoch && !slot.pc.EnterLocal? && (slot.pc.InFlush? || slot.pc.OutFlush? ==> slot.pc.seen == epoch)
  }

  /** In the steps from `a` to `b` no thread enters a critical section or takes over a slot. */
  ghost predicate NobodyEnters(labels: seq<Label>, a: nat, b: nat) {
    forall x :: a <= x < b && x < |labels| ==> !labels[x].EnterStep? && !labels[x].TakeStep?
  }

  lemma {:induction false} StaysUpToDate(states: seq<State>, labels: seq<Label>, a: nat, x: nat, t: nat)
    requires IsRun(states, labels) && a <= x < |states| && NobodyEnters(labels, a, x)
    requires t < |states[a].slots| && Inside(states[a].slots[t]) ==> UpToDate(states[a].slots[t], states[a].epoch)
    requires states[x].epoch == states[a].epoch && t < |states[x].slots|
    ensures if t < |states[a].slots| && Inside(states[a].slots[t]) then UpToDate(states[x].slots[t], states[a].epoch)
            else !Inside(states[x].slots[t])
  {
    if a < x {
      assert RunsAt(states, labels, x - 1);
      RecordGrows(states, labels, a, x - 1);
      RecordGrows(states, labels, x - 1, x);
      if t < |states[x - 1].slots| { StaysUpToDate(states, labels, a, x - 1, t); }
    }
  }

  /** Everyone who is inside when the pass starts has flushed, and nobody enters during the pass. */
  lemma FlushedIsQuiet(states: seq<State>, labels: seq<Label>, a: nat, b: nat)
    requires IsRun(states, labels) && a < b < |states| && NobodyEnters(labels, a, b)
    requires forall t :: 0 <= t < |states[a].slots| && Inside(states[a].slots[t]) ==>
                           UpToDate(states[a].slots[t], states[a].epoch)
    ensures Quiet(states, a, b)
  {
    forall t: nat ensures OutOrCurrent(states, a, b, t) {
      forall x | a < x <= b && states[x].epoch == states[a].epoch && t < |states[x].slots|
        ensures if t < |states[a].slots| && Inside(states[a].slots[t]) then states[x].slots[t].local == states[a].epoch
                else !WasInside(states, x, states[a].epoch, t)
      {
        StaysUpToDate(states, labels, a, x, t);
      }
    }
  }

  /** How many more steps the operation of a slot's owner takes. */
  function Remaining(pc: Pc): nat {
    match pc
    case TakeActive => 2
    case EnterActive(_) => 2
    case TakeLocal => 1
    case OutFlush(_) => 1
    case EnterLocal(_) => 1
    case InFlush(_) => 1
    case Quit => 1
    case _ => 0
  }

  /** An operation ends after one or two steps of its own. Entering takes a thread inside, leaving and unregistering
      take it out, and nothing else does either. */
  lemma OwnStep(s: State, l: Label)
    requires Enabled(s, l) && !l.Register? && !l.SyncStep?
    ensures l.t < |Do(s, l).slots|
    ensures var (slot, slot') := (s.slots[l.t], Do(s, l).slots[l.t]);
            && (l.TakeStep? || l.EnterStep? || l.FlushStore? || l.Terminate? ==>
                  Remaining(slot'.pc) + 1 == Remaining(slot.pc))
            && Inside(slot') == if l.EnterStep? then true else if l.Leave? || l.Unregister? then false else Inside(slot)
  {
  }

  /** The owner has read this epoch and not stored it yet. */
  predicate Saw(slot: Slot, epoch: nat) {
    (slot.pc.InFlush? || slot.pc.OutFlush? || slot.pc.EnterActive? || slot.pc.EnterLocal?) && slot.pc.seen == epoch
  }

  /** In step `y` thread `t` stores the epoch it read. */
  predicate StoresEpoch(states: seq<State>, labels: seq<Label>, y: nat, t: nat) {
    && y < |labels| && y < |states| && t < |states[y].slots|
    && (labels[y] == FlushStore(t) || (labels[y] == EnterStep(t) && states[y].slots[t].pc.EnterLocal?))
  }

  lemma {:induction false} SawSince(states: seq<State>, labels: seq<Label>, x: nat, y: nat, t: nat)
    requires IsRun(states, labels) && x < y < |states| && (labels[x] == Flush(t) || labels[x] == Enter(t))
    requires forall z :: x < z < y ==> !StoresEpoch(states, labels, z, t)
    ensures t < |states[y].slots| && Saw(states[y].slots[t], states[x].epoch)
  {
    assert RunsAt(states, labels, y - 1);
    if x + 1 < y {
      SawSince(states, labels, x, y - 1, t);
      assert !StoresEpoch(states, labels, y - 1, t);
    }
  }

  /** A flush, and the end of entering, store the epoch that was current at the start. */
  lemma StoresWhatItRead(states: seq<State>, labels: seq<Label>, x: nat, y: nat, t: nat)
    requires IsRun(states, labels) && x < y < |labels| && (labels[x] == Flush(t) || labels[x] == Enter(t))
    requires StoresEpoch(states, labels, y, t) && forall z :: x < z < y ==> !StoresEpoch(states, labels, z, t)
    ensures t < |states[y + 1].slots| && states[y + 1].slots[t].local == states[x].epoch
  {
    SawSince(states, labels, x, y, t);
    assert RunsAt(states, labels, y);
  }

  // ---------------------------------------------------------------- liveness

  /** How many of the steps from `a` to `b` the reclaimer takes. */
  function Taken(labels: seq<Label>, a: nat, b: nat): nat
    requires a <= b <= |labels|
  {
    if a == b then 0 else Taken(labels, a, b - 1) + if labels[b - 1] == SyncStep then 1 else 0
  }

  /** How many steps the pass has left at most, with so many slots and objects. */
  function Rank(sync: Sync, slots: nat, objects: nat): nat {
    match sync
    case Idle => 0
    case Started(_) => 2 * slots + objects + 4
    case ReadActive(_, left) => 2 * left + objects + 3
    case ReadLocal(_, i) => 2 * i + objects + 4
    case Steal(_) => objects + 2
    case Sweep(_, todo, _) => |todo| + 1
  }

  /** A pass is over after a bounded number of the reclaimer's own steps, whatever the threads do meanwhile. */
  lemma {:induction false} PassEnds(states: seq<State>, labels: seq<Label>, a: nat, x: nat)
    requires IsRun(states, labels) && UnderWay(states, labels, a, x)
    ensures var (slots, objects) := (|states[x].slots|, |states[x].pushed|);
            Taken(labels, a, x) + Rank(states[x].sync, slots, objects) <= 2 * slots + objects + 5
  {
    var y := x - 1;
    RunKeepsInv(states, labels, y);
    assert RunsAt(states, labels, y);
    if a < y {
      PassEnds(states, labels, a, y);
      RankStep(states[y], labels[y]);
    } else {
      assert Taken(labels, a, x) == 1;
    }
  }

  lemma RankStep(s: State, l: Label)
    requires Inv(s) && Enabled(s, l) && !s.sync.Idle?
    ensures var s' := Do(s, l);
            var (before, after) := (2 * |s.slots| + |s.pushed|, 2 * |s'.slots| + |s'.pushed|);
            && before <= after
            && Rank(s'.sync, |s'.slots|, |s'.pushed|) + (if l == SyncStep then 1 else 0)
               <= Rank(s.sync, |s.slots|, |s.pushed|) + after - before
  {
    hide Timely;
    assert |Places(s)| == |multiset(s.pushed)|;
    hide Conserved;
  }

  /** Two passes in a quiet time release every object that was pending before them. */
  lemma TwoPassesRelease(states: seq<State>, labels: seq<Label>, a: nat, b: nat, c: nat, d: nat)
    requires IsRun(states, labels) && Pass(states, labels, a, b) && Pass(states, labels, c, d) && b <= c
    requires Quiet(states, a, b) && Quiet(states, c, d)
    ensures forall n :: n in states[a].pending ==> multiset(states[d].released)[n] == 1
    ensures forall n :: n in states[d].pending ==> |states[a].pushed| <= n.id
  {
    AdvancesWhenQuiet(states, labels, a, b);
    AdvancesWhenQuiet(states, labels, c, d);
    RecordGrows(states, labels, b, c);
    RecordGrows(states, labels, a, d);
    RunKeepsInv(states, labels, a);
    RunKeepsInv(states, labels, d);
    forall n | n in states[a].pending ensures multiset(states[d].released)[n] == 1 {
      assert n in Places(states[a]);
      OnlyItsNode(states[a], n);
      OldIsReleased(states, labels, a, d, n.id);
    }
    forall n | n in states[d].pending ensures |states[a].pushed| <= n.id {
      assert n in Places(states[d]);
      OnlyItsNode(states[d], n);
      if n.id < |states[a].pushed| { OldIsReleased(states, labels, a, d, n.id); }
    }
  }

  lemma OldIsReleased(states: seq<State>, labels: seq<Label>, a: nat, d: nat, id: nat)
    requires IsRun(states, labels) && a <= d < |states| && states[d].sync.Idle?
    requires states[a].epoch + 2 <= states[d].epoch && id < |states[a].pushed|
    ensures id < |states[d].pushed| && states[d].pushed[id] == states[a].pushed[id]
    ensures var n := states[a].pushed[id]; n !in states[d].pending && multiset(states[d].released)[n] == 1
  {
    RecordGrows(states, labels, a, d);
    RunKeepsInv(states, labels, a);
    RunKeepsInv(states, labels, d);
    ExactlyOnePlace(states, labels, d, id);
    var n := states[a].pushed[id];
    assert states[d].pushed[id] == n && n.pushedAt <= states[a].epoch;
    assert !Recent(n, states[d].epoch, 1);
  }

  /** Ebr_force_reclaim comes to an end: when nobody retires anything more, two passes in a quiet time leave
      nothing pending. */
  lemma NothingLeft(states: seq<State>, labels: seq<Label>, a: nat, b: nat, c: nat, d: nat)
    requires IsRun(states, labels) && Pass(states, labels, a, b) && Pass(states, labels, c, d) && b <= c
    requires Quiet(states, a, b) && Quiet(states, c, d)
    requires forall x :: a <= x < d ==> !labels[x].RetirePush?
    ensures states[d].pending == []
  {
    TwoPassesRelease(states, labels, a, b, c, d);
    NoPushes(states, labels, a, d);
    RunKeepsInv(states, labels, d);
    if states[d].pending != [] {
      var n := states[d].pending[0];
      assert n in Places(states[d]);
      OnlyItsNode(states[d], n);
    }
  }

  lemma {:induction false} NoPushes(states: seq<State>, labels: seq<Label>, i: nat, j: nat)
    requires IsRun(states, labels) && i <= j < |states| && forall x :: i <= x < j ==> !labels[x].RetirePush?
    ensures states[j].pushed == states[i].pushed
  {
    if i < j {
      NoPushes(states, labels, i, j - 1);
      assert RunsAt(states, labels, j - 1);
    }
  }
}
