/** Keyword interning (Keyword.c): any number of threads turn strings into ids through two concurrent maps
    and one counter. The maps are used through their finite-map specification, one operation at a time. */
module Keywords {
  import opened LeapfrogTable
  import LeapfrogProtocol

  /** A string stands for its class under `equals`. */
  type Str = Key
  type Id = Key
  type Tid = nat

  /** Program points of Keyword_create. */
  datatype Pc =
    | Lookup
    | NewId
    | StoreString(id: Id)
    | Publish(id: Id)
    | Withdraw(id: Id, existing: Id)
    | Return(id: Id)

  datatype Thread = Idle | Run(s: Str, pc: Pc)

  datatype State = State(keywords: map<Str, Id>, inverted: map<Id, Str>, minUnused: Id, threads: map<Tid, Thread>)

  /** `Overflow` is an insertion that throws because the map is overcrowded. */
  datatype Label = Call(t: Tid, s: Str) | Go(t: Tid) | Overflow(t: Tid)

  predicate Init(s: State) {
    s.keywords == map[] && s.inverted == map[] && s.minUnused == 1 && forall t :: t in s.threads ==> s.threads[t].Idle?
  }

  predicate Enabled(s: State, l: Label) {
    && l.t in s.threads
    && (l.Call? <==> s.threads[l.t].Idle?)
    && (l.Overflow? ==> s.threads[l.t].pc.StoreString? || s.threads[l.t].pc.Publish?)
  }

  function Do(s: State, l: Label): State
    requires Enabled(s, l)
  {
    match l
    case Call(t, str) => s.(threads := s.threads[t := Run(str, Lookup)])
    case Overflow(t) => s.(threads := s.threads[t := Idle])
    case Go(t) =>
      var str, pc := s.threads[t].s, s.threads[t].pc;
      match pc
      case Lookup =>
        At(s, t, if str in s.keywords then Return(s.keywords[str]) else NewId)
      case NewId =>
        At(s.(minUnused := s.minUnused + 1), t, StoreString(s.minUnused))
      case StoreString(id) =>
        At(s.(inverted := s.inverted[id := str]), t, Publish(id))
      case Publish(id) =>
        if str in s.keywords then At(s, t, Withdraw(id, s.keywords[str]))
        else At(s.(keywords := s.keywords[str := id]), t, Return(id))
      case Withdraw(id, existing) =>
        At(s.(inverted := s.inverted - {id}), t, Return(existing))
      case Return(_) => s.(threads := s.threads[t := Idle])
  }

  function At(s: State, t: Tid, pc: Pc): State
    requires t in s.threads && s.threads[t].Run?
  {
    s.(threads := s.threads[t := s.threads[t].(pc := pc)])
  }

  predicate RunsAt(states: seq<State>, labels: seq<Label>, j: nat)
    requires |states| == |labels| + 1 && j < |labels|
  {
    Enabled(states[j], labels[j]) && states[j + 1] == Do(states[j], labels[j])
  }

  predicate IsRun(states: seq<State>, labels: seq<Label>) {
    && |states| == |labels| + 1 && Init(states[0])
    && forall j: nat :: j < |labels| ==> RunsAt(states, labels, j)
  }

  // ---------------------------------------------------------------- the maps

  /** A map of words, as the concurrent hash map holds it. */
  ghost function Words(m: map<Key, int>): map<Key, Value> {
    map k | k in m :: Word(m[k])
  }

  /** Each map access is one operation of the finite map that the concurrent hash map linearizes to. */
  lemma AccessesAreMapOperations(s: State, t: Tid)
    requires Enabled(s, Go(t))
    ensures var s', th := Do(s, Go(t)), s.threads[t];
            var (a, a', b, b') := (Words(s.keywords), Words(s'.keywords), Words(s.inverted), Words(s'.inverted));
            match th.pc
            case Lookup => b' == b && exists r ::
              && LeapfrogProtocol.SpecStep(LeapfrogProtocol.Get(th.s), a, a', LeapfrogProtocol.Got(r))
              && s'.threads[t].pc == if r.Nil? then NewId else Return(r.bits)
            case StoreString(id) =>
              a' == a && LeapfrogProtocol.SpecStep(LeapfrogProtocol.Assoc(id, Word(th.s)), b, b', LeapfrogProtocol.Done)
            case Publish(id) => b' == b && exists r ::
              && LeapfrogProtocol.SpecStep(LeapfrogProtocol.PutIfAbsent(th.s, Word(id)), a, a', LeapfrogProtocol.Got(r))
              && s'.threads[t].pc == if r.Nil? then Return(id) else Withdraw(id, r.bits)
            case Withdraw(id, _) =>
              a' == a && LeapfrogProtocol.SpecStep(LeapfrogProtocol.Dissoc(id), b, b', LeapfrogProtocol.Done)
            case _ => a' == a && b' == b
  {
    hide Words;
    var th := s.threads[t];
    match th.pc
    case Lookup =>
      HeldWord(s.keywords, th.s);
      var a := Words(s.keywords);
      var r := if th.s in a then a[th.s] else Nil;
      assert LeapfrogProtocol.SpecStep(LeapfrogProtocol.Get(th.s), a, a, LeapfrogProtocol.Got(r));
    case StoreString(id) =>
      PutWord(s.inverted, id, th.s);
    case Publish(id) =>
      HeldWord(s.keywords, th.s);
      PutWord(s.keywords, th.s, id);
    case Withdraw(id, _) =>
      DropWord(s.inverted, id);
    case _ =>
  }

  lemma HeldWord(m: map<Key, int>, k: Key)
    ensures k in Words(m) <==> k in m
    ensures k in m ==> Words(m)[k] == Word(m[k])
  {
  }

  lemma PutWord(m: map<Key, int>, k: Key, x: int)
    ensures Words(m[k := x]) == Words(m)[k := Word(x)]
  {
  }

  lemma DropWord(m: map<Key, int>, k: Key)
    ensures Words(m - {k}) == Words(m) - {k}
  {
  }

  // ---------------------------------------------------------------- the invariant

  /** The thread has drawn this id and not published it. */
  predicate Drew(th: Thread, id: Id) {
    th.Run? && (th.pc.StoreString? || th.pc.Publish? || th.pc.Withdraw?) && th.pc.id == id
  }

  ghost predicate Fits(s: State, th: Thread) {
    && (forall id :: Drew(th, id) ==> id < s.minUnused && forall k :: k in s.keywords ==> s.keywords[k] != id)
    && (th.Run? ==> match th.pc
          case Publish(id) => id in s.inverted && s.inverted[id] == th.s
          case Withdraw(_, existing) => th.s in s.keywords && s.keywords[th.s] == existing
          case Return(id) => th.s in s.keywords && s.keywords[th.s] == id
          case _ => true)
  }

  ghost predicate Resolves(s: State) {
    forall k :: k in s.keywords ==>
      s.keywords[k] < s.minUnused && s.keywords[k] in s.inverted && s.inverted[s.keywords[k]] == k
  }

  ghost predicate AllDisjoint(s: State) {
    forall t, u, id :: t in s.threads && u in s.threads && Drew(s.threads[t], id) && Drew(s.threads[u], id) ==> t == u
  }

  ghost predicate Inv(s: State) {
    Resolves(s) && AllDisjoint(s) && forall t :: t in s.threads ==> Fits(s, s.threads[t])
  }

  /** Interned strings resolve, and never lose their id. */
  lemma StepKeepsInterned(s: State, l: Label)
    requires Inv(s) && Enabled(s, l)
    ensures var s' := Do(s, l);
            && s.minUnused <= s'.minUnused
            && (forall k :: k in s.keywords ==> k in s'.keywords && s'.keywords[k] == s.keywords[k])
            && Resolves(s')
  {
    var th := s.threads[l.t];
    assert Fits(s, th);
    if l.Go? && (th.pc.StoreString? || th.pc.Publish? || th.pc.Withdraw?) { assert Drew(th, th.pc.id); }
  }

  lemma StepKeepsDisjoint(s: State, l: Label)
    requires Inv(s) && Enabled(s, l)
    ensures AllDisjoint(Do(s, l))
  {
    var s' := Do(s, l);
    forall t, u, id | t in s'.threads && u in s'.threads && Drew(s'.threads[t], id) && Drew(s'.threads[u], id)
      ensures t == u
    {
      assert Fits(s, s.threads[t]) && Fits(s, s.threads[u]);
      assert Drew(s.threads[t], id) || id == s.minUnused;
      assert Drew(s.threads[u], id) || id == s.minUnused;
    }
  }

  lemma StepKeepsFits(s: State, l: Label, u: Tid)
    requires Inv(s) && Enabled(s, l) && u in s.threads
    ensures Fits(Do(s, l), Do(s, l).threads[u])
  {
    var th, th' := s.threads[l.t], s.threads[u];
    assert Fits(s, th) && Fits(s, th');
    if l.Go? && !th.pc.Lookup? && !th.pc.NewId? && !th.pc.Return? { assert Drew(th, th.pc.id); }
    if th'.Run? && (th'.pc.StoreString? || th'.pc.Publish? || th'.pc.Withdraw?) { assert Drew(th', th'.pc.id); }
  }

  lemma StepKeepsInv(s: State, l: Label)
    requires Inv(s) && Enabled(s, l)
    ensures Inv(Do(s, l))
  {
    hide Fits, AllDisjoint, Resolves;
    StepKeepsInterned(s, l);
    StepKeepsDisjoint(s, l);
    forall u | u in Do(s, l).threads ensures Fits(Do(s, l), Do(s, l).threads[u]) { StepKeepsFits(s, l, u); }
  }

  lemma {:induction false} RunKeepsInv(states: seq<State>, labels: seq<Label>, j: nat)
    requires IsRun(states, labels) && j < |states|
    ensures Inv(states[j])
  {
    if j != 0 {
      RunKeepsInv(states, labels, j - 1);
      assert RunsAt(states, labels, j - 1);
      StepKeepsInv(states[j - 1], labels[j - 1]);
    }
  }

  /** An interned string keeps its id for good. */
  lemma {:induction false} InternedForGood(states: seq<State>, labels: seq<Label>, i: nat, j: nat, k: Str)
    requires IsRun(states, labels) && i <= j < |states| && k in states[i].keywords
    ensures k in states[j].keywords && states[j].keywords[k] == states[i].keywords[k]
  {
    if i != j {
      InternedForGood(states, labels, i, j - 1, k);
      RunKeepsInv(states, labels, j - 1);
      assert RunsAt(states, labels, j - 1);
      StepKeepsInterned(states[j - 1], labels[j - 1]);
    }
  }

  // ---------------------------------------------------------------- what callers get

  /** How many steps of its own a call has left at most. */
  function Rank(pc: Pc): nat {
    match pc
    case Return(_) => 1
    case Withdraw(_, _) => 2
    case Publish(_) => 3
    case StoreString(_) => 4
    case NewId => 5
    case Lookup => 6
  }

  /** How many of the steps from `i` to `j` are taken by thread `t`. */
  function Taken(labels: seq<Label>, t: Tid, i: nat, j: nat): nat
    requires i <= j <= |labels|
  {
    if i == j then 0 else Taken(labels, t, i, j - 1) + if labels[j - 1] == Go(t) then 1 else 0
  }

  /** The call that thread `t` makes in step `i` is still under way in state `j`. */
  ghost predicate Calls(states: seq<State>, labels: seq<Label>, i: nat, j: nat, t: Tid, str: Str) {
    && i < j < |states| && i < |labels| && labels[i] == Call(t, str)
    && forall x :: i < x <= j ==> t in states[x].threads && states[x].threads[t].Run?
  }

  /** A call interns the string it was made with, and is over after at most six steps of its own. */
  lemma {:induction false} CallEnds(states: seq<State>, labels: seq<Label>, i: nat, j: nat, t: Tid, str: Str)
    requires IsRun(states, labels) && Calls(states, labels, i, j, t, str)
    ensures states[j].threads[t].s == str
    ensures Taken(labels, t, i + 1, j) + Rank(states[j].threads[t].pc) <= 6
  {
    assert RunsAt(states, labels, j - 1);
    if i + 1 < j { CallEnds(states, labels, i, j - 1, t, str); }
  }

  /** The call made in step `i` for `str` is about to return `id` in state `j`. */
  ghost predicate Answers(states: seq<State>, labels: seq<Label>, i: nat, j: nat, t: Tid, str: Str, id: Id) {
    Calls(states, labels, i, j, t, str) && states[j].threads[t].pc == Return(id)
  }

  lemma AnswerIsInterned(states: seq<State>, labels: seq<Label>, i: nat, j: nat, t: Tid, str: Str, id: Id)
    requires IsRun(states, labels) && Answers(states, labels, i, j, t, str, id)
    ensures str in states[j].keywords && states[j].keywords[str] == id
  {
    RunKeepsInv(states, labels, j);
    CallEnds(states, labels, i, j, t, str);
    assert Fits(states[j], states[j].threads[t]);
  }

  /** Two calls return the same id exactly when their strings are equal, whatever runs in between. */
  lemma SameIdIffSameString(states: seq<State>, labels: seq<Label>, p: nat, i: nat, q: nat, j: nat, t: Tid, u: Tid,
                            a: Str, b: Str, x: Id, y: Id)
    requires IsRun(states, labels) && Answers(states, labels, p, i, t, a, x) && Answers(states, labels, q, j, u, b, y)
    ensures x == y <==> a == b
  {
    var m := if i <= j then j else i;
    AnswerIsInterned(states, labels, p, i, t, a, x);
    AnswerIsInterned(states, labels, q, j, u, b, y);
    InternedForGood(states, labels, i, m, a);
    InternedForGood(states, labels, j, m, b);
    RunKeepsInv(states, labels, m);
  }

  /** Once returned, an id leads back to its string in every later state. */
  lemma ReturnedIdResolves(states: seq<State>, labels: seq<Label>, p: nat, i: nat, j: nat, t: Tid, str: Str, id: Id)
    requires IsRun(states, labels) && Answers(states, labels, p, i, t, str, id) && i <= j < |states|
    ensures id in states[j].inverted && states[j].inverted[id] == str
  {
    AnswerIsInterned(states, labels, p, i, t, str, id);
    InternedForGood(states, labels, i, j, str);
    RunKeepsInv(states, labels, j);
  }

  // ---------------------------------------------------------------- nothing is left behind

  /** The id is interned, or some thread has drawn it and not finished. */
  ghost predicate Backed(s: State, id: Id)
    requires id in s.inverted
  {
    || (s.inverted[id] in s.keywords && s.keywords[s.inverted[id]] == id)
    || exists t :: t in s.threads && Drew(s.threads[t], id)
  }

  ghost predicate Tidy(s: State) {
    forall id :: id in s.inverted ==> Backed(s, id)
  }

  lemma StepKeepsTidy(s: State, l: Label)
    requires Inv(s) && Tidy(s) && Enabled(s, l) && !l.Overflow?
    ensures Tidy(Do(s, l))
  {
    var s', th := Do(s, l), s.threads[l.t];
    assert Fits(s, th);
    forall id | id in s'.inverted ensures Backed(s', id) {
      if l.Go? && Drew(th, id) {
        assert th.pc.Withdraw? || th.pc.Publish? || Drew(s'.threads[l.t], id);
        if th.pc.Publish? && th.s in s.keywords { assert Drew(s'.threads[l.t], id); }
      } else {
        assert Backed(s, id);
        if !(s.inverted[id] in s.keywords && s.keywords[s.inverted[id]] == id) {
          var u :| u in s.threads && Drew(s.threads[u], id);
          assert Drew(s'.threads[u], id);
        }
      }
    }
  }

  lemma {:induction false} RunKeepsTidy(states: seq<State>, labels: seq<Label>, j: nat)
    requires IsRun(states, labels) && j < |states| && forall i :: 0 <= i < j ==> !labels[i].Overflow?
    ensures Tidy(states[j])
  {
    if j != 0 {
      RunKeepsInv(states, labels, j - 1);
      RunKeepsTidy(states, labels, j - 1);
      assert RunsAt(states, labels, j - 1);
      StepKeepsTidy(states[j - 1], labels[j - 1]);
    }
  }

  /** Losers remove the ids they drew: without an overflow, the two maps are inverse to each other whenever no
      call is under way. */
  lemma MapsAreInverse(states: seq<State>, labels: seq<Label>, j: nat)
    requires IsRun(states, labels) && j < |states| && forall i :: 0 <= i < j ==> !labels[i].Overflow?
    requires forall t :: t in states[j].threads ==> states[j].threads[t].Idle?
    ensures var s := states[j];
            forall id, k :: (id in s.inverted && s.inverted[id] == k) <==> (k in s.keywords && s.keywords[k] == id)
  {
    RunKeepsInv(states, labels, j);
    RunKeepsTidy(states, labels, j);
    assert forall id :: id in states[j].inverted ==> Backed(states[j], id);
  }
}
