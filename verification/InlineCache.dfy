/** The inline-cache slot of a call site (Function.c, InvokeManager.cpp): threads look a callable up and
    update the slot, while the rest of the program retains, releases, frees and reuses addresses. */
module InlineCache {
  import opened Options

  /** The 64 bits of a value. Zero is the double 0.0. */
  type Bits = nat

  datatype Method = Method(fixedArity: nat, isVariadic: bool)

  datatype Callable = Fn(methods: seq<Method>) | Keyword | ArrayMap | Vector | NotCallable

  /** The address of a method: in a function object, or one of the four global descriptors. */
  datatype MethodRef = InFunction(f: Bits, i: nat) | Keyword1 | Keyword2 | Map1 | Vector1

  /** A pointer to a method, as the slot holds it and a lookup yields it. */
  datatype Pointer = Null | To(m: MethodRef)

  /** What the slow path does: it finds a method, or throws. */
  datatype Choice = Found(m: MethodRef) | Throws

  // ---------------------------------------------------------------- choosing a method

  predicate Exact(m: Method, argCount: nat) {
    !m.isVariadic && m.fixedArity == argCount
  }

  predicate Variadic(m: Method, argCount: nat) {
    m.isVariadic && m.fixedArity <= argCount
  }

  /** A method of exactly this many arguments wins over a variadic one that takes them, and the first of its kind wins;
      none is picked when there is neither. */
  ghost predicate Picks(methods: seq<Method>, argCount: nat, r: Option<nat>) {
    match r
    case Some(i) =>
      && i < |methods|
      && (if methods[i].isVariadic
          then
            && methods[i].fixedArity <= argCount
            && (forall j :: 0 <= j < |methods| && !methods[j].isVariadic ==> methods[j].fixedArity != argCount)
            && (forall j :: 0 <= j < i && methods[j].isVariadic ==> argCount < methods[j].fixedArity)
          else
            && methods[i].fixedArity == argCount
            && (forall j :: 0 <= j < i && !methods[j].isVariadic ==> methods[j].fixedArity != argCount))
    case None =>
      forall j :: 0 <= j < |methods| ==>
        if methods[j].isVariadic then argCount < methods[j].fixedArity else methods[j].fixedArity != argCount
  }

  lemma PickIsUnique(methods: seq<Method>, argCount: nat, r: Option<nat>, r': Option<nat>)
    requires Picks(methods, argCount, r) && Picks(methods, argCount, r')
    ensures r == r'
  {
  }

  /** Function_extractMethod; None is the arity exception. */
  method ExtractMethod(methods: seq<Method>, argCount: nat) returns (r: Option<nat>)
    ensures Picks(methods, argCount, r) && r == Extract(methods, argCount)
  {
    r := None;
    for i := 0 to |methods|
      invariant forall j :: 0 <= j < i ==> !Exact(methods[j], argCount)
    {
      if Exact(methods[i], argCount) {
        PickIsUnique(methods, argCount, Some(i), Extract(methods, argCount));
        return Some(i);
      }
    }
    for i := 0 to |methods|
      invariant forall j :: 0 <= j < i ==> !Variadic(methods[j], argCount)
    {
      if Variadic(methods[i], argCount) {
        PickIsUnique(methods, argCount, Some(i), Extract(methods, argCount));
        return Some(i);
      }
    }
    PickIsUnique(methods, argCount, r, Extract(methods, argCount));
  }

  /** The same choice as a value. */
  function Extract(methods: seq<Method>, argCount: nat): (r: Option<nat>)
    ensures Picks(methods, argCount, r)
  {
    var exact := First(methods, m => Exact(m, argCount));
    if exact.Some? then exact else First(methods, m => Variadic(m, argCount))
  }

  function First(methods: seq<Method>, p: Method -> bool): (r: Option<nat>)
    ensures r.Some? ==> r.value < |methods| && p(methods[r.value]) && forall j :: 0 <= j < r.value ==> !p(methods[j])
    ensures r.None? ==> forall j :: 0 <= j < |methods| ==> !p(methods[j])
  {
    if methods == [] then None
    else
      var n := |methods| - 1;
      var r := First(methods[..n], p);
      if r.Some? then r else if p(methods[n]) then Some(n) else None
  }

  /** The slow path's choice for a callable with these bits. */
  function Slow(b: Bits, c: Callable, argCount: nat): Choice {
    match c
    case Fn(methods) =>
      var r := Extract(methods, argCount);
      if r.None? then Throws else Found(InFunction(b, r.value))
    case Keyword => if argCount == 1 then Found(Keyword1) else if argCount == 2 then Found(Keyword2) else Throws
    case ArrayMap => if argCount == 1 then Found(Map1) else Throws
    case Vector => if argCount == 1 then Found(Vector1) else Throws
    case NotCallable => Throws
  }

  /** The kind of value a global descriptor is for, and its fixed arity; the method of a function has neither. */
  function Descriptor(m: MethodRef): Option<(Callable, nat)> {
    match m
    case Keyword1 => Some((Keyword, 1))
    case Keyword2 => Some((Keyword, 2))
    case Map1 => Some((ArrayMap, 1))
    case Vector1 => Some((Vector, 1))
    case InFunction(_, _) => None
  }

  /** The method to call for the value `b`: the one its function object picks, or else the descriptor of its kind
      and of this many arguments. */
  ghost predicate Right(b: Bits, c: Callable, argCount: nat, m: MethodRef) {
    if c.Fn? then m.InFunction? && m.f == b && Picks(c.methods, argCount, Some(m.i))
    else Descriptor(m) == Some((c, argCount))
  }

  /** The slow path finds the right method, and throws exactly when there is none. */
  lemma SlowIsRight(b: Bits, c: Callable, argCount: nat)
    ensures var r := Slow(b, c, argCount);
            && (r.Found? ==> Right(b, c, argCount, r.m))
            && (r.Throws? <==> if c.Fn? then Picks(c.methods, argCount, None)
                               else forall m :: Descriptor(m) != Some((c, argCount)))
    ensures forall m :: Right(b, c, argCount, m) ==> Slow(b, c, argCount) == Found(m)
  {
    var r := Slow(b, c, argCount);
    if c.Fn? {
      forall m | Right(b, c, argCount, m) ensures r == Found(m) {
        PickIsUnique(c.methods, argCount, Some(m.i), Extract(c.methods, argCount));
      }
      if Picks(c.methods, argCount, None) { PickIsUnique(c.methods, argCount, None, Extract(c.methods, argCount)); }
    } else if r.Throws? {
      forall m ensures Descriptor(m) != Some((c, argCount)) {
        match m
        case _ =>
      }
    } else {
      assert Descriptor(r.m) == Some((c, argCount));
    }
  }

  // ---------------------------------------------------------------- the transition system

  /** A call site: its argument count, and the values that are not heap objects. */
  datatype Site = Site(argCount: nat, immediate: map<Bits, Callable>) {
    /** Of the values outside the heap only keywords are callable, and 0.0 is one of the others. */
    predicate Valid() {
      && 0 in immediate && immediate[0] == NotCallable
      && forall b :: b in immediate ==> immediate[b].Keyword? || immediate[b].NotCallable?
    }
  }

  /** `ext` is how many of an object's references the rest of the program holds. */
  datatype Obj = Obj(callable: Callable, count: nat, ext: nat)

  datatype Slot = Slot(key: Bits, target: Pointer)

  /** A lookup of the value `b`, which its thread holds one reference to. */
  datatype Thread =
    | Idle
    | Load(b: Bits)
    | Retain(b: Bits, m: MethodRef)
    | Exchange(b: Bits, m: MethodRef)
    | ReleaseOld(b: Bits, m: MethodRef, old_: Bits)
    | Done(b: Bits, result: Pointer, hit: bool)

  datatype State = State(heap: map<Bits, Obj>, slot: Slot, threads: seq<Thread>)

  datatype Label =
    | Call(t: nat, b: Bits)
    | Go(t: nat)
    | ExtRetain(b: Bits)
    | ExtRelease(b: Bits)
    | Alloc(b: Bits, c: Callable)

  predicate Init(site: Site, s: State) {
    && site.Valid() && s.heap == map[] && s.slot == Slot(0, Null)
    && forall t :: 0 <= t < |s.threads| ==> s.threads[t].Idle?
  }

  predicate Enabled(site: Site, s: State, l: Label) {
    match l
    case Call(t, b) =>
      && t < |s.threads| && s.threads[t].Idle?
      && (b in site.immediate || (b in s.heap && 0 < s.heap[b].ext))
    case Go(t) => t < |s.threads| && !s.threads[t].Idle?
    case ExtRetain(b) => b in s.heap && 0 < s.heap[b].ext
    case ExtRelease(b) => b in s.heap && 0 < s.heap[b].ext
    case Alloc(b, c) => b !in s.heap && b !in site.immediate
  }

  function CallableOf(site: Site, heap: map<Bits, Obj>, b: Bits): Callable {
    if b in site.immediate then site.immediate[b] else if b in heap then heap[b].callable else NotCallable
  }

  /** Add a reference to a heap object; values outside the heap are not counted. */
  function Up(heap: map<Bits, Obj>, b: Bits): map<Bits, Obj> {
    if b in heap then heap[b := heap[b].(count := heap[b].count + 1)] else heap
  }

  /** Drop a reference; the last one frees the object, and its address may be used again. */
  function Down(heap: map<Bits, Obj>, b: Bits): map<Bits, Obj> {
    if b !in heap then heap
    else if heap[b].count <= 1 then heap - {b}
    else heap[b := heap[b].(count := heap[b].count - 1)]
  }

  /** Move a reference between a thread and the rest of the program. */
  function Shift(heap: map<Bits, Obj>, b: Bits, n: int): map<Bits, Obj> {
    if b in heap && 0 <= heap[b].ext + n then heap[b := heap[b].(ext := heap[b].ext + n)] else heap
  }

  function Do(site: Site, s: State, l: Label): State
    requires Enabled(site, s, l)
  {
    match l
    case Call(t, b) => State(Shift(s.heap, b, -1), s.slot, s.threads[t := Load(b)])
    case Go(t) => Act(site, s, t)
    case ExtRetain(b) => s.(heap := Shift(Up(s.heap, b), b, 1))
    case ExtRelease(b) => s.(heap := Down(Shift(s.heap, b, -1), b))
    case Alloc(b, c) => s.(heap := s.heap[b := Obj(c, 1, 1)])
  }

  function Act(site: Site, s: State, t: nat): State
    requires t < |s.threads|
  {
    match s.threads[t]
    case Idle => s
    case Load(b) =>
      if s.slot.key == b then s.(threads := s.threads[t := Done(b, s.slot.target, true)])
      else
        var m := Slow(b, CallableOf(site, s.heap, b), site.argCount);
        if m.Throws? then State(Shift(s.heap, b, 1), s.slot, s.threads[t := Idle])
        else s.(threads := s.threads[t := Retain(b, m.m)])
    case Retain(b, m) => State(Up(s.heap, b), s.slot, s.threads[t := Exchange(b, m)])
    case Exchange(b, m) =>
      State(s.heap, Slot(b, To(m)),
            s.threads[t := if s.slot.key != 0 then ReleaseOld(b, m, s.slot.key) else Done(b, To(m), false)])
    case ReleaseOld(b, m, old_) => State(Down(s.heap, old_), s.slot, s.threads[t := Done(b, To(m), false)])
    case Done(b, _, _) => State(Shift(s.heap, b, 1), s.slot, s.threads[t := Idle])
  }

  predicate RunsAt(site: Site, states: seq<State>, labels: seq<Label>, j: nat)
    requires |states| == |labels| + 1 && j < |labels|
  {
    Enabled(site, states[j], labels[j]) && states[j + 1] == Do(site, states[j], labels[j])
  }

  predicate IsRun(site: Site, states: seq<State>, labels: seq<Label>) {
    && |states| == |labels| + 1 && Init(site, states[0])
    && forall j: nat :: j < |labels| ==> RunsAt(site, states, labels, j)
  }

  // ---------------------------------------------------------------- who holds references

  function One(yes: bool): nat {
    if yes then 1 else 0
  }

  /** The references to `b` a thread holds: its own, the one retained for the slot, the one taken out of it. */
  function Held(th: Thread, b: Bits): nat {
    One(!th.Idle? && th.b == b) + One(th.Exchange? && th.b == b) + One(th.ReleaseOld? && th.old_ == b)
  }

  function AllHeld(threads: seq<Thread>, b: Bits): nat {
    if threads == [] then 0 else AllHeld(threads[..|threads| - 1], b) + Held(threads[|threads| - 1], b)
  }

  lemma {:induction false} HeldUpdate(threads: seq<Thread>, t: nat, th: Thread, b: Bits)
    requires t < |threads|
    ensures AllHeld(threads[t := th], b) == AllHeld(threads, b) - Held(threads[t], b) + Held(th, b)
    ensures Held(threads[t], b) <= AllHeld(threads, b)
  {
    var n := |threads| - 1;
    if t == n {
      assert threads[t := th][..n] == threads[..n];
    } else {
      HeldUpdate(threads[..n], t, th, b);
      assert threads[t := th][..n] == threads[..n][t := th];
    }
  }

  /** Every reference to a heap object is accounted for; the slot owns exactly one to its key. */
  ghost predicate Balanced(s: State, b: Bits) {
    var held := AllHeld(s.threads, b) + One(s.slot.key == b);
    if b in s.heap then s.heap[b].count == s.heap[b].ext + held && 0 < s.heap[b].count else true
  }

  /** A value in use is outside the heap or alive. */
  predicate Live(site: Site, s: State, b: Bits) {
    b in site.immediate || b in s.heap
  }

  ghost predicate Fits(site: Site, s: State, th: Thread) {
    && (!th.Idle? ==> Live(site, s, th.b))
    && match th
       case Retain(b, m) => b != 0 && Slow(b, CallableOf(site, s.heap, b), site.argCount) == Found(m)
       case Exchange(b, m) => b != 0 && Slow(b, CallableOf(site, s.heap, b), site.argCount) == Found(m)
       case ReleaseOld(b, m, old_) =>
         && Live(site, s, old_) && Slow(b, CallableOf(site, s.heap, b), site.argCount) == Found(m)
       case Done(b, r, hit) =>
         && (b != 0 ==> r.To? && Slow(b, CallableOf(site, s.heap, b), site.argCount) == Found(r.m))
         && (b == 0 ==> hit && r.Null?)
       case _ => true
  }

  ghost predicate SlotFits(site: Site, s: State) {
    if s.slot.key == 0 then s.slot.target.Null?
    else
      && Live(site, s, s.slot.key)
      && s.slot.target.To?
      && Slow(s.slot.key, CallableOf(site, s.heap, s.slot.key), site.argCount) == Found(s.slot.target.m)
  }

  ghost predicate Inv(site: Site, s: State) {
    && site.Valid()
    && s.heap.Keys !! site.immediate.Keys
    && SlotFits(site, s)
    && (forall b :: b in s.heap ==> Balanced(s, b))
    && (forall t :: 0 <= t < |s.threads| ==> Fits(site, s, s.threads[t]))
  }

  /** Objects that stay in the heap keep what they are, and one that is held stays. */
  ghost predicate Keeps(s: State, s': State, b: Bits) {
    b in s.heap ==> b in s'.heap && s'.heap[b].callable == s.heap[b].callable
  }

  /** Held by somebody, an object survives any step. */
  lemma HeldStays(site: Site, s: State, l: Label, b: Bits)
    requires Inv(site, s) && Enabled(site, s, l)
    requires AllHeld(s.threads, b) + One(s.slot.key == b) >= 1
    requires l.Go? && s.threads[l.t].ReleaseOld? ==>
               s.threads[l.t].old_ != b || 2 <= AllHeld(s.threads, b) + One(s.slot.key == b)
    ensures Keeps(s, Do(site, s, l), b)
  {
    if b in s.heap { assert Balanced(s, b); }
  }

  /** Two threads hold separate references. */
  lemma TwoHolders(threads: seq<Thread>, t: nat, u: nat, b: Bits)
    requires t < |threads| && u < |threads| && t != u
    ensures Held(threads[t], b) + Held(threads[u], b) <= AllHeld(threads, b)
  {
    HeldUpdate(threads, t, Idle, b);
    HeldUpdate(threads[t := Idle], u, Idle, b);
  }

  lemma {:induction false} NobodyHolds(threads: seq<Thread>, b: Bits)
    requires forall t :: 0 <= t < |threads| ==> Held(threads[t], b) == 0
    ensures AllHeld(threads, b) == 0
  {
    if threads != [] { NobodyHolds(threads[..|threads| - 1], b); }
  }

  /** An address that is not in use is held by nobody, so it can be handed out again. */
  lemma FreeIsUnheld(site: Site, s: State, b: Bits)
    requires Inv(site, s) && !Live(site, s, b)
    ensures AllHeld(s.threads, b) == 0 && s.slot.key != b
  {
    forall t | 0 <= t < |s.threads| ensures Held(s.threads[t], b) == 0 { assert Fits(site, s, s.threads[t]); }
    NobodyHolds(s.threads, b);
  }

  /** The accounts of `b` when one thread moves and the object's count and outside references with it. */
  lemma Rebalance(s: State, s': State, t: nat, b: Bits)
    requires t < |s.threads| == |s'.threads| && b in s.heap && b in s'.heap && Balanced(s, b)
    requires s'.threads == s.threads[t := s'.threads[t]]
    requires s'.heap[b].count - s'.heap[b].ext - Held(s'.threads[t], b) - One(s'.slot.key == b)
             == s.heap[b].count - s.heap[b].ext - Held(s.threads[t], b) - One(s.slot.key == b)
    requires 0 < s'.heap[b].count
    ensures Balanced(s', b)
  {
    HeldUpdate(s.threads, t, s'.threads[t], b);
  }

  lemma RetainBalance(site: Site, s: State, t: nat, b: Bits)
    requires t < |s.threads| && s.threads[t].Retain? && b in s.heap && Balanced(s, b)
    ensures b in Act(site, s, t).heap && Balanced(Act(site, s, t), b)
  {
    hide AllHeld;
    Rebalance(s, Act(site, s, t), t, b);
  }

  lemma ExchangeBalance(site: Site, s: State, t: nat, b: Bits)
    requires t < |s.threads| && s.threads[t].Exchange? && b in s.heap && Balanced(s, b) && b != 0
    ensures b in Act(site, s, t).heap && Balanced(Act(site, s, t), b)
  {
    hide AllHeld;
    Rebalance(s, Act(site, s, t), t, b);
  }

  lemma ReleaseBalance(site: Site, s: State, t: nat, b: Bits)
    requires t < |s.threads| && s.threads[t].ReleaseOld? && b in s.heap && Balanced(s, b)
    ensures b in Act(site, s, t).heap ==> Balanced(Act(site, s, t), b)
  {
    hide AllHeld;
    if b in Act(site, s, t).heap { Rebalance(s, Act(site, s, t), t, b); }
  }

  lemma EndBalance(site: Site, s: State, t: nat, b: Bits)
    requires t < |s.threads| && (s.threads[t].Load? || s.threads[t].Done?) && b in s.heap && Balanced(s, b)
    ensures b in Act(site, s, t).heap && Balanced(Act(site, s, t), b)
  {
    hide AllHeld, Slow, CallableOf;
    Rebalance(s, Act(site, s, t), t, b);
  }

  lemma GoKeepsBalance(site: Site, s: State, t: nat, b: Bits)
    requires Inv(site, s) && Enabled(site, s, Go(t))
    ensures b in Act(site, s, t).heap ==> Balanced(Act(site, s, t), b)
  {
    assert b in s.heap ==> Balanced(s, b) && b != 0;
    hide Inv, Balanced, Slow, CallableOf;
    if b in s.heap {
      match s.threads[t]
      case Retain(_, _) => RetainBalance(site, s, t, b);
      case Exchange(_, _) => ExchangeBalance(site, s, t, b);
      case ReleaseOld(_, _, _) => ReleaseBalance(site, s, t, b);
      case _ => EndBalance(site, s, t, b);
    }
  }

  lemma StepKeepsBalance(site: Site, s: State, l: Label, b: Bits)
    requires Inv(site, s) && Enabled(site, s, l)
    ensures b in Do(site, s, l).heap ==> Balanced(Do(site, s, l), b)
  {
    if b in s.heap { assert Balanced(s, b); }
    match l
    case Go(t) => GoKeepsBalance(site, s, t, b);
    case Call(t, v) =>
      HeldUpdate(s.threads, t, Load(v), b);
      assert v in s.heap ==> Balanced(s, v);
    case Alloc(v, _) => FreeIsUnheld(site, s, v);
    case _ =>
  }

  /** A value that a thread looks up, or that the slot holds, stays what it is. */
  lemma UsedIsKept(site: Site, s: State, l: Label, b: Bits)
    requires Inv(site, s) && Enabled(site, s, l) && Live(site, s, b)
    requires s.slot.key == b || exists u :: 0 <= u < |s.threads| && !s.threads[u].Idle? && s.threads[u].b == b
    ensures Live(site, Do(site, s, l), b)
    ensures CallableOf(site, Do(site, s, l).heap, b) == CallableOf(site, s.heap, b)
  {
    if b in s.heap {
      if s.slot.key == b {
        if l.Go? { HeldUpdate(s.threads, l.t, Idle, b); }
      } else {
        var u :| 0 <= u < |s.threads| && !s.threads[u].Idle? && s.threads[u].b == b;
        HeldUpdate(s.threads, u, Idle, b);
        if l.Go? && l.t != u { TwoHolders(s.threads, u, l.t, b); }
      }
      HeldStays(site, s, l, b);
    }
  }

  /** The reference taken out of the slot keeps the old key alive until it is released. */
  lemma TakenIsKept(site: Site, s: State, l: Label, u: nat)
    requires Inv(site, s) && Enabled(site, s, l) && u < |s.threads| && s.threads[u].ReleaseOld?
    requires l.Go? ==> l.t != u
    ensures Live(site, Do(site, s, l), s.threads[u].old_)
  {
    var b := s.threads[u].old_;
    assert Fits(site, s, s.threads[u]);
    if b in s.heap {
      HeldUpdate(s.threads, u, Idle, b);
      if l.Go? { TwoHolders(s.threads, u, l.t, b); }
      HeldStays(site, s, l, b);
    }
  }

  lemma StepKeepsSlot(site: Site, s: State, l: Label)
    requires Inv(site, s) && Enabled(site, s, l)
    ensures SlotFits(site, Do(site, s, l))
  {
    hide Slow;
    if l.Go? && s.threads[l.t].Exchange? {
      assert Fits(site, s, s.threads[l.t]);
      UsedIsKept(site, s, l, s.threads[l.t].b);
    } else if s.slot.key != 0 {
      UsedIsKept(site, s, l, s.slot.key);
    }
  }

  lemma OthersKeepFits(site: Site, s: State, l: Label, u: nat)
    requires Inv(site, s) && Enabled(site, s, l) && u < |s.threads|
    requires (l.Go? || l.Call?) ==> l.t != u
    ensures Fits(site, Do(site, s, l), Do(site, s, l).threads[u])
  {
    hide Slow;
    var th := s.threads[u];
    assert Do(site, s, l).threads[u] == th;
    assert Fits(site, s, th);
    if !th.Idle? {
      UsedIsKept(site, s, l, th.b);
      if th.ReleaseOld? { TakenIsKept(site, s, l, u); }
    }
  }

  lemma ActorKeepsFits(site: Site, s: State, l: Label)
    requires Inv(site, s) && Enabled(site, s, l) && (l.Go? || l.Call?)
    ensures Fits(site, Do(site, s, l), Do(site, s, l).threads[l.t])
  {
    var th := s.threads[l.t];
    assert Fits(site, s, th);
    if !th.Idle? {
      UsedIsKept(site, s, l, th.b);
      if th.Exchange? && s.slot.key != 0 { UsedIsKept(site, s, l, s.slot.key); }
    }
    assert Slow(0, NotCallable, site.argCount) == Throws;
    hide Slow;
  }

  lemma StepKeepsInv(site: Site, s: State, l: Label)
    requires Inv(site, s) && Enabled(site, s, l)
    ensures Inv(site, Do(site, s, l))
  {
    var s' := Do(site, s, l);
    StepKeepsSlot(site, s, l);
    forall b | b in s'.heap ensures Balanced(s', b) { StepKeepsBalance(site, s, l, b); }
    forall u | 0 <= u < |s'.threads| ensures Fits(site, s', s'.threads[u]) {
      if (l.Go? || l.Call?) && l.t == u { ActorKeepsFits(site, s, l); } else { OthersKeepFits(site, s, l, u); }
    }
    hide Fits, SlotFits, Balanced, Slow, CallableOf;
  }

  lemma {:induction false} RunKeepsInv(site: Site, states: seq<State>, labels: seq<Label>, j: nat)
    requires IsRun(site, states, labels) && j < |states|
    ensures Inv(site, states[j])
  {
    if j != 0 {
      RunKeepsInv(site, states, labels, j - 1);
      assert RunsAt(site, states, labels, j - 1);
      StepKeepsInv(site, states[j - 1], labels[j - 1]);
    }
  }

  // ---------------------------------------------------------------- results

  /** A lookup that finished yields a pointer to the right method, hit or miss, exactly when the value is not 0.0; for
      0.0, which has none, it is always a hit on the empty slot and yields the null pointer. */
  lemma LookupIsRight(site: Site, states: seq<State>, labels: seq<Label>, j: nat, t: nat)
    requires IsRun(site, states, labels) && j < |states| && t < |states[j].threads| && states[j].threads[t].Done?
    ensures var (s, th) := (states[j], states[j].threads[t]);
            var c := CallableOf(site, s.heap, th.b);
            && (th.b != 0 ==> th.result.To? && Right(th.b, c, site.argCount, th.result.m))
            && (th.b == 0 ==> c.NotCallable? && th.result == Null && th.hit)
  {
    RunKeepsInv(site, states, labels, j);
    var (s, th) := (states[j], states[j].threads[t]);
    assert Fits(site, s, th);
    SlowIsRight(th.b, CallableOf(site, s.heap, th.b), site.argCount);
  }

  /** A lookup throws exactly when there is no right method: when a function object has none for this many arguments,
      a keyword, map or vector no descriptor, or the value cannot be called. */
  lemma LookupThrowsIff(site: Site, states: seq<State>, labels: seq<Label>, j: nat, t: nat)
    requires IsRun(site, states, labels) && j < |labels| && labels[j] == Go(t)
    requires t < |states[j].threads| && states[j].threads[t].Load? && states[j].threads[t].b != 0
    ensures var b := states[j].threads[t].b;
            var c := CallableOf(site, states[j].heap, b);
            && |states[j + 1].threads| == |states[j].threads|
            && (states[j + 1].threads[t].Idle? <==>
                if c.Fn? then Picks(c.methods, site.argCount, None)
                else forall m :: Descriptor(m) != Some((c, site.argCount)))
  {
    RunKeepsInv(site, states, labels, j);
    assert RunsAt(site, states, labels, j);
    var (s, b) := (states[j], states[j].threads[t].b);
    SlowIsRight(b, CallableOf(site, s.heap, b), site.argCount);
    hide Slow;
  }

  // ---------------------------------------------------------------- hits and misses

  /** No lookup stores into the slot in the steps from `i` to `j`. */
  ghost predicate NoStore(states: seq<State>, labels: seq<Label>, i: nat, j: nat) {
    forall x :: i <= x < j && x < |labels| && x < |states| && labels[x].Go? && labels[x].t < |states[x].threads| ==>
      !states[x].threads[labels[x].t].Exchange?
  }

  lemma {:induction false} SlotStays(site: Site, states: seq<State>, labels: seq<Label>, i: nat, j: nat)
    requires IsRun(site, states, labels) && i <= j < |states| && NoStore(states, labels, i, j)
    ensures states[j].slot == states[i].slot
  {
    if i < j {
      SlotStays(site, states, labels, i, j - 1);
      assert RunsAt(site, states, labels, j - 1);
      hide Slow;
    }
  }

  /** The cache works: after a miss on `b`, the next lookup of `b` is a hit, in one step and with the same method,
      unless another value was stored in between. */
  lemma SecondLookupHits(site: Site, states: seq<State>, labels: seq<Label>, i: nat, j: nat, t: nat, u: nat)
    requires IsRun(site, states, labels) && i < j < |labels| && labels[i] == Go(t) && labels[j] == Go(u)
    requires t < |states[i].threads| && states[i].threads[t].Exchange?
    requires u < |states[j].threads| && states[j].threads[u] == Load(states[i].threads[t].b)
    requires NoStore(states, labels, i + 1, j)
    ensures u < |states[j + 1].threads|
    ensures states[j + 1].threads[u] == Done(states[i].threads[t].b, To(states[i].threads[t].m), true)
  {
    assert RunsAt(site, states, labels, i) && RunsAt(site, states, labels, j);
    SlotStays(site, states, labels, i + 1, j);
  }

  /** In step `x` thread `t` stores the pair into the slot. */
  predicate Stores(states: seq<State>, labels: seq<Label>, x: nat, t: nat, b: Bits, m: MethodRef) {
    && x < |labels| && |states| == |labels| + 1 && labels[x] == Go(t) && t < |states[x].threads|
    && states[x].threads[t] == Exchange(b, m) && states[x + 1].slot == Slot(b, To(m))
  }

  /** Every miss has stored the method it yields. */
  lemma {:induction false} MissFillsSlot(site: Site, states: seq<State>, labels: seq<Label>, j: nat, t: nat, b: Bits,
                                         m: MethodRef)
    requires IsRun(site, states, labels) && j < |states| && t < |states[j].threads|
    requires states[j].threads[t] == Done(b, To(m), false)
             || (states[j].threads[t].ReleaseOld? && states[j].threads[t].b == b && states[j].threads[t].m == m)
    ensures exists x :: 0 <= x < j && Stores(states, labels, x, t, b, m)
  {
    if j == 0 {
      assert false;
    } else {
      assert RunsAt(site, states, labels, j - 1);
      hide Slow;
      if labels[j - 1] == Go(t) && states[j - 1].threads[t].Exchange? {
        assert Stores(states, labels, j - 1, t, b, m);
      } else {
        MissFillsSlot(site, states, labels, j - 1, t, b, m);
      }
    }
  }

  // ---------------------------------------------------------------- every lookup ends

  /** How many steps of its own a lookup has left at most. */
  function Rank(th: Thread): nat {
    match th
    case Idle => 0
    case Done(_, _, _) => 1
    case ReleaseOld(_, _, _) => 2
    case Exchange(_, _) => 3
    case Retain(_, _) => 4
    case Load(_) => 5
  }

  /** How many of the steps from `i` to `j` are taken by thread `t`. */
  function Taken(labels: seq<Label>, t: nat, i: nat, j: nat): nat
    requires i <= j <= |labels|
  {
    if i == j then 0 else Taken(labels, t, i, j - 1) + One(labels[j - 1] == Go(t))
  }

  /** A lookup is of the value it was called with, and is over after at most five steps of its own, whatever the
      others do. */
  lemma {:induction false} LookupEnds(site: Site, states: seq<State>, labels: seq<Label>, i: nat, j: nat, t: nat,
                                      b: Bits)
    requires IsRun(site, states, labels) && i < j < |states| && labels[i] == Call(t, b)
    requires forall x :: i < x <= j ==> t < |states[x].threads| && !states[x].threads[t].Idle?
    ensures states[j].threads[t].b == b
    ensures Taken(labels, t, i + 1, j) + Rank(states[j].threads[t]) <= 5
  {
    assert RunsAt(site, states, labels, j - 1);
    hide Slow;
    if i + 1 < j { LookupEnds(site, states, labels, i, j - 1, t, b); }
  }

  /** One thread looks up 0.0 at a fresh call site and is handed the null pointer. */
  lemma ZeroIsFound(argCount: nat) returns (site: Site, states: seq<State>, labels: seq<Label>)
    ensures IsRun(site, states, labels) && site.argCount == argCount && |states| == 3
    ensures states[2].threads == [Done(0, Null, true)]
    ensures CallableOf(site, states[2].heap, 0) == NotCallable
  {
    site := Site(argCount, map[0 := NotCallable]);
    var s0 := State(map[], Slot(0, Null), [Idle]);
    var s1 := State(map[], Slot(0, Null), [Load(0)]);
    var s2 := State(map[], Slot(0, Null), [Done(0, Null, true)]);
    states, labels := [s0, s1, s2], [Call(0, 0), Go(0)];
    assert Do(site, s0, labels[0]) == s1 && Do(site, s1, labels[1]) == s2;
    assert RunsAt(site, states, labels, 0) && RunsAt(site, states, labels, 1);
  }

  /** Looking up 0.0 "hits" exactly while the slot is empty. */
  lemma ZeroHitsEmptySlot(site: Site, s: State, t: nat)
    requires Inv(site, s) && t < |s.threads| && s.threads[t] == Load(0)
    ensures Act(site, s, t).threads[t] == (if s.slot == Slot(0, Null) then Done(0, Null, true) else Idle)
  {
  }

  /** In every run the count of a heap object is the references of the program and of the lookups, plus
      exactly one if the slot holds the object; and the slot never holds a freed one. */
  lemma SlotOwnsOneReference(site: Site, states: seq<State>, labels: seq<Label>, j: nat)
    requires IsRun(site, states, labels) && j < |states|
    ensures var s := states[j];
            && (s.slot.key == 0 || s.slot.key in site.immediate || s.slot.key in s.heap)
            && forall b :: b in s.heap ==>
                 s.heap[b].count == s.heap[b].ext + AllHeld(s.threads, b) + (if s.slot.key == b then 1 else 0)
  {
    RunKeepsInv(site, states, labels, j);
    forall b | b in states[j].heap
      ensures var s := states[j];
              s.heap[b].count == s.heap[b].ext + AllHeld(s.threads, b) + (if s.slot.key == b then 1 else 0)
    {
      assert Balanced(states[j], b);
    }
  }
}
