/** Many threads run assoc, putIfAbsent, dissoc and get on one Leapfrog table.
    Each step below is one atomic access to shared memory, with the local decisions that follow it. */
module LeapfrogProtocol {
  import opened Options
  import opened LeapfrogTable

  type Tid = nat

  datatype Op = Assoc(k: Key, v: Value) | PutIfAbsent(k: Key, v: Value) | Dissoc(k: Key) | Get(k: Key)

  datatype Result = Done | Got(v: Value) | Overcrowded

  /** Where the probe that met an equal hash came from. */
  datatype Via = FromHome | FromLeap | FromProbe(prev: nat)

  /** Program points. Offsets are `idx - keyHash`; `left` counts the linear probes remaining. */
  datatype Pc =
    | LoadHome
    | CasHome
    | AwaitKey(off: nat, via: Via)
    | ReadLeap(off: nat)
    | LoadLinked(off: nat)
    | Probe(prev: nat, off: nat, left: nat)
    | CasProbe(prev: nat, off: nat, left: nat)
    | HelpLink(prev: nat, off: nat)
    | StoreLink(prev: nat, off: nat)
    | PutValue(off: nat)
    | PutKey(off: nat)
    | Found(off: nat)
    | WalkHash(off: nat)
    | WalkKey(off: nat)
    | WalkHit(off: nat)
    | WalkLeap(off: nat)
    | Return(result: Result)

  datatype Thread = Idle | Run(op: Op, pc: Pc)

  /** `cells` is the shared memory. `intent`, `cellOf` and `claimant` record, for each claimed cell,
      the key and the thread it was claimed for; no step ever reads them. */
  datatype Memory = Memory(cells: seq<Cell>, intent: map<nat, Key>, cellOf: map<Key, nat>, claimant: map<nat, Tid>)

  datatype State = State(mem: Memory, threads: map<Tid, Thread>)

  datatype Label = Call(t: Tid, op: Op) | Go(t: Tid)

  /** All cells blank, all threads idle. */
  predicate Init(s: State) {
    && 0 < |s.mem.cells|
    && (forall i :: 0 <= i < |s.mem.cells| ==> s.mem.cells[i] == EMPTY_CELL)
    && s.mem.intent == map[] && s.mem.cellOf == map[] && s.mem.claimant == map[]
    && (forall t :: t in s.threads ==> s.threads[t] == Idle)
  }

  /** The finite map the memory stands for. */
  ghost function Abs(m: Memory): (a: map<Key, Value>) {
    map k | k in m.cellOf && Present(m, k) :: m.cells[m.cellOf[k]].value.value
  }

  predicate Present(m: Memory, k: Key) {
    && k in m.cellOf && m.cellOf[k] < |m.cells|
    && m.cells[m.cellOf[k]].key == Some(k)
    && m.cells[m.cellOf[k]].value.Some?
  }

  /** What one operation means on a finite map. */
  ghost predicate SpecStep(op: Op, a: map<Key, Value>, a': map<Key, Value>, r: Result) {
    match op
    case Assoc(k, v) => a' == a[k := v] && r == Done
    case PutIfAbsent(k, v) =>
      if k in a then a' == a && r == Got(a[k]) else a' == a[k := v] && r == Got(Nil)
    case Dissoc(k) => a' == a - {k} && r == Done
    case Get(k) => a' == a && r == Got(if k in a then a[k] else Nil)
  }

  function Home(c: Config, m: Memory, k: Key): nat
    requires 0 < |m.cells|
  {
    Wrap(c.Hash(k), |m.cells|)
  }

  function CellIndex(c: Config, m: Memory, k: Key, off: nat): (i: nat)
    requires 0 < |m.cells|
    ensures i < |m.cells|
  {
    At(|m.cells|, Home(c, m, k), off)
  }

  function CellAt(c: Config, m: Memory, k: Key, off: nat): Cell
    requires 0 < |m.cells|
  {
    m.cells[CellIndex(c, m, k, off)]
  }

  /** Assoc and putIfAbsent search for a cell to use; dissoc and get only walk the chain. */
  function FirstPc(op: Op): Pc {
    if op.Assoc? || op.PutIfAbsent? then LoadHome else WalkHash(0)
  }

  predicate Enabled(s: State, l: Label) {
    && 0 < |s.mem.cells|
    && l.t in s.threads
    && (l.Call? <==> s.threads[l.t].Idle?)
  }

  function Do(c: Config, s: State, l: Label): State
    requires Enabled(s, l)
  {
    match l
    case Call(t, op) => s.(threads := s.threads[t := Run(op, FirstPc(op))])
    case Go(t) =>
      var op, pc := s.threads[t].op, s.threads[t].pc;
      if pc.Return? then s.(threads := s.threads[t := Idle])
      else
        var (m, pc') := Act(c, s.mem, t, op, pc);
        State(m, s.threads[t := Run(op, pc')])
  }

  /** One atomic access by thread `t`, and the program point it moves to. */
  function Act(c: Config, m: Memory, t: Tid, op: Op, pc: Pc): (Memory, Pc)
    requires 0 < |m.cells| && !pc.Return?
  {
    if InInsert(pc) then Insert(c, m, t, op.k, pc)
    else if InPublish(pc) then Publish(c, m, op, pc)
    else Walk(c, m, op, pc)
  }

  predicate InInsert(pc: Pc) {
    pc.LoadHome? || pc.CasHome? || pc.AwaitKey? || pc.ReadLeap? || pc.LoadLinked? ||
    pc.Probe? || pc.CasProbe? || pc.HelpLink?
  }

  predicate InPublish(pc: Pc) {
    pc.StoreLink? || pc.PutValue? || pc.PutKey? || pc.Found?
  }

  predicate InWalk(pc: Pc) {
    pc.WalkHash? || pc.WalkKey? || pc.WalkHit? || pc.WalkLeap?
  }

  /** insertOrFind, up to the claim of a cell or the discovery of the key. */
  function Insert(c: Config, m: Memory, t: Tid, k: Key, pc: Pc): (Memory, Pc)
    requires 0 < |m.cells| && InInsert(pc)
  {
    match pc
    case LoadHome =>
      var probe := CellAt(c, m, k, 0).hash;
      (m, if probe == 0 then CasHome else AfterHome(c, k, probe))
    case CasHome =>
      var probe := CellAt(c, m, k, 0).hash;
      if probe == 0 then (Claim(c, m, t, k, 0), PutValue(0)) else (m, AfterHome(c, k, probe))
    case AwaitKey(off, via) =>
      var found := CellAt(c, m, k, off).key;
      (m, if found.None? then pc
          else if found.value == k then Found(off)
          else if via.FromProbe? then HelpLink(via.prev, off) else ReadLeap(off))
    case ReadLeap(off) =>
      var delta := Leap(m.cells, Home(c, m, k), off);
      (m, if 0 < delta then LoadLinked(off + delta) else Probe(off, off, c.threshold))
    case LoadLinked(off) =>
      var probe := CellAt(c, m, k, off).hash;
      (m, if probe == 0 then pc else if probe == c.Hash(k) then AwaitKey(off, FromLeap) else ReadLeap(off))
    case Probe(prev, off, left) =>
      if left == 0 then (m, Return(Overcrowded))
      else
        var probe := CellAt(c, m, k, off + 1).hash;
        (m, if probe == 0 then CasProbe(prev, off + 1, left - 1)
            else AfterProbe(c, m, k, prev, off + 1, left - 1, probe))
    case CasProbe(prev, off, left) =>
      var probe := CellAt(c, m, k, off).hash;
      if probe == 0 then (Claim(c, m, t, k, off), StoreLink(prev, off))
      else (m, AfterProbe(c, m, k, prev, off, left, probe))
    case HelpLink(prev, off) => (StoreLeap(c, m, k, prev, off), ReadLeap(off))
  }

  function AfterHome(c: Config, k: Key, probe: nat): Pc {
    if probe == c.Hash(k) then AwaitKey(0, FromHome) else ReadLeap(0)
  }

  /** After a linear probe met a claimed cell. */
  function AfterProbe(c: Config, m: Memory, k: Key, prev: nat, off: nat, left: nat, probe: nat): Pc
    requires 0 < |m.cells|
  {
    if probe == c.Hash(k) then AwaitKey(off, FromProbe(prev))
    else if Wrap(probe, |m.cells|) == Home(c, m, k) then HelpLink(prev, off)
    else Probe(prev, off, left)
  }

  /** The successful compare-and-swap of a cell's hash from zero. */
  function Claim(c: Config, m: Memory, t: Tid, k: Key, off: nat): Memory
    requires 0 < |m.cells|
  {
    var i := CellIndex(c, m, k, off);
    m.(cells := m.cells[i := m.cells[i].(hash := c.Hash(k))],
       intent := m.intent[i := k], cellOf := m.cellOf[k := i], claimant := m.claimant[i := t])
  }

  function StoreLeap(c: Config, m: Memory, k: Key, prev: nat, off: nat): Memory
    requires 0 < |m.cells|
  {
    m.(cells := WithLeap(m.cells, Home(c, m, k), prev, if prev <= off then off - prev else 0))
  }

  /** The link, value and key stores that finish an insertion, and the update of a found cell. */
  function Publish(c: Config, m: Memory, op: Op, pc: Pc): (Memory, Pc)
    requires 0 < |m.cells| && InPublish(pc)
  {
    var inserted := Return(if op.PutIfAbsent? then Got(Nil) else Done);
    match pc
    case StoreLink(prev, off) => (StoreLeap(c, m, op.k, prev, off), PutValue(off))
    case PutValue(off) => (WriteCell(c, m, op.k, off, CellAt(c, m, op.k, off).(value := NewValue(op))), PutKey(off))
    case PutKey(off) => (WriteCell(c, m, op.k, off, CellAt(c, m, op.k, off).(key := Some(op.k))), inserted)
    case Found(off) =>
      var was := CellAt(c, m, op.k, off).value;
      if op.PutIfAbsent? && was.Some? then (m, Return(Got(was.value)))
      else (WriteCell(c, m, op.k, off, CellAt(c, m, op.k, off).(value := NewValue(op))), inserted)
  }

  function NewValue(op: Op): Option<Value> {
    if op.Assoc? || op.PutIfAbsent? then Some(op.v) else None
  }

  function WriteCell(c: Config, m: Memory, k: Key, off: nat, cell: Cell): Memory
    requires 0 < |m.cells|
  {
    m.(cells := m.cells[CellIndex(c, m, k, off) := cell])
  }

  /** get and dissoc: follow the chain, compare hashes and keys, then load or clear the value. */
  function Walk(c: Config, m: Memory, op: Op, pc: Pc): (Memory, Pc)
    requires 0 < |m.cells| && InWalk(pc)
  {
    match pc
    case WalkHash(off) =>
      var probe := CellAt(c, m, op.k, off).hash;
      (m, if op.Dissoc? && probe == 0 then Return(Done)
          else if probe == c.Hash(op.k) then WalkKey(off) else WalkLeap(off))
    case WalkKey(off) =>
      var found := CellAt(c, m, op.k, off).key;
      (m, if found.None? then pc else if found.value == op.k then WalkHit(off) else WalkLeap(off))
    case WalkHit(off) =>
      var was := CellAt(c, m, op.k, off).value;
      if op.Dissoc? then (WriteCell(c, m, op.k, off, CellAt(c, m, op.k, off).(value := None)), Return(Done))
      else (m, if was.Some? then Return(Got(was.value)) else WalkLeap(off))
    case WalkLeap(off) =>
      var jump := Leap(m.cells, Home(c, m, op.k), off);
      (m, if 0 < jump then WalkHash(off + jump) else Return(Missed(op)))
  }

  function Missed(op: Op): Result {
    if op.Dissoc? then Done else Got(Nil)
  }

  /** Step `j` of a run: some cell is still unclaimed, and one thread calls, acts or returns. */
  ghost predicate RunsAt(c: Config, states: seq<State>, labels: seq<Label>, j: nat)
    requires j < |labels| && |states| == |labels| + 1
  {
    && HasFree(states[j].mem.cells)
    && Enabled(states[j], labels[j])
    && states[j + 1] == Do(c, states[j], labels[j])
  }

  /** A run: any interleaving of calls and atomic steps of any number of threads. */
  ghost predicate IsRun(c: Config, states: seq<State>, labels: seq<Label>) {
    && c.Valid()
    && |states| == |labels| + 1
    && Init(states[0])
    && (forall j: nat :: j < |labels| ==> RunsAt(c, states, labels, j))
  }
}
