/** The Leapfrog map used by one thread at a time: a hash table that refines a finite map. */
module LeapfrogMap {
  import opened Options
  import opened LeapfrogTable
  import opened LeapfrogProtocol
  import opened LeapfrogInvariant
  import opened LeapfrogSteps
  import opened LeapfrogLinearizability
  import opened LeapfrogFull

  datatype InsertResult = AlreadyFound | InsertedNew | Overflow

  /** How a linear probe from the end of a chain ends. */
  datatype ProbeResult = FoundKey | ClaimedCell | LinkedCell | GaveUp

  /** A protocol state in which one thread is alone, at `pc` of `op`. */
  ghost function Alone(m: Memory, op: Op, pc: Pc): State {
    State(m, map[0 := Run(op, pc)])
  }

  /** The same cells are claimed, and hold the same keys. */
  ghost predicate SameKeys(m: Memory, m': Memory) {
    && |m'.cells| == |m.cells| && m'.cellOf == m.cellOf
    && forall i :: 0 <= i < |m.cells| ==> m'.cells[i].hash == m.cells[i].hash && m'.cells[i].key == m.cells[i].key
  }

  /** One access by the only thread. */
  lemma AloneStep(c: Config, m: Memory, op: Op, pc: Pc)
    requires 0 < |m.cells|
    requires Inv(c, Alone(m, op, pc)) && (InInsert(pc) ==> HasFree(m.cells)) && !pc.Return?
    ensures var (m', pc') := Act(c, m, 0, op, pc);
            && Inv(c, Alone(m', op, pc'))
            && Effect(op, pc, pc', Abs(m), Abs(m'))
  {
    hide Inv, Effect, Act;
    var s := Alone(m, op, pc);
    var (m', pc') := Act(c, m, 0, op, pc);
    if InInsert(pc) { InsertStep(c, s, 0); } else if InPublish(pc) { PublishStep(c, s, 0); } else { WalkStep(c, s, 0); }
    assert Do(c, s, Go(0)) == Alone(m', op, pc');
    ActEffect(c, s, 0);
  }

  lemma AloneFits(c: Config, m: Memory, op: Op, pc: Pc)
    requires Inv(c, Alone(m, op, pc))
    ensures 0 < |m.cells| && TableInv(m.cells, c.threshold) && Claims(c, m) && Fits(c, m, 0, op, pc)
  {
    var s := Alone(m, op, pc);
    assert ThreadFits(c, s.mem, 0, s.threads[0]);
  }

  /** Moving on without a write. */
  lemma AloneMove(c: Config, m: Memory, op: Op, pc: Pc, pc': Pc)
    requires Inv(c, Alone(m, op, pc)) && !pc.StoreLink? && Fits(c, m, 0, op, pc')
    ensures Inv(c, Alone(m, op, pc'))
  {
    LocalStep(c, Alone(m, op, pc), 0, Run(op, pc'));
    assert Alone(m, op, pc).threads[0 := Run(op, pc')] == Alone(m, op, pc').threads;
  }

  /** The point a search reaches at a claimed cell whose hash and key it compares. */
  function AfterCompare(c: Config, m: Memory, k: Key, off: nat, otherwise: Pc): Pc
    requires 0 < |m.cells|
  {
    if CellAt(c, m, k, off).hash == c.Hash(k) && CellAt(c, m, k, off).key == Some(k) then Found(off) else otherwise
  }

  lemma ChainCanProbe(c: Config, m: Memory, k: Key, prev: nat)
    requires 0 < |m.cells| && Room(c, m.cells, k) && !Stored(m.cells, k)
    requires prev < |m.cells| && IsNode(m.cells, Home(c, m, k), prev) && Ends(m.cells, Home(c, m, k), prev)
    ensures CanProbe(c, m, k, prev)
  {
  }

  lemma FoundIsStored(c: Config, m: Memory, op: Op, off: nat)
    requires 0 < |m.cells| && Inv(c, Alone(m, op, Found(off)))
    ensures Stored(m.cells, op.k)
  {
    AloneFits(c, m, op, Found(off));
  }

  /** A key whose home cell is unclaimed is not stored anywhere. */
  lemma HomeIsFree(c: Config, m: Memory, op: Op)
    requires 0 < |m.cells| && Inv(c, State(m, map[])) && CellAt(c, m, op.k, 0).hash == 0
    ensures HasFree(m.cells) && !Stored(m.cells, op.k) && !Claimed(m.cells, Home(c, m, op.k), 0)
  {
    ClaimIsNew(c, m, op.k, 0);
  }

  /** Looking at the home cell. */
  lemma HomeAlone(c: Config, m: Memory, op: Op)
    requires Inv(c, State(m, map[])) && Published(m) && (op.Assoc? || op.PutIfAbsent?)
    ensures CellAt(c, m, op.k, 0).hash == 0 ==> Inv(c, Alone(m, op, CasHome))
    ensures CellAt(c, m, op.k, 0).hash != 0 ==> Inv(c, Alone(m, op, AfterCompare(c, m, op.k, 0, ReadLeap(0))))
  {
    Start(c, m, op);
    if CellAt(c, m, op.k, 0).hash == 0 {
      AloneMove(c, m, op, LoadHome, CasHome);
    } else {
      AfterHomeFits(c, m, 0, op);
      if CellAt(c, m, op.k, 0).hash == c.Hash(op.k) { AwaitKeyFits(c, m, 0, op, 0, FromHome); }
      AloneMove(c, m, op, LoadHome, AfterCompare(c, m, op.k, 0, ReadLeap(0)));
    }
  }

  lemma LinkedIsInside(c: Config, m: Memory, op: Op, off: nat)
    requires 0 < |m.cells| && Fits(c, m, 0, op, LoadLinked(off))
    ensures off < |m.cells|
  {
  }

  lemma ProbedIsInside(c: Config, m: Memory, op: Op, prev: nat, off: nat, left: nat)
    requires 0 < |m.cells| && Fits(c, m, 0, op, CasProbe(prev, off, left))
    ensures prev < off < |m.cells|
  {
  }

  /** Following one link, or starting to probe at the end of the chain. */
  lemma ChainAlone(c: Config, m: Memory, op: Op, off: nat)
    requires 0 < |m.cells| && Inv(c, Alone(m, op, ReadLeap(off))) && Published(m)
    ensures var delta := Leap(m.cells, Home(c, m, op.k), off);
            if delta == 0 then Inv(c, Alone(m, op, Probe(off, off, c.threshold)))
            else
              && off + delta < |m.cells|
              && Inv(c, Alone(m, op, AfterCompare(c, m, op.k, off + delta, ReadLeap(off + delta))))
  {
    hide Inv, Fits, TableInv, Claims, HasFree;
    AloneFits(c, m, op, ReadLeap(off));
    ReadLeapFits(c, m, 0, op, off);
    var delta := Leap(m.cells, Home(c, m, op.k), off);
    if delta != 0 { LinkedIsInside(c, m, op, off + delta); }
    if delta == 0 {
      AloneMove(c, m, op, ReadLeap(off), Probe(off, off, c.threshold));
    } else {
      LoadLinkedFits(c, m, 0, op, off + delta);
      if CellAt(c, m, op.k, off + delta).hash == c.Hash(op.k) { AwaitKeyFits(c, m, 0, op, off + delta, FromLeap); }
      AloneMove(c, m, op, ReadLeap(off), AfterCompare(c, m, op.k, off + delta, ReadLeap(off + delta)));
    }
  }

  /** Where one round of the linear probe leads. */
  function AfterRound(c: Config, m: Memory, k: Key, prev: nat, off: nat, left: nat): Pc
    requires 0 < |m.cells|
  {
    var probe := CellAt(c, m, k, off).hash;
    if probe == 0 then CasProbe(prev, off, left)
    else if Wrap(probe, |m.cells|) == Home(c, m, k) then AfterCompare(c, m, k, off, HelpLink(prev, off))
    else Probe(prev, off, left)
  }

  lemma ProbeAlone(c: Config, m: Memory, op: Op, prev: nat, off: nat, left: nat)
    requires 0 < |m.cells| && Inv(c, Alone(m, op, Probe(prev, off, left))) && Published(m) && HasFree(m.cells)
             && 0 < left
    ensures off + 1 < |m.cells| && prev <= off
    ensures Inv(c, Alone(m, op, AfterRound(c, m, op.k, prev, off + 1, left - 1)))
  {
    hide Inv, Fits, Wrap, TableInv, Claims;
    AloneFits(c, m, op, Probe(prev, off, left));
    ProbeFits(c, m, 0, op, prev, off, left);
    ProbedIsInside(c, m, op, prev, off + 1, left - 1);
    var probe := CellAt(c, m, op.k, off + 1).hash;
    if probe != 0 {
      AfterProbeFits(c, m, 0, op, prev, off + 1, left - 1);
      if probe == c.Hash(op.k) { AwaitKeyFits(c, m, 0, op, off + 1, FromProbe(prev)); }
    }
    AloneMove(c, m, op, Probe(prev, off, left), AfterRound(c, m, op.k, prev, off + 1, left - 1));
  }

  /** A free cell stops the probe; in a full table the chain has ended and the probe does not come round. */
  ghost predicate CanProbe(c: Config, m: Memory, k: Key, prev: nat)
    requires 0 < |m.cells|
  {
    var b := Home(c, m, k);
    HasFree(m.cells) || (!ComesRound(m.cells, c.threshold, b) && prev < |m.cells|
                         && IsNode(m.cells, b, prev) && Ends(m.cells, b, prev))
  }

  /** One round of the linear probe, with a free cell or in a full table. */
  lemma ProbeEither(c: Config, m: Memory, op: Op, prev: nat, off: nat, left: nat)
    requires 0 < |m.cells| && Published(m) && prev < off <= prev + c.threshold
    requires HasFree(m.cells) ==> Inv(c, Alone(m, op, Probe(prev, off - 1, left + 1)))
    requires CanProbe(c, m, op.k, prev)
    ensures if HasFree(m.cells) then off < |m.cells| && Inv(c, Alone(m, op, AfterRound(c, m, op.k, prev, off, left)))
            else CellAt(c, m, op.k, off).hash != 0 && Wrap(CellAt(c, m, op.k, off).hash, |m.cells|) != Home(c, m, op.k)
  {
    hide Inv, ComesRound, Ends, IsNode, Published;
    if HasFree(m.cells) {
      ProbeAlone(c, m, op, prev, off - 1, left + 1);
    } else {
      FullProbe(m.cells, c.threshold, Home(c, m, op.k), prev, off);
    }
  }

  /** A search that has come to a node without a link has shown that its key has no cell. */
  lemma KeyHasNoCell(c: Config, m: Memory, op: Op, prev: nat)
    requires Inv(c, Alone(m, op, Probe(prev, prev, c.threshold))) && Leap(m.cells, Home(c, m, op.k), prev) == 0
    ensures op.k !in m.cellOf && op.k !in Abs(m) && !Stored(m.cells, op.k)
    ensures prev < |m.cells| && IsNode(m.cells, Home(c, m, op.k), prev) && Ends(m.cells, Home(c, m, op.k), prev)
    ensures forall w: nat :: w <= prev ==> Claimed(m.cells, Home(c, m, op.k), w)
  {
    var pc := Probe(prev, prev, c.threshold);
    AloneFits(c, m, op, pc);
    NoLinkNoMore(c, m, Alone(m, op, pc).threads, Home(c, m, op.k), prev);
    if op.k in m.cellOf {
      BucketCellOf(c, m, op.k);
      assert false;
    }
  }

  /** The claim of the only thread. */
  lemma CasAlone(c: Config, m: Memory, op: Op, prev: nat, off: nat, left: nat)
    requires Inv(c, Alone(m, op, CasProbe(prev, off, left))) && CellAt(c, m, op.k, off).hash == 0
    ensures Act(c, m, 0, op, CasProbe(prev, off, left)) == (Claim(c, m, 0, op.k, off), StoreLink(prev, off))
    ensures op.k !in m.cellOf && Abs(Claim(c, m, 0, op.k, off)) == Abs(m)
  {
    AloneFits(c, m, op, CasProbe(prev, off, left));
    ClaimIsNew(c, m, op.k, off);
    ClaimSameAbs(c, m, 0, op.k, off);
  }

  lemma CasHomeAlone(c: Config, m: Memory, op: Op)
    requires Inv(c, Alone(m, op, CasHome)) && CellAt(c, m, op.k, 0).hash == 0
    ensures Act(c, m, 0, op, CasHome) == (Claim(c, m, 0, op.k, 0), PutValue(0))
    ensures op.k !in m.cellOf && Abs(Claim(c, m, 0, op.k, 0)) == Abs(m)
  {
    ClaimIsNew(c, m, op.k, 0);
    ClaimSameAbs(c, m, 0, op.k, 0);
  }

  /** The link store of the only thread. */
  lemma LinkAlone(c: Config, m: Memory, op: Op, prev: nat, off: nat, pc: Pc)
    requires Inv(c, Alone(m, op, pc)) && (pc == StoreLink(prev, off) || pc == HelpLink(prev, off))
    ensures prev < off
    ensures var next := if pc.StoreLink? then PutValue(off) else ReadLeap(off);
            Act(c, m, 0, op, pc) == (StoreLeap(c, m, op.k, prev, off), next)
  {
    AloneFits(c, m, op, pc);
  }

  /** The memory after the only thread has written the data of a cell. */
  ghost function Put(c: Config, m: Memory, k: Key, off: nat, key: Option<Key>, value: Option<Value>): Memory
    requires 0 < |m.cells|
  {
    WriteCell(c, m, k, off, CellAt(c, m, k, off).(key := key, value := value))
  }

  /** Storing the value and then the key of a newly claimed cell. */
  lemma PutValueAlone(c: Config, m: Memory, op: Op, off: nat)
    requires 0 < |m.cells| && Inv(c, Alone(m, op, PutValue(off)))
    ensures var m' := WriteCell(c, m, op.k, off, CellAt(c, m, op.k, off).(value := NewValue(op)));
            Inv(c, Alone(m', op, PutKey(off))) && Abs(m') == Abs(m) && (op.Assoc? || op.PutIfAbsent?)
  {
    hide Inv, Fits, Wrap, TableInv, Claims, Abs;
    AloneFits(c, m, op, PutValue(off));
    PublishPoint(c, m, 0, op, PutValue(off));
    AloneStep(c, m, op, PutValue(off));
  }

  lemma PutKeyAlone(c: Config, m: Memory, op: Op, off: nat)
    requires 0 < |m.cells| && Inv(c, Alone(m, op, PutKey(off)))
    ensures var m' := WriteCell(c, m, op.k, off, CellAt(c, m, op.k, off).(key := Some(op.k)));
            && Inv(c, State(m', map[])) && (op.Assoc? || op.PutIfAbsent?)
            && (op.k !in Abs(m) ==> Abs(m') == Abs(m)[op.k := op.v])
  {
    hide Inv, Fits, Wrap, TableInv, Claims, Abs;
    AloneFits(c, m, op, PutKey(off));
    PublishPoint(c, m, 0, op, PutKey(off));
    AloneStep(c, m, op, PutKey(off));
    var m' := WriteCell(c, m, op.k, off, CellAt(c, m, op.k, off).(key := Some(op.k)));
    Finish(c, m', op, Return(if op.PutIfAbsent? then Got(Nil) else Done));
  }

  lemma PublishAlone(c: Config, m: Memory, op: Op, off: nat)
    requires 0 < |m.cells| && Inv(c, Alone(m, op, PutValue(off)))
    requires forall i :: 0 <= i < |m.cells| && m.cells[i].hash != 0 && i != CellIndex(c, m, op.k, off) ==>
             m.cells[i].key != None
    ensures var m' := Put(c, m, op.k, off, Some(op.k), NewValue(op));
            && Inv(c, State(m', map[])) && Published(m')
            && (op.k !in Abs(m) && NewValue(op).Some? ==> Abs(m') == Abs(m)[op.k := op.v])
            && (op.Assoc? || op.PutIfAbsent?)
  {
    hide Inv, Wrap, Abs;
    PutValueAlone(c, m, op, off);
    var m1 := WriteCell(c, m, op.k, off, CellAt(c, m, op.k, off).(value := NewValue(op)));
    PutKeyAlone(c, m1, op, off);
    var m' := WriteCell(c, m1, op.k, off, CellAt(c, m1, op.k, off).(key := Some(op.k)));
    assert m'.cells == Put(c, m, op.k, off, Some(op.k), NewValue(op)).cells;
  }

  /** What the cell that holds the key says about the map. */
  lemma FoundAlone(c: Config, m: Memory, op: Op, off: nat)
    requires 0 < |m.cells| && Inv(c, Alone(m, op, Found(off)))
    ensures CellAt(c, m, op.k, off).key == Some(op.k) && CellAt(c, m, op.k, off).hash != 0
            && (op.Assoc? || op.PutIfAbsent?)
    ensures op.k in Abs(m) <==> CellAt(c, m, op.k, off).value.Some?
    ensures op.k in Abs(m) ==> CellAt(c, m, op.k, off).value == Some(Abs(m)[op.k])
    ensures Inv(c, State(m, map[]))
  {
    AloneFits(c, m, op, Found(off));
    OwnIntent(c, m, 0, op, Found(off));
    Finish(c, m, op, Found(off));
  }

  /** Exchanging the value of the cell that holds the key. */
  lemma UpdateAlone(c: Config, m: Memory, op: Op, off: nat)
    requires 0 < |m.cells| && Inv(c, Alone(m, op, Found(off))) && Published(m)
    requires op.Assoc? || (op.PutIfAbsent? && op.k !in Abs(m))
    ensures var m' := Put(c, m, op.k, off, Some(op.k), Some(op.v));
            Inv(c, State(m', map[])) && Published(m') && Abs(m') == Abs(m)[op.k := op.v]
  {
    hide Inv;
    FoundAlone(c, m, op, off);
    AloneStep(c, m, op, Found(off));
    Finish(c, Put(c, m, op.k, off, Some(op.k), Some(op.v)), op, Return(if op.PutIfAbsent? then Got(Nil) else Done));
  }

  /** The walker has not passed the cell of a present key. */
  ghost predicate NotPassed(c: Config, m: Memory, op: Op, off: nat) {
    && 0 < |m.cells| && off < |m.cells| && Inv(c, Alone(m, op, WalkHash(off)))
    && (op.k in Abs(m) ==> Ahead(c, m, op.k, WalkHash(off)))
  }

  lemma StartWalk(c: Config, m: Memory, op: Op)
    requires Inv(c, State(m, map[])) && (op.Get? || op.Dissoc?)
    ensures NotPassed(c, m, op, 0)
  {
    Start(c, m, op);
  }

  /** The cell the walker looks at settles the question, or the next link leads no further than the key. */
  lemma WalkCell(c: Config, m: Memory, op: Op, off: nat)
    requires NotPassed(c, m, op, off) && Published(m) && (op.Get? || op.Dissoc?)
    ensures var cell := CellAt(c, m, op.k, off);
            if cell.hash == c.Hash(op.k) && cell.key == Some(op.k)
            then (op.k in Abs(m) <==> cell.value.Some?) && (op.k in Abs(m) ==> cell.value == Some(Abs(m)[op.k]))
            else cell.hash == 0 ==> op.k !in Abs(m)
  {
    var s := Alone(m, op, WalkHash(off));
    AloneFits(c, m, op, WalkHash(off));
    var i := CellIndex(c, m, op.k, off);
    assert m.cells[i].key != None ==> i in m.intent && m.cells[i].key == Some(m.intent[i]);
    if op.k in Abs(m) {
      BucketCellOf(c, m, op.k);
      assert Claimed(m.cells, Home(c, m, op.k), off);
    }
  }

  lemma WalkOn(c: Config, m: Memory, op: Op, off: nat)
    requires NotPassed(c, m, op, off) && Published(m) && (op.Get? || op.Dissoc?)
    requires var cell := CellAt(c, m, op.k, off);
             !(cell.hash == c.Hash(op.k) && cell.key == Some(op.k) && cell.value.Some?)
    ensures var jump := Leap(m.cells, Home(c, m, op.k), off);
            if jump == 0 then op.k !in Abs(m) else NotPassed(c, m, op, off + jump)
  {
    hide Pending, NoGap, UnusedAreBlank, Wrap;
    var s := Alone(m, op, WalkHash(off));
    var b := Home(c, m, op.k);
    AloneFits(c, m, op, WalkHash(off));
    var jump := Leap(m.cells, b, off);
    if op.k in Abs(m) {
      BucketCellOf(c, m, op.k);
      PublishedIsLinked(c, s, op.k, off);
    }
    if jump != 0 {
      assert LeapOk(m.cells, c.threshold, b, off, jump);
      AloneMove(c, m, op, WalkHash(off), WalkHash(off + jump));
    }
  }

  /** Clearing the value of the cell that holds the key. */
  lemma ClearAlone(c: Config, m: Memory, op: Op, off: nat)
    requires NotPassed(c, m, op, off) && Published(m) && op.Dissoc?
    requires CellAt(c, m, op.k, off).hash == c.Hash(op.k) && CellAt(c, m, op.k, off).key == Some(op.k)
    ensures var m' := Put(c, m, op.k, off, Some(op.k), None);
            Inv(c, State(m', map[])) && Published(m') && Abs(m') == Abs(m) - {op.k}
  {
    hide Wrap, TableInv, Claims, Pending, Abs, Ahead, Inv;
    AloneFits(c, m, op, WalkHash(off));
    AloneMove(c, m, op, WalkHash(off), WalkHit(off));
    AloneStep(c, m, op, WalkHit(off));
    var m' := Put(c, m, op.k, off, Some(op.k), None);
    Finish(c, m', op, Return(Done));
  }

  /** Starting and finishing an operation. */
  lemma Start(c: Config, m: Memory, op: Op)
    requires Inv(c, State(m, map[]))
    ensures Inv(c, Alone(m, op, FirstPc(op)))
  {
    NoThreadPends(c, m, map[], Alone(m, op, FirstPc(op)).threads);
  }

  lemma Finish(c: Config, m: Memory, op: Op, pc: Pc)
    requires Inv(c, Alone(m, op, pc)) && !pc.StoreLink?
    ensures Inv(c, State(m, map[]))
  {
    NoThreadPends(c, m, Alone(m, op, pc).threads, map[]);
  }

  lemma NoThreadPends(c: Config, m: Memory, threads: map<Tid, Thread>, threads': map<Tid, Thread>)
    requires 0 < |m.cells| && Pending(c, m, threads)
    requires forall t :: t in threads && threads[t].Run? ==> !threads[t].pc.StoreLink?
    ensures Pending(c, m, threads')
  {
    assert forall i, b, w: nat, o: nat :: !Storing(c, m, threads, i, b, w, o);
  }

  class ConcurrentHashMap {
    const cfg: Config
    const entries: array<Cell>
    /** The entries, and for which key each was claimed. */
    ghost var mem: Memory

    ghost predicate Valid()
      reads this, entries
    {
      cfg.Valid() && mem.cells == entries[..] && Inv(cfg, State(mem, map[])) && Published(mem)
    }

    ghost function Contents(): map<Key, Value>
      reads this
    {
      Abs(mem)
    }

    ghost predicate Busy(op: Op, pc: Pc)
      reads this, entries
    {
      cfg.Valid() && mem.cells == entries[..] && Inv(cfg, Alone(mem, op, pc))
    }

    constructor (size: nat, cfg: Config)
      requires 0 < size && cfg.Valid()
      ensures Valid() && Contents() == map[] && HasFree(entries[..]) && mem.cellOf == map[]
      ensures forall i :: 0 <= i < entries.Length ==> entries[i] == EMPTY_CELL
      ensures this.cfg == cfg && entries.Length == size && fresh(entries)
    {
      this.cfg := cfg;
      entries := new Cell[size](_ => EMPTY_CELL);
      mem := Memory(seq(size, _ => EMPTY_CELL), map[], map[], map[]);
      new;
      assert entries[..] == mem.cells;
      assert entries[0].hash == 0;
      InitHolds(cfg, State(mem, map[]));
    }

    /** One access to the table, mirrored in `mem`. */
    ghost method Access(op: Op, pc: Pc) returns (pc': Pc)
      requires cfg.Valid() && 0 < |mem.cells| && Inv(cfg, Alone(mem, op, pc)) && (InInsert(pc) ==> HasFree(mem.cells))
               && !pc.Return?
      modifies `mem
      ensures (mem, pc') == Act(cfg, old(mem), 0, op, pc)
      ensures Inv(cfg, Alone(mem, op, pc'))
      ensures Effect(op, pc, pc', Abs(old(mem)), Abs(mem))
    {
      AloneStep(cfg, mem, op, pc);
      hide Inv, Effect, Act;
      var (m, p) := Act(cfg, mem, 0, op, pc);
      mem, pc' := m, p;
    }

    /** Every claimed cell but this one has its key. */
    ghost predicate OnlyUnpublished(k: Key, off: nat)
      requires 0 < |mem.cells|
      reads this
    {
      forall i :: 0 <= i < |mem.cells| && mem.cells[i].hash != 0 && i != CellIndex(cfg, mem, k, off) ==>
          mem.cells[i].key != None
    }

    /** Claim the unclaimed cell the probe has reached, and link it to the chain. */
    method ClaimAndLink(op: Op, prev: nat, off: nat, ghost left: nat)
      requires Busy(op, CasProbe(prev, off, left)) && Published(mem) && HasFree(mem.cells)
      requires CellAt(cfg, mem, op.k, off).hash == 0
      modifies `mem, entries
      ensures Contents() == old(Contents()) && op.k !in old(mem.cellOf)
      ensures Busy(op, PutValue(off)) && OnlyUnpublished(op.k, off)
      ensures mem.cellOf.Keys <= old(mem.cellOf).Keys + {op.k}
    {
      hide Inv, Fits, Act, Effect, Abs, Wrap;
      var i := At(entries.Length, Wrap(cfg.Hash(op.k), entries.Length), off);
      CasAlone(cfg, mem, op, prev, off, left);
      entries[i] := entries[i].(hash := cfg.Hash(op.k));
      ghost var pc := Access(op, CasProbe(prev, off, left));
      LinkCell(op, prev, off, pc);
    }

    /** Store the link from chain node `prev` to the bucket's cell at `off`. */
    method LinkCell(op: Op, prev: nat, off: nat, ghost pc: Pc)
      requires Busy(op, pc) && (pc == StoreLink(prev, off) || (pc == HelpLink(prev, off) && HasFree(mem.cells)))
      modifies `mem, entries
      ensures Contents() == old(Contents()) && SameKeys(old(mem), mem)
      ensures Busy(op, if pc.StoreLink? then PutValue(off) else ReadLeap(off)) && prev < off
    {
      hide Inv, Fits;
      LinkAlone(cfg, mem, op, prev, off, pc);
      var home := Wrap(cfg.Hash(op.k), entries.Length);
      var i := At(entries.Length, home, prev);
      entries[i] := if prev == 0 then entries[i].(longLeap := off - prev) else entries[i].(shortLeap := off - prev);
      ghost var pc' := Access(op, pc);
    }

    /** The linear probe from chain node `prev`. It gives up exactly when each cell within the probe limit is claimed
        for another bucket. */
    method LinearProbe(op: Op, prev: nat) returns (result: ProbeResult, off: nat)
      requires Busy(op, Probe(prev, prev, cfg.threshold)) && Published(mem) && 0 < |mem.cells|
      requires CanProbe(cfg, mem, op.k, prev)
      modifies `mem, entries
      ensures Contents() == old(Contents()) && prev <= off
      ensures result == FoundKey ==> Busy(op, Found(off)) && Published(mem) && mem == old(mem)
      ensures result == ClaimedCell ==> Busy(op, PutValue(off)) && OnlyUnpublished(op.k, off)
      ensures result == ClaimedCell ==> op.k !in old(mem.cellOf)
      ensures result == LinkedCell ==> Busy(op, ReadLeap(off)) && Published(mem) && HasFree(mem.cells)
      ensures result == LinkedCell ==>
                prev < off < entries.Length && InBucket(old(mem.cells), old(Home(cfg, mem, op.k)), off)
      ensures result == GaveUp ==> mem == old(mem) && Busy(op, Probe(prev, prev, cfg.threshold))
      ensures result == GaveUp <==>
              Foreign(old(mem.cells), old(Home(cfg, mem, op.k)), prev, prev + cfg.threshold + 1)
      ensures mem.cellOf.Keys <= old(mem.cellOf).Keys + {op.k}
    {
      hide Inv, Fits, CanProbe;
      var n := entries.Length;
      var keyHash := cfg.Hash(op.k);
      var home := Wrap(keyHash, n);
      var left := cfg.threshold;
      off := prev;
      while 0 < left
        invariant Busy(op, Probe(prev, prev, cfg.threshold)) && Published(mem) && mem == old(mem)
        invariant prev <= off && off + left == prev + cfg.threshold
        invariant HasFree(mem.cells) ==> Busy(op, Probe(prev, off, left))
        invariant Foreign(mem.cells, home, prev, off + 1)
      {
        left := left - 1;
        off := off + 1;
        ProbeEither(cfg, mem, op, prev, off, left);
        var i := At(n, home, off);
        var probeHash := entries[i].hash;
        if probeHash == 0 {
          assert !Claimed(mem.cells, home, off);
          ClaimAndLink(op, prev, off, left);
          return ClaimedCell, off;
        }
        if probeHash == keyHash && entries[i].key == Some(op.k) {
          assert InBucket(mem.cells, home, off);
          return FoundKey, off;
        }
        if Wrap(probeHash, n) == home {
          assert InBucket(mem.cells, home, off);
          LinkCell(op, prev, off, HelpLink(prev, off));
          return LinkedCell, off;
        }
      }
      return GaveUp, off;
    }

    /** insertOrFind. On success `off` is the offset of the key's cell: one that holds the key, or one just
        claimed for it and linked, whose value and key are still to be stored. It finds the key exactly when a cell
        holds it, and gives up exactly when the table refuses it. */
    method InsertOrFind(op: Op) returns (result: InsertResult, off: nat)
      requires Valid() && 0 < |mem.cells| && Room(cfg, entries[..], op.k) && (op.Assoc? || op.PutIfAbsent?)
      modifies `mem, entries
      ensures Contents() == old(Contents())
      ensures result == AlreadyFound ==> Busy(op, Found(off)) && Published(mem)
      ensures result == InsertedNew ==> Busy(op, PutValue(off)) && op.k !in Contents() && OnlyUnpublished(op.k, off)
      ensures result == Overflow ==> Valid() && op.k !in Contents()
      ensures result == AlreadyFound <==> Stored(old(entries[..]), op.k)
      ensures result == Overflow <==> Refuses(cfg, old(entries[..]), op.k)
      ensures mem.cellOf.Keys <= old(mem.cellOf).Keys + {op.k}
    {
      hide Inv, Fits, Stored, Room, Crowded, HasFree, ComesRound, Wrap;
      HomeAlone(cfg, mem, op);
      var n := entries.Length;
      var keyHash := cfg.Hash(op.k);
      var home := Wrap(keyHash, n);
      off := 0;
      var probeHash := entries[At(n, home, off)].hash;
      if probeHash == 0 {
        HomeIsFree(cfg, mem, op);
        ClaimHome(op);
        return InsertedNew, off;
      }
      if probeHash == keyHash && entries[At(n, home, off)].key == Some(op.k) {
        FoundIsStored(cfg, mem, op, off);
        return AlreadyFound, off;
      }
      while true
        invariant Busy(op, ReadLeap(off)) && Published(mem) && Room(cfg, mem.cells, op.k) && off < n
        invariant mem == old(mem) && entries[..] == old(entries[..])
        decreases n - off
      {
        var cell := entries[At(n, home, off)];
        var probeDelta := if off == 0 then cell.longLeap else cell.shortLeap;
        var next;
        if 0 < probeDelta {
          next, off := FollowLink(op, off, probeDelta);
          if next == FoundKey { FoundIsStored(cfg, mem, op, off); }
        } else {
          next, off := EndOfChain(op, off);
        }
        match next
        case FoundKey => return AlreadyFound, off;
        case ClaimedCell => return InsertedNew, off;
        case GaveUp => return Overflow, off;
        case LinkedCell =>
      }
    }

    /** Jump along a link, and compare the cell it leads to. */
    method FollowLink(op: Op, from: nat, probeDelta: nat) returns (result: ProbeResult, off: nat)
      requires Busy(op, ReadLeap(from)) && Published(mem)
      requires 0 < probeDelta == Leap(entries[..], Home(cfg, mem, op.k), from)
      ensures result == FoundKey || result == LinkedCell
      ensures from < off < entries.Length
      ensures result == FoundKey ==> Busy(op, Found(off))
      ensures result == LinkedCell ==> Busy(op, ReadLeap(off))
    {
      hide Inv, Fits, Wrap, Leap;
      ChainAlone(cfg, mem, op, from);
      off := from + probeDelta;
      var cell := entries[At(entries.Length, Wrap(cfg.Hash(op.k), entries.Length), off)];
      assert cell == CellAt(cfg, mem, op.k, off);
      if cell.hash == cfg.Hash(op.k) && cell.key == Some(op.k) {
        return FoundKey, off;
      }
      return LinkedCell, off;
    }

    /** At the end of the chain, probe linearly. Nothing of the bucket is further on: the probe claims a cell, or
        gives up, exactly when every cell within the limit is claimed. */
    method EndOfChain(op: Op, prev: nat) returns (result: ProbeResult, off: nat)
      requires Busy(op, ReadLeap(prev)) && Published(mem) && Room(cfg, mem.cells, op.k)
      requires Leap(entries[..], Home(cfg, mem, op.k), prev) == 0
      modifies `mem, entries
      ensures Contents() == old(Contents()) && !Stored(old(mem.cells), op.k)
      ensures result == ClaimedCell || result == GaveUp
      ensures result == ClaimedCell ==> Busy(op, PutValue(off)) && op.k !in Contents() && OnlyUnpublished(op.k, off)
      ensures result == GaveUp ==> Valid() && op.k !in Contents()
      ensures result == GaveUp <==> Crowded(old(mem.cells), cfg.threshold, old(Home(cfg, mem, op.k)))
      ensures mem.cellOf.Keys <= old(mem.cellOf).Keys + {op.k}
    {
      hide Inv, Fits, Room, Stored, Crowded, Ends, HasFree, Wrap, ComesRound, IsNode, InBucket;
      ChainAlone(cfg, mem, op, prev);
      KeyHasNoCell(cfg, mem, op, prev);
      EndIsCrowded(cfg, mem.cells, op.k, prev);
      ghost var cells, home := mem.cells, Home(cfg, mem, op.k);
      assert CanProbe(cfg, mem, op.k, prev) by { ChainCanProbe(cfg, mem, op.k, prev); }
      hide CanProbe;
      result, off := LinearProbe(op, prev);
      if result == GaveUp {
        Finish(cfg, mem, op, Probe(prev, prev, cfg.threshold));
      }
      if result == FoundKey { FoundIsStored(cfg, mem, op, off); }
      if result == LinkedCell { BeyondEnd(cells, home, prev, off); }
    }

    /** Claim the unclaimed home cell. */
    method ClaimHome(op: Op)
      requires Busy(op, CasHome) && Published(mem) && HasFree(mem.cells) && CellAt(cfg, mem, op.k, 0).hash == 0
      modifies `mem, entries
      ensures Contents() == old(Contents()) && op.k !in Contents()
      ensures Busy(op, PutValue(0)) && OnlyUnpublished(op.k, 0)
      ensures mem.cellOf.Keys <= old(mem.cellOf).Keys + {op.k}
    {
      hide Inv, Fits, Act, Effect;
      CasHomeAlone(cfg, mem, op);
      var i := At(entries.Length, Wrap(cfg.Hash(op.k), entries.Length), 0);
      entries[i] := entries[i].(hash := cfg.Hash(op.k));
      ghost var pc := Access(op, CasHome);
    }

    /** Store the value and then the key of the cell just claimed. */
    method StoreNew(op: Op, off: nat)
      requires Busy(op, PutValue(off)) && OnlyUnpublished(op.k, off) && op.k !in Contents()
               && (op.Assoc? || op.PutIfAbsent?)
      modifies `mem, entries
      ensures Valid() && Contents() == old(Contents())[op.k := op.v] && mem.cellOf == old(mem.cellOf)
    {
      PublishAlone(cfg, mem, op, off);
      hide Inv, Fits;
      var i := At(entries.Length, Wrap(cfg.Hash(op.k), entries.Length), off);
      entries[i] := entries[i].(value := Some(op.v));
      entries[i] := entries[i].(key := Some(op.k));
      mem := Put(cfg, mem, op.k, off, Some(op.k), Some(op.v));
    }

    /** Exchange the value of the cell that holds the key. */
    method StoreFound(op: Op, off: nat)
      requires Busy(op, Found(off)) && Published(mem) && (op.Assoc? || (op.PutIfAbsent? && op.k !in Contents()))
      modifies `mem, entries
      ensures Valid() && Contents() == old(Contents())[op.k := op.v] && mem.cellOf == old(mem.cellOf)
    {
      hide Inv, Fits, Wrap, Abs, Published;
      AloneFits(cfg, mem, op, Found(off));
      FoundAlone(cfg, mem, op, off);
      UpdateAlone(cfg, mem, op, off);
      var i := At(entries.Length, Wrap(cfg.Hash(op.k), entries.Length), off);
      entries[i] := entries[i].(value := Some(op.v));
      mem := Put(cfg, mem, op.k, off, Some(op.k), Some(op.v));
    }

    /** assoc: the key has the value afterwards; a refused call changes nothing and the key was not there. */
    method Assoc(k: Key, v: Value) returns (ok: bool)
      requires Valid() && 0 < |mem.cells| && Room(cfg, entries[..], k)
      modifies `mem, entries
      ensures Valid()
      ensures if ok then Contents() == old(Contents())[k := v] else Contents() == old(Contents()) && k !in Contents()
      ensures mem.cellOf.Keys <= old(mem.cellOf).Keys + {k}
      ensures ok <==> !Refuses(cfg, old(entries[..]), k)
    {
      hide Inv, Fits, Wrap, Abs, Published, Room, HasFree, Refuses;
      var op := Op.Assoc(k, v);
      var result, off := InsertOrFind(op);
      match result
      case Overflow => return false;
      case InsertedNew => StoreNew(op, off); return true;
      case AlreadyFound =>
        StoreFound(op, off);
        return true;
    }

    /** putIfAbsent: nil for the call that puts its value, otherwise the value already there. */
    method PutIfAbsent(k: Key, v: Value) returns (ok: bool, existing: Value)
      requires Valid() && 0 < |mem.cells| && Room(cfg, entries[..], k)
      modifies `mem, entries
      ensures Valid()
      ensures ok && k !in old(Contents()) ==> existing == Nil && Contents() == old(Contents())[k := v]
      ensures ok && k in old(Contents()) ==> existing == old(Contents())[k] && Contents() == old(Contents())
      ensures !ok ==> Contents() == old(Contents()) && k !in Contents()
      ensures ok <==> !Refuses(cfg, old(entries[..]), k)
    {
      hide Inv, Fits, Wrap, Abs, Published, Room, HasFree, Refuses;
      var op := Op.PutIfAbsent(k, v);
      var result, off := InsertOrFind(op);
      match result
      case Overflow => return false, Nil;
      case InsertedNew => StoreNew(op, off); return true, Nil;
      case AlreadyFound =>
        FoundAlone(cfg, mem, op, off);
        var i := At(entries.Length, Wrap(cfg.Hash(k), entries.Length), off);
        if entries[i].value.Some? {
          return true, entries[i].value.value;
        }
        StoreFound(op, off);
        return true, Nil;
    }

    /** getOrCreate: the value the key has afterwards, unless the key was there with the value nil, which the
        call takes for "absent": it then answers with the value it did not put. */
    method GetOrCreate(k: Key, v: Value) returns (ok: bool, r: Value)
      requires Valid() && 0 < |mem.cells| && Room(cfg, entries[..], k)
      modifies `mem, entries
      ensures Valid()
      ensures !ok ==> Contents() == old(Contents()) && k !in Contents()
      ensures ok <==> !Refuses(cfg, old(entries[..]), k)
      ensures ok ==> k in Contents()
      ensures ok ==> Contents() == if k in old(Contents()) then old(Contents()) else old(Contents())[k := v]
      ensures ok ==> r == if k in old(Contents()) && old(Contents())[k] != Nil then old(Contents())[k] else v
      ensures ok ==> (r == Contents()[k] <==> v == Nil || !(k in old(Contents()) && old(Contents())[k] == Nil))
    {
      var existing;
      ok, existing := PutIfAbsent(k, v);
      r := if existing == Nil then v else existing;
    }

    /** get: the key's value, or nil. */
    method Get(k: Key) returns (r: Value)
      requires Valid()
      ensures r == if k in Contents() then Contents()[k] else Nil
    {
      hide Inv, Ahead;
      ghost var op := Op.Get(k);
      StartWalk(cfg, mem, op);
      var n := entries.Length;
      var keyHash := cfg.Hash(k);
      var off := 0;
      var entry := entries[At(n, Wrap(keyHash, n), off)];
      WalkCell(cfg, mem, op, off);
      if entry.hash == keyHash && entry.key == Some(k) && entry.value.Some? {
        return entry.value.value;
      }
      WalkOn(cfg, mem, op, off);
      var jump := entry.longLeap;
      while 0 < jump
        invariant off < n
        invariant if jump == 0 then k !in Contents() else NotPassed(cfg, mem, op, off + jump)
        decreases n - off
      {
        off := off + jump;
        entry := entries[At(n, Wrap(keyHash, n), off)];
        WalkCell(cfg, mem, op, off);
        if entry.hash == keyHash && entry.key == Some(k) && entry.value.Some? {
          return entry.value.value;
        }
        WalkOn(cfg, mem, op, off);
        jump := entry.shortLeap;
      }
      return Nil;
    }

    /** dissoc: the key is gone. Its cell stays claimed, with the key in it and no value. */
    method Dissoc(k: Key)
      requires Valid()
      modifies `mem, entries
      ensures Valid() && Contents() == old(Contents()) - {k}
    {
      hide Inv, Ahead;
      ghost var op := Op.Dissoc(k);
      StartWalk(cfg, mem, op);
      var n := entries.Length;
      var off := 0;
      var deleted := TryDeleting(k, off);
      if deleted { return; }
      WalkOn(cfg, mem, op, off);
      var jump := entries[At(n, Wrap(cfg.Hash(k), n), off)].longLeap;
      while 0 < jump
        invariant off < n && Valid() && mem == old(mem)
        invariant if jump == 0 then k !in Contents() else NotPassed(cfg, mem, op, off + jump)
        decreases n - off
      {
        off := off + jump;
        deleted := TryDeleting(k, off);
        if deleted { return; }
        WalkOn(cfg, mem, op, off);
        jump := entries[At(n, Wrap(cfg.Hash(k), n), off)].shortLeap;
      }
    }

    /** tryDeletingFromEntry: true when the search is over. */
    method TryDeleting(k: Key, off: nat) returns (deleted: bool)
      requires Valid() && NotPassed(cfg, mem, Op.Dissoc(k), off)
      modifies `mem, entries
      ensures Valid()
      ensures if deleted then Contents() == old(Contents()) - {k}
              else
                && mem == old(mem)
                && !(CellAt(cfg, mem, k, off).hash == cfg.Hash(k) && CellAt(cfg, mem, k, off).key == Some(k))
    {
      hide Inv, Ahead;
      ghost var op := Op.Dissoc(k);
      var i := At(entries.Length, Wrap(cfg.Hash(k), entries.Length), off);
      WalkCell(cfg, mem, op, off);
      if entries[i].hash == 0 {
        assert Contents() == Contents() - {k};
        return true;
      }
      if entries[i].hash == cfg.Hash(k) && entries[i].key == Some(k) {
        ClearAlone(cfg, mem, op, off);
        entries[i] := entries[i].(value := None);
        mem := Put(cfg, mem, k, off, Some(k), None);
        return true;
      }
      return false;
    }
  }

  /** A table of two cells or more in which one key was ever inserted has a free cell. */
  lemma RoomForMore(c: Config, m: Memory, threads: map<Tid, Thread>, k: Key)
    requires Inv(c, State(m, threads)) && m.cellOf.Keys <= {k} && 2 <= |m.cells|
    ensures HasFree(m.cells)
  {
    assert m.cells[0].hash != 0 ==> 0 in m.intent && m.intent[0] in m.cellOf && m.cellOf[k] == 0;
    assert m.cells[1].hash != 0 ==> 1 in m.intent && m.intent[1] in m.cellOf && m.cellOf[k] == 1;
  }

  /** A key is put with the value nil; getOrCreate then answers with a value that is not the key's. */
  method GetOrCreateMissesNil(cfg: Config, k: Key, bits: int) returns (map_: ConcurrentHashMap, ok: bool, r: Value)
    requires cfg.Valid()
    ensures ok && map_.Contents() == map[k := Nil] && r == Word(bits)
  {
    hide Inv, Abs, Published;
    map_ := new ConcurrentHashMap(16, cfg);
    ok := map_.Assoc(k, Nil);
    RoomForMore(cfg, map_.mem, map[], k);
    ok, r := map_.GetOrCreate(k, Word(bits));
  }

  /** A table of one cell that holds another key has no room. */
  lemma OneCellNoRoom(c: Config, m: Memory, k: Key, other: Key)
    requires c.Valid() && Inv(c, State(m, map[])) && |m.cells| == 1 && k in Abs(m) && other != k
    ensures !Room(c, m.cells, other)
  {
    BucketCellOf(c, m, k);
    assert Wrap(c.Hash(other), 1) == Wrap(c.Hash(k), 1) == 0;
    assert InBucket(m.cells, 0, 0) && 1 + 0 <= 0 + c.threshold;
  }

  /** In a table of one cell the second key's assoc never returns. */
  method SecondKeyNeverReturns(cfg: Config, k: Key, other: Key, v: Value) returns (map_: ConcurrentHashMap)
    requires cfg.Valid() && other != k
    ensures map_.Valid() && map_.entries.Length == 1 && map_.Contents() == map[k := v]
    ensures forall steps :: InInsert(Solo(cfg, map_.mem, Op.Assoc(other, v), LoadHome, steps).1)
  {
    hide Inv, Abs, Published, Solo, ComesRound, Stored;
    map_ := new ConcurrentHashMap(1, cfg);
    var ok := map_.Assoc(k, v);
    OneCellNoRoom(cfg, map_.mem, k, other);
    forall steps ensures InInsert(Solo(cfg, map_.mem, Op.Assoc(other, v), LoadHome, steps).1) {
      NeverReturns(cfg, map_.mem, Op.Assoc(other, v), steps);
    }
  }
}
