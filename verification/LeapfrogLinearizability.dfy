/** Every call on the Leapfrog map takes effect at one moment between its start and its return. */
module LeapfrogLinearizability {
  import opened Options
  import opened LeapfrogTable
  import opened LeapfrogProtocol
  import opened LeapfrogInvariant
  import opened LeapfrogSteps

  // ---------------------------------------------------------------- what one step does to the map

  /** Two memories with the same present keys and values stand for the same map. */
  lemma SameAbs(m: Memory, m': Memory)
    requires forall k :: Present(m, k) <==> Present(m', k)
    requires forall k :: Present(m, k) && Present(m', k) ==> m.cells[m.cellOf[k]].value == m'.cells[m'.cellOf[k]].value
    ensures Abs(m) == Abs(m')
  {
    assert Abs(m).Keys == Abs(m').Keys;
  }

  lemma ClaimSameAbs(c: Config, m: Memory, t: Tid, k: Key, off: nat)
    requires TableInv(m.cells, c.threshold) && Claims(c, m) && k !in m.cellOf && CellAt(c, m, k, off).hash == 0
    ensures Abs(Claim(c, m, t, k, off)) == Abs(m)
  {
    var i := CellIndex(c, m, k, off);
    assert i !in m.intent && m.cells[i].key == None;
    SameAbs(m, Claim(c, m, t, k, off));
  }

  lemma LinkSameAbs(c: Config, m: Memory, k: Key, prev: nat, off: nat)
    requires 0 < |m.cells|
    ensures Abs(StoreLeap(c, m, k, prev, off)) == Abs(m)
  {
    SameAbs(m, StoreLeap(c, m, k, prev, off));
  }

  /** Storing the value of the cell of `k`, or its key, changes the map at `k` alone. */
  lemma DataAbs(c: Config, m: Memory, k: Key, i: nat, cell: Cell)
    requires Claims(c, m) && i < |m.cells| && i in m.intent && m.intent[i] == k
    requires cell.hash == m.cells[i].hash && (cell.key == None || cell.key == Some(k))
    ensures var m' := m.(cells := m.cells[i := cell]);
            Abs(m') == if cell.key == None || cell.value.None? then Abs(m) - {k} else Abs(m)[k := cell.value.value]
  {
    var m' := m.(cells := m.cells[i := cell]);
    assert m.cellOf[k] == i;
    assert forall x :: x in m.cellOf && x != k ==> m.cellOf[x] != i;
    hide Claims;
    assert forall x :: x != k ==> (Present(m, x) <==> Present(m', x));
    var a := if cell.key == None || cell.value.None? then Abs(m) - {k} else Abs(m)[k := cell.value.value];
    assert Abs(m').Keys == a.Keys;
  }

  /** The result a thread returns without having met its key. */
  predicate Misses(op: Op, pc: Pc, r: Result) {
    && (pc.WalkHash? || pc.WalkLeap?) && (op.Get? || op.Dissoc?)
    && r == Missed(op)
  }

  /** How one atomic step may change the map. */
  ghost predicate Effect(op: Op, pc: Pc, pc': Pc, a: map<Key, Value>, a': map<Key, Value>) {
    if pc'.Return? && !Misses(op, pc, pc'.result) && pc'.result != Overcrowded
    then SpecStep(op, a, a', pc'.result)
    else a' == a && (pc'.Return? && pc'.result == Overcrowded ==> op.Assoc? || op.PutIfAbsent?)
  }

  lemma PublishEffect(c: Config, m: Memory, t: Tid, op: Op, pc: Pc)
    requires 0 < |m.cells| && Claims(c, m) && Fits(c, m, t, op, pc)
    requires pc.PutValue? || pc.PutKey? || pc.Found?
    ensures var (m', pc') := Publish(c, m, op, pc); Effect(op, pc, pc', Abs(m), Abs(m'))
  {
    hide Claims, Fits, Abs, Present, Wrap;
    var i := CellIndex(c, m, op.k, pc.off);
    PublishPoint(c, m, t, op, pc);
    match pc
    case PutValue(off) => DataAbs(c, m, op.k, i, m.cells[i].(value := NewValue(op)));
    case PutKey(off) => DataAbs(c, m, op.k, i, m.cells[i].(key := Some(op.k)));
    case Found(off) => DataAbs(c, m, op.k, i, m.cells[i].(value := NewValue(op)));
  }

  /** What holds at the cell a thread is about to publish or update, and what that says about the map. */
  lemma PublishPoint(c: Config, m: Memory, t: Tid, op: Op, pc: Pc)
    requires 0 < |m.cells| && Claims(c, m) && Fits(c, m, t, op, pc)
    requires pc.PutValue? || pc.PutKey? || pc.Found?
    ensures op.Assoc? || op.PutIfAbsent?
    ensures var i := CellIndex(c, m, op.k, pc.off);
            && i in m.intent && m.intent[i] == op.k && (op.k !in Abs(m) ==> Abs(m) - {op.k} == Abs(m))
            && m.cells[i].key == (if pc.Found? then Some(op.k) else None)
            && (pc.PutKey? ==> m.cells[i].value == NewValue(op))
            && (op.k in Abs(m) <==> pc.Found? && m.cells[i].value.Some?)
            && (op.k in Abs(m) ==> Abs(m)[op.k] == m.cells[i].value.value)
  {
    OwnIntent(c, m, t, op, pc);
  }

  /** The cell a thread publishes or updates is the one claimed for its key. */
  lemma OwnIntent(c: Config, m: Memory, t: Tid, op: Op, pc: Pc)
    requires 0 < |m.cells| && Claims(c, m) && Fits(c, m, t, op, pc)
    requires pc.PutValue? || pc.PutKey? || pc.Found? || pc.WalkHit?
    ensures var i := CellIndex(c, m, op.k, pc.off);
            i in m.intent && m.intent[i] == op.k && op.k in m.cellOf && m.cellOf[op.k] == i
  {
    var i := CellIndex(c, m, op.k, pc.off);
    assert m.cells[i].key != None ==> i in m.intent && m.cells[i].key == Some(m.intent[i]);
  }

  lemma WalkEffect(c: Config, m: Memory, t: Tid, op: Op, pc: Pc)
    requires TableInv(m.cells, c.threshold) && Claims(c, m) && Fits(c, m, t, op, pc) && InWalk(pc)
    ensures var (m', pc') := Walk(c, m, op, pc); Effect(op, pc, pc', Abs(m), Abs(m'))
  {
    if pc.WalkHit? {
      var i := CellIndex(c, m, op.k, pc.off);
      OwnIntent(c, m, t, op, pc);
      assert Present(m, op.k) <==> m.cells[i].value.Some?;
      if op.Dissoc? { DataAbs(c, m, op.k, i, m.cells[i].(value := None)); }
    }
  }

  lemma InsertEffect(c: Config, m: Memory, t: Tid, op: Op, pc: Pc)
    requires 0 < |m.cells| && InInsert(pc) && (op.Assoc? || op.PutIfAbsent?)
    requires Abs(Insert(c, m, t, op.k, pc).0) == Abs(m)
    ensures var (m', pc') := Insert(c, m, t, op.k, pc); Effect(op, pc, pc', Abs(m), Abs(m'))
  {
  }

  /** A key whose search reaches an unclaimed cell has no cell yet. */
  lemma ClaimIsNew(c: Config, m: Memory, k: Key, off: nat)
    requires TableInv(m.cells, c.threshold) && Claims(c, m) && off < |m.cells|
    requires Cleared(m, Home(c, m, k), k, off) && CellAt(c, m, k, off).hash == 0
    ensures k !in m.cellOf
  {
    assert forall w: nat :: w < off ==> Claimed(m.cells, Home(c, m, k), w);
    ClaimKeepsTable(m.cells, c.threshold, Home(c, m, k), off, c.Hash(k));
    KeyIsNew(c, m, k, off);
  }

  lemma ClaimStepSameAbs(c: Config, m: Memory, t: Tid, op: Op, pc: Pc)
    requires TableInv(m.cells, c.threshold) && Claims(c, m) && Fits(c, m, t, op, pc) && (pc.CasHome? || pc.CasProbe?)
    ensures Abs(Insert(c, m, t, op.k, pc).0) == Abs(m)
  {
    assert 0 < |m.cells|;
    hide TableInv, Claims, Abs;
    var off := if pc.CasHome? then 0 else pc.off;
    if CellAt(c, m, op.k, off).hash == 0 {
      ClaimIsNew(c, m, op.k, off);
      ClaimSameAbs(c, m, t, op.k, off);
    }
  }

  lemma InsertSameAbs(c: Config, m: Memory, t: Tid, op: Op, pc: Pc)
    requires TableInv(m.cells, c.threshold) && Claims(c, m) && Fits(c, m, t, op, pc) && InInsert(pc)
    ensures Abs(Insert(c, m, t, op.k, pc).0) == Abs(m) && (op.Assoc? || op.PutIfAbsent?)
  {
    assert 0 < |m.cells|;
    hide TableInv, Claims, Abs;
    if pc.CasHome? || pc.CasProbe? {
      ClaimStepSameAbs(c, m, t, op, pc);
    } else if pc.HelpLink? {
      LinkSameAbs(c, m, op.k, pc.prev, pc.off);
    }
  }

  /** Each step either leaves the map alone, or is the one step at which its operation happens:
      it changes the map and yields the result just as the operation would on a finite map. */
  lemma ActEffect(c: Config, s: State, t: Tid)
    requires Inv(c, s) && t in s.threads && s.threads[t].Run? && !s.threads[t].pc.Return?
    ensures var op, pc := s.threads[t].op, s.threads[t].pc;
            var (m', pc') := Act(c, s.mem, t, op, pc);
            Effect(op, pc, pc', Abs(s.mem), Abs(m'))
  {
    var op, pc := s.threads[t].op, s.threads[t].pc;
    assert ThreadFits(c, s.mem, t, s.threads[t]);
    if InInsert(pc) {
      InsertSameAbs(c, s.mem, t, op, pc);
      InsertEffect(c, s.mem, t, op, pc);
    } else if pc.StoreLink? {
      LinkSameAbs(c, s.mem, op.k, pc.prev, pc.off);
    } else if InPublish(pc) {
      PublishEffect(c, s.mem, t, op, pc);
    } else {
      WalkEffect(c, s.mem, t, op, pc);
    }
  }

  // ---------------------------------------------------------------- walkers do not skip a present key

  /** The key is present and the walker has not passed its cell. */
  ghost predicate Ahead(c: Config, m: Memory, k: Key, pc: Pc)
    requires 0 < |m.cells|
  {
    && Present(m, k)
    && var o := Off(|m.cells|, Home(c, m, k), m.cellOf[k]);
    match pc
    case WalkHash(off) => off <= o
    case WalkKey(off) => off <= o
    case WalkHit(off) => off == o
    case WalkLeap(off) => off < o
    case _ => false
  }

  /** The chain node before a published cell of the bucket has its link. */
  lemma PublishedIsLinked(c: Config, s: State, k: Key, w: nat)
    requires Inv(c, s) && Present(s.mem, k)
    requires var b := Home(c, s.mem, k);
             w < Off(|s.mem.cells|, b, s.mem.cellOf[k]) && IsNode(s.mem.cells, b, w)
    ensures var b := Home(c, s.mem, k);
            var d := Leap(s.mem.cells, b, w);
            d != 0 && w + d <= Off(|s.mem.cells|, b, s.mem.cellOf[k])
  {
    var m, b := s.mem, Home(c, s.mem, k);
    var o := Off(|m.cells|, b, m.cellOf[k]);
    BucketCellOf(c, m, k);
    var d := Leap(m.cells, b, w);
    if d == 0 {
      assert false;
    }
    assert LeapOk(m.cells, c.threshold, b, w, d);
    assert !(w < o < w + d);
  }

  /** A walker behind a present key's cell stays behind it or finds it. */
  lemma WalkStaysBehind(c: Config, s: State, t: Tid)
    requires Inv(c, s) && t in s.threads && s.threads[t].Run? && InWalk(s.threads[t].pc)
    requires Ahead(c, s.mem, s.threads[t].op.k, s.threads[t].pc)
    ensures var op, pc := s.threads[t].op, s.threads[t].pc;
            var (m', pc') := Walk(c, s.mem, op, pc);
            if pc'.Return? then pc.WalkHit? else Ahead(c, m', op.k, pc')
  {
    var op, pc, m := s.threads[t].op, s.threads[t].pc, s.mem;
    var b := Home(c, m, op.k);
    assert ThreadFits(c, m, t, s.threads[t]);
    BucketCellOf(c, m, op.k);
    match pc
    case WalkHash(off) =>
      assert Claimed(m.cells, b, off);
    case WalkKey(off) =>
      var i := CellIndex(c, m, op.k, off);
      if m.cells[i].key != None {
        assert i in m.intent;
      }
    case WalkHit(off) =>
    case WalkLeap(off) =>
      PublishedIsLinked(c, s, op.k, off);
  }

  /** A key's cell never moves. */
  lemma CellOfIsFixed(c: Config, m: Memory, m': Memory, k: Key, pc: Pc)
    requires 0 < |m.cells| && Claims(c, m') && Grows(m.cells, m'.cells)
    requires Ahead(c, m, k, pc) && Present(m', k)
    ensures Ahead(c, m', k, pc)
  {
    assert m'.cells[m.cellOf[k]].key == Some(k);
    assert m.cellOf[k] in m'.intent;
  }

  /** Claims, non-zero leaps and published keys are permanent. */
  lemma ActGrows(c: Config, s: State, t: Tid)
    requires Inv(c, s) && t in s.threads && s.threads[t].Run? && !s.threads[t].pc.Return?
    ensures Grows(s.mem.cells, Act(c, s.mem, t, s.threads[t].op, s.threads[t].pc).0.cells)
  {
    hide Inv, TableInv, Claims, Fits, Wrap;
    var op, pc, m := s.threads[t].op, s.threads[t].pc, s.mem;
    OneThread(c, s, t);
    if pc.HelpLink? || pc.StoreLink? {
      LinkGrows(c, m, t, op, pc);
    } else if pc.PutValue? || pc.PutKey? || pc.Found? || pc.WalkHit? {
      WriteGrows(c, m, t, op, pc);
    }
  }

  lemma LinkGrows(c: Config, m: Memory, t: Tid, op: Op, pc: Pc)
    requires TableInv(m.cells, c.threshold) && Claims(c, m) && Fits(c, m, t, op, pc) && (pc.HelpLink? || pc.StoreLink?)
    ensures Grows(m.cells, StoreLeap(c, m, op.k, pc.prev, pc.off).cells)
  {
    assert InBucket(m.cells, Home(c, m, op.k), pc.off);
    LinkKeepsMemory(c, m, op.k, pc.prev, pc.off);
    assert Rely(m, StoreLeap(c, m, op.k, pc.prev, pc.off), t);
  }

  lemma WriteGrows(c: Config, m: Memory, t: Tid, op: Op, pc: Pc)
    requires 0 < |m.cells| && Claims(c, m) && Fits(c, m, t, op, pc)
    requires pc.PutValue? || pc.PutKey? || pc.Found? || pc.WalkHit?
    ensures Grows(m.cells, Act(c, m, t, op, pc).0.cells)
  {
    WritesAreData(c, m, t, op, pc);
  }
}
