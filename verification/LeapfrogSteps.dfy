/** Each atomic step of the Leapfrog protocol keeps the invariant; hence so does every run. */
module LeapfrogSteps {
  import opened Options
  import opened LeapfrogTable
  import opened LeapfrogProtocol
  import opened LeapfrogInvariant

  // ---------------------------------------------------------------- searching

  /** A claimed cell that is not for `k` extends the cleared stretch. */
  lemma ExtendCleared(c: Config, m: Memory, b: nat, k: Key, o: nat)
    requires 0 < |m.cells| && b < |m.cells| && o < |m.cells| && Claims(c, m) && Cleared(m, b, k, o)
             && Claimed(m.cells, b, o)
    requires var cell := m.cells[At(|m.cells|, b, o)];
             cell.hash != c.Hash(k) || (cell.key != None && cell.key != Some(k))
    ensures Cleared(m, b, k, o + 1)
  {
    var i := At(|m.cells|, b, o);
    assert i in m.intent;
    assert NotFor(m, b, o, k);
  }

  /** Cells of other buckets extend it too. */
  lemma ExtendOverForeign(m: Memory, b: nat, k: Key, o: nat, hi: nat)
    requires 0 < |m.cells| && Cleared(m, b, k, o + 1) && Foreign(m.cells, b, o, hi)
    ensures Cleared(m, b, k, hi)
  {
    forall w: nat | w < hi
      ensures Claimed(m.cells, b, w) && (InBucket(m.cells, b, w) ==> NotFor(m, b, w, k))
    {
      assert o < w ==> Claimed(m.cells, b, w) && !InBucket(m.cells, b, w);
    }
  }

  /** Following a right link extends the linked stretch. */
  lemma ExtendLinked(cells: seq<Cell>, threshold: nat, b: nat, off: nat)
    requires 0 < |cells| && Linked(cells, b, off) && LeapOk(cells, threshold, b, off, Leap(cells, b, off))
    ensures Linked(cells, b, off + Leap(cells, b, off))
  {
    var delta := Leap(cells, b, off);
    assert forall w: nat :: off < w < off + delta ==> !InBucket(cells, b, w);
  }

  lemma AfterHomeFits(c: Config, m: Memory, t: Tid, op: Op)
    requires 0 < |m.cells| && Claims(c, m) && (op.Assoc? || op.PutIfAbsent?)
    requires CellAt(c, m, op.k, 0).hash != 0
    ensures Fits(c, m, t, op, AfterHome(c, op.k, CellAt(c, m, op.k, 0).hash))
  {
    var b := Home(c, m, op.k);
    if CellAt(c, m, op.k, 0).hash != c.Hash(op.k) {
      ExtendCleared(c, m, b, op.k, 0);
    }
  }

  lemma AwaitKeyFits(c: Config, m: Memory, t: Tid, op: Op, off: nat, via: Via)
    requires 0 < |m.cells| && Claims(c, m) && Fits(c, m, t, op, AwaitKey(off, via))
    requires CellAt(c, m, op.k, off).key != None
    ensures CellAt(c, m, op.k, off).key == Some(op.k) ==> Fits(c, m, t, op, Found(off))
    ensures CellAt(c, m, op.k, off).key != Some(op.k) ==>
              Fits(c, m, t, op, if via.FromProbe? then HelpLink(via.prev, off) else ReadLeap(off))
  {
    var b := Home(c, m, op.k);
    assert InBucket(m.cells, b, off);
    if CellAt(c, m, op.k, off).key != Some(op.k) {
      ExtendCleared(c, m, b, op.k, off);
    }
  }

  lemma ReadLeapFits(c: Config, m: Memory, t: Tid, op: Op, off: nat)
    requires TableInv(m.cells, c.threshold) && Fits(c, m, t, op, ReadLeap(off))
    ensures var delta := Leap(m.cells, Home(c, m, op.k), off);
            Fits(c, m, t, op, if 0 < delta then LoadLinked(off + delta) else Probe(off, off, c.threshold))
  {
    var b := Home(c, m, op.k);
    var delta := Leap(m.cells, b, off);
    if 0 < delta {
      assert LeapOk(m.cells, c.threshold, b, off, delta);
      ExtendOverForeign(m, b, op.k, off, off + delta);
      ExtendLinked(m.cells, c.threshold, b, off);
    }
  }

  lemma LoadLinkedFits(c: Config, m: Memory, t: Tid, op: Op, off: nat)
    requires 0 < |m.cells| && Claims(c, m) && Fits(c, m, t, op, LoadLinked(off))
    ensures var probe := CellAt(c, m, op.k, off).hash;
            Fits(c, m, t, op, if probe == c.Hash(op.k) then AwaitKey(off, FromLeap) else ReadLeap(off))
  {
    if CellAt(c, m, op.k, off).hash != c.Hash(op.k) {
      ExtendCleared(c, m, Home(c, m, op.k), op.k, off);
    }
  }

  lemma AfterProbeFits(c: Config, m: Memory, t: Tid, op: Op, prev: nat, off: nat, left: nat)
    requires 0 < |m.cells| && Claims(c, m) && Fits(c, m, t, op, CasProbe(prev, off, left))
    requires CellAt(c, m, op.k, off).hash != 0
    ensures Fits(c, m, t, op, AfterProbe(c, m, op.k, prev, off, left, CellAt(c, m, op.k, off).hash))
  {
    var b := Home(c, m, op.k);
    var probe := CellAt(c, m, op.k, off).hash;
    if probe != c.Hash(op.k) {
      ExtendCleared(c, m, b, op.k, off);
      assert Wrap(probe, |m.cells|) == b <==> InBucket(m.cells, b, off);
    }
  }

  /** The next linear probe stays inside the table, because some cell is free. */
  lemma ProbeFits(c: Config, m: Memory, t: Tid, op: Op, prev: nat, off: nat, left: nat)
    requires 0 < |m.cells| && HasFree(m.cells) && Fits(c, m, t, op, Probe(prev, off, left)) && 0 < left
    ensures Fits(c, m, t, op, CasProbe(prev, off + 1, left - 1))
  {
    assert forall w: nat :: w <= off ==> Claimed(m.cells, Home(c, m, op.k), w);
    FreeBoundsRun(m.cells, Home(c, m, op.k), off);
  }

  // ---------------------------------------------------------------- claiming

  /** Nobody can have claimed a cell for `k` when `k`'s own search reaches an unclaimed cell. */
  lemma KeyIsNew(c: Config, m: Memory, k: Key, off: nat)
    requires TableInv(m.cells, c.threshold) && Claims(c, m) && off < |m.cells|
    requires Cleared(m, Home(c, m, k), k, off)
    requires forall w: nat :: off <= w < |m.cells| ==> !InBucket(m.cells, Home(c, m, k), w)
    ensures k !in m.cellOf
  {
    var b := Home(c, m, k);
    if k in m.cellOf {
      BucketCellOf(c, m, k);
      assert false;
    }
  }

  /** The cell claimed for a key lies in the key's bucket. */
  lemma BucketCellOf(c: Config, m: Memory, k: Key)
    requires 0 < |m.cells| && Claims(c, m) && k in m.cellOf
    ensures m.cellOf[k] < |m.cells|
    ensures var b := Home(c, m, k); InBucket(m.cells, b, Off(|m.cells|, b, m.cellOf[k]))
  {
    assert m.cellOf[k] in m.intent;
  }

  lemma ClaimKeepsClaims(c: Config, m: Memory, t: Tid, k: Key, off: nat)
    requires TableInv(m.cells, c.threshold) && Claims(c, m) && k !in m.cellOf
    requires CellAt(c, m, k, off).hash == 0
    ensures Claims(c, Claim(c, m, t, k, off))
  {
    hide TableInv;
    var i := CellIndex(c, m, k, off);
    assert i !in m.intent;
  }

  lemma ClaimRely(c: Config, m: Memory, t: Tid, k: Key, off: nat, u: Tid)
    requires TableInv(m.cells, c.threshold) && Claims(c, m)
    requires CellAt(c, m, k, off).hash == 0
    ensures Rely(m, Claim(c, m, t, k, off), u)
  {
    assert CellIndex(c, m, k, off) !in m.intent;
  }

  /** The point at which a claimant continues, and what it knows there. */
  ghost predicate ClaimPoint(c: Config, m: Memory, k: Key, off: nat, pc: Pc)
    requires 0 < |m.cells|
  {
    var b := Home(c, m, k);
    && off < |m.cells| && CellAt(c, m, k, off).hash == 0
    && Cleared(m, b, k, off)
    && if off == 0 then pc == PutValue(0)
       else pc.StoreLink? && pc.off == off && Linked(m.cells, b, pc.prev) && Crossed(c, m, b, pc.prev, off)
  }

  /** A node without a link in front of the newly claimed cell can only be the one being linked. */
  lemma ClaimHasOnePredecessor(c: Config, m: Memory, k: Key, off: nat, pc: Pc, w: nat)
    requires 0 < |m.cells| && ClaimPoint(c, m, k, off, pc) && w < off
    requires var b := Home(c, m, k); IsNode(m.cells, b, w) && Leap(m.cells, b, w) == 0
    ensures pc == StoreLink(w, off)
  {
    assert forall x: nat :: pc.prev < x < off ==> !InBucket(m.cells, Home(c, m, k), x);
  }

  lemma ClaimKeepsPending(c: Config, s: State, t: Tid, off: nat, pc: Pc)
    requires TableInv(s.mem.cells, c.threshold) && Pending(c, s.mem, s.threads)
    requires t in s.threads && s.threads[t].Run? && !s.threads[t].pc.StoreLink?
    requires ClaimPoint(c, s.mem, s.threads[t].op.k, off, pc)
    requires forall w: nat :: off <= w < |s.mem.cells| ==> !InBucket(s.mem.cells, Home(c, s.mem, s.threads[t].op.k), w)
    ensures Pending(c, Claim(c, s.mem, t, s.threads[t].op.k, off), s.threads[t := s.threads[t].(pc := pc)])
  {
    var m, k, n := s.mem, s.threads[t].op.k, |s.mem.cells|;
    var b := Home(c, m, k);
    var i := At(n, b, off);
    var m' := Claim(c, m, t, k, off);
    var threads' := s.threads[t := s.threads[t].(pc := pc)];
    forall b': nat, w: nat, o: nat |
      b' < n && w < o < n && IsNode(m'.cells, b', w) && Leap(m'.cells, b', w) == 0 && InBucket(m'.cells, b', o)
      ensures Storing(c, m', threads', At(n, b', o), b', w, o)
    {
      assert Leap(m.cells, b', w) == 0;
      if At(n, b', o) == i {
        assert b' == b && o == off;
        assert IsNode(m.cells, b, w);
        ClaimHasOnePredecessor(c, m, k, off, pc, w);
      } else {
        assert InBucket(m.cells, b', o);
        assert IsNode(m.cells, b', w);
        assert Storing(c, m, s.threads, At(n, b', o), b', w, o);
      }
    }
  }

  /** The claimant owns the cell it has just claimed. */
  lemma ClaimFits(c: Config, m: Memory, t: Tid, op: Op, off: nat, pc: Pc)
    requires TableInv(m.cells, c.threshold) && Claims(c, m) && (op.Assoc? || op.PutIfAbsent?)
    requires ClaimPoint(c, m, op.k, off, pc)
    ensures Fits(c, Claim(c, m, t, op.k, off), t, op, pc)
  {
    ClaimRely(c, m, t, op.k, off, t);
    if pc.StoreLink? { CrossedIsStable(c, m, Claim(c, m, t, op.k, off), t, Home(c, m, op.k), pc.prev, off); }
  }

  lemma ClaimStep(c: Config, s: State, t: Tid, off: nat, pc: Pc)
    requires Inv(c, s) && t in s.threads && s.threads[t].Run? && !s.threads[t].pc.StoreLink?
    requires var op := s.threads[t].op; (op.Assoc? || op.PutIfAbsent?) && ClaimPoint(c, s.mem, op.k, off, pc)
    ensures Inv(c, State(Claim(c, s.mem, t, s.threads[t].op.k, off), s.threads[t := s.threads[t].(pc := pc)]))
  {
    var op := s.threads[t].op;
    var k, b := op.k, Home(c, s.mem, op.k);
    var m' := Claim(c, s.mem, t, k, off);
    assert forall w: nat :: w < off ==> Claimed(s.mem.cells, b, w);
    ClaimKeepsTable(s.mem.cells, c.threshold, b, off, c.Hash(k));
    assert Claims(c, m') by {
      KeyIsNew(c, s.mem, k, off);
      ClaimKeepsClaims(c, s.mem, t, k, off);
    }
    ClaimKeepsPending(c, s, t, off, pc);
    ClaimFits(c, s.mem, t, op, off, pc);
    forall u ensures Rely(s.mem, m', u) { ClaimRely(c, s.mem, t, k, off, u); }
    Assemble(c, s, m', t, s.threads[t].(pc := pc));
  }

  // ---------------------------------------------------------------- linking

  lemma LinkKeepsPending(c: Config, s: State, t: Tid, th: Thread, b: nat, prev: nat, off: nat)
    requires 0 < |s.mem.cells| && Pending(c, s.mem, s.threads) && t in s.threads && s.threads[t].Run?
    requires b == Home(c, s.mem, s.threads[t].op.k) && prev < off < |s.mem.cells| && IsNode(s.mem.cells, b, prev)
    requires s.threads[t].pc == StoreLink(prev, off) || s.threads[t].pc == HelpLink(prev, off)
    ensures Pending(c, s.mem.(cells := WithLeap(s.mem.cells, b, prev, off - prev)), s.threads[t := th])
  {
    var m, n := s.mem, |s.mem.cells|;
    var m' := m.(cells := WithLeap(m.cells, b, prev, off - prev));
    forall b': nat, w: nat, o: nat |
      b' < n && w < o < n && IsNode(m'.cells, b', w) && Leap(m'.cells, b', w) == 0 && InBucket(m'.cells, b', o)
      ensures Storing(c, m', s.threads[t := th], At(n, b', o), b', w, o)
    {
      assert IsNode(m.cells, b', w) && InBucket(m.cells, b', o);
      assert !(b' == b && w == prev);
      OtherLeapKept(m.cells, b, prev, off - prev, b', w);
      assert Storing(c, m, s.threads, At(n, b', o), b', w, o);
    }
  }

  lemma LinkRely(m: Memory, cells: seq<Cell>, u: Tid)
    requires Grows(m.cells, cells)
    requires forall i :: 0 <= i < |cells| ==> cells[i].key == m.cells[i].key && cells[i].value == m.cells[i].value
    ensures Rely(m, m.(cells := cells), u)
  {
  }

  /** Claims speak of hashes and keys only. */
  lemma LinkKeepsClaims(c: Config, m: Memory, cells: seq<Cell>)
    requires Claims(c, m) && |cells| == |m.cells|
    requires forall i :: 0 <= i < |cells| ==> cells[i].key == m.cells[i].key && cells[i].hash == m.cells[i].hash
    ensures Claims(c, m.(cells := cells))
  {
  }

  /** A link store keeps the shared part of the invariant, and interferes with nobody. */
  lemma LinkKeepsMemory(c: Config, m: Memory, k: Key, prev: nat, off: nat)
    requires TableInv(m.cells, c.threshold) && Claims(c, m)
    requires var b := Home(c, m, k); Crossed(c, m, b, prev, off) && InBucket(m.cells, b, off)
    ensures TableInv(StoreLeap(c, m, k, prev, off).cells, c.threshold)
    ensures Claims(c, StoreLeap(c, m, k, prev, off))
    ensures forall u :: Rely(m, StoreLeap(c, m, k, prev, off), u)
  {
    var m' := StoreLeap(c, m, k, prev, off);
    assert LeapOk(m.cells, c.threshold, Home(c, m, k), prev, off - prev);
    LinkKeepsTable(m.cells, c.threshold, Home(c, m, k), prev, off - prev);
    LinkKeepsClaims(c, m, m'.cells);
    forall u ensures Rely(m, m', u) { LinkRely(m, m'.cells, u); }
  }

  lemma LinkStep(c: Config, s: State, t: Tid, prev: nat, off: nat)
    requires Inv(c, s) && t in s.threads && s.threads[t].Run?
    requires s.threads[t].pc == StoreLink(prev, off) || s.threads[t].pc == HelpLink(prev, off)
    ensures Inv(c, Do(c, s, Go(t)))
  {
    hide Inv, TableInv, Claims, Pending, Wrap, Rely;
    var op, m := s.threads[t].op, s.mem;
    OneThread(c, s, t);
    LinkKeepsMemory(c, m, op.k, prev, off);
    var th := if s.threads[t].pc.StoreLink? then Run(op, PutValue(off)) else Run(op, ReadLeap(off));
    LinkKeepsPending(c, s, t, th, Home(c, m, op.k), prev, off);
    LinkFits(c, m, t, op, prev, off, s.threads[t].pc.HelpLink?);
    Assemble(c, s, StoreLeap(c, m, op.k, prev, off), t, th);
  }

  lemma LinkFits(c: Config, m: Memory, t: Tid, op: Op, prev: nat, off: nat, helping: bool)
    requires 0 < |m.cells| && Rely(m, StoreLeap(c, m, op.k, prev, off), t)
    requires Fits(c, m, t, op, if helping then HelpLink(prev, off) else StoreLink(prev, off))
    ensures Fits(c, StoreLeap(c, m, op.k, prev, off), t, op, if helping then ReadLeap(off) else PutValue(off))
  {
    hide Wrap, Cleared, Linked, Foreign, InBucket;
    var m' := StoreLeap(c, m, op.k, prev, off);
    FitsIsStable(c, m, m', t, op, if helping then HelpLink(prev, off) else StoreLink(prev, off));
    if helping { ExtendLinked(m'.cells, c.threshold, Home(c, m, op.k), prev); }
  }

  // ---------------------------------------------------------------- publishing and updating

  /** A store to the value or key of a claimed cell, by its owner or after its key is published. */
  ghost predicate DataWrite(m: Memory, t: Tid, i: nat, cell: Cell) {
    && i < |m.cells| && m.cells[i].hash != 0
    && cell.hash == m.cells[i].hash && cell.shortLeap == m.cells[i].shortLeap && cell.longLeap == m.cells[i].longLeap
    && (cell.key == m.cells[i].key || (m.cells[i].key == None && i in m.intent && cell.key == Some(m.intent[i])))
    && (m.cells[i].key != None || (i in m.claimant && m.claimant[i] == t))
  }

  lemma DataKeepsMemory(c: Config, m: Memory, t: Tid, i: nat, cell: Cell)
    requires TableInv(m.cells, c.threshold) && Claims(c, m) && DataWrite(m, t, i, cell)
    ensures var m' := m.(cells := m.cells[i := cell]);
            TableInv(m'.cells, c.threshold) && Claims(c, m') && forall u :: u != t ==> Rely(m, m', u)
  {
    DataKeepsTable(m.cells, m.cells[i := cell], c.threshold);
    DataKeepsClaims(c, m, i, cell);
  }

  lemma DataStep(c: Config, s: State, t: Tid, i: nat, cell: Cell, pc: Pc)
    requires Inv(c, s) && t in s.threads && s.threads[t].Run? && !s.threads[t].pc.StoreLink?
    requires DataWrite(s.mem, t, i, cell)
    requires Fits(c, s.mem.(cells := s.mem.cells[i := cell]), t, s.threads[t].op, pc)
    ensures Inv(c, State(s.mem.(cells := s.mem.cells[i := cell]), s.threads[t := Run(s.threads[t].op, pc)]))
  {
    var m' := s.mem.(cells := s.mem.cells[i := cell]);
    DataKeepsMemory(c, s.mem, t, i, cell);
    PendingIsStable(c, s, m', t, Run(s.threads[t].op, pc));
    Assemble(c, s, m', t, Run(s.threads[t].op, pc));
  }

  lemma DataKeepsClaims(c: Config, m: Memory, i: nat, cell: Cell)
    requires Claims(c, m) && i < |m.cells| && cell.hash == m.cells[i].hash
    requires cell.key == m.cells[i].key || (m.cells[i].key == None && i in m.intent && cell.key == Some(m.intent[i]))
    ensures Claims(c, m.(cells := m.cells[i := cell]))
  {
  }

  lemma DataKeepsTable(cells: seq<Cell>, after: seq<Cell>, threshold: nat)
    requires TableInv(cells, threshold) && SameLayout(cells, after)
    requires forall i :: 0 <= i < |cells| && cells[i].hash == 0 ==> after[i] == cells[i]
    ensures TableInv(after, threshold)
  {
    LinkKeepsGaps(cells, after);
    forall b: nat, o: nat | b < |after| && o < |after| && IsNode(after, b, o) && Leap(after, b, o) != 0
      ensures LeapOk(after, threshold, b, o, Leap(after, b, o))
    {
      assert IsNode(cells, b, o) && Leap(cells, b, o) == Leap(after, b, o);
      LeapOkIsStable(cells, after, threshold, b, o, Leap(cells, b, o));
    }
  }

  /** A thread at a publishing point writes only what it may write. */
  lemma WritesAreData(c: Config, m: Memory, t: Tid, op: Op, pc: Pc)
    requires 0 < |m.cells| && Claims(c, m) && Fits(c, m, t, op, pc)
    requires pc.PutValue? || pc.PutKey? || pc.Found? || pc.WalkHit?
    ensures var i, cell := CellIndex(c, m, op.k, pc.off), CellAt(c, m, op.k, pc.off);
            DataWrite(m, t, i, cell.(value := NewValue(op)))
                && (!pc.PutValue? ==> DataWrite(m, t, i, cell.(key := Some(op.k))))
  {
    var i := CellIndex(c, m, op.k, pc.off);
    assert m.cells[i].key != None ==> i in m.intent && m.cells[i].key == Some(m.intent[i]);
  }

  lemma PublishStep(c: Config, s: State, t: Tid)
    requires Inv(c, s) && t in s.threads && s.threads[t].Run? && InPublish(s.threads[t].pc)
    ensures Inv(c, Do(c, s, Go(t)))
  {
    hide Inv, TableInv, Claims, Pending, Wrap;
    var op, m, pc := s.threads[t].op, s.mem, s.threads[t].pc;
    OneThread(c, s, t);
    if pc.StoreLink? {
      LinkStep(c, s, t, pc.prev, pc.off);
    } else {
      WritesAreData(c, m, t, op, pc);
      var (m', pc') := Publish(c, m, op, pc);
      if m' == m {
        LocalStep(c, s, t, Run(op, pc'));
      } else {
        var i := CellIndex(c, m, op.k, pc.off);
        DataStep(c, s, t, i, m'.cells[i], pc');
      }
    }
  }

  // ---------------------------------------------------------------- all steps

  /** The points reached without a write in insertOrFind. */
  lemma ChainFits(c: Config, m: Memory, t: Tid, op: Op, pc: Pc)
    requires TableInv(m.cells, c.threshold) && Claims(c, m) && Fits(c, m, t, op, pc)
    requires pc.LoadHome? || pc.CasHome? || pc.AwaitKey? || pc.ReadLeap? || pc.LoadLinked?
    requires Insert(c, m, t, op.k, pc).0 == m
    ensures Fits(c, m, t, op, Insert(c, m, t, op.k, pc).1)
  {
    hide TableInv, Claims, HasFree, Cleared, Linked, Crossed, Foreign, IsNode, InBucket;
    match pc
    case LoadHome => if CellAt(c, m, op.k, 0).hash != 0 { AfterHomeFits(c, m, t, op); }
    case CasHome => if CellAt(c, m, op.k, 0).hash != 0 { AfterHomeFits(c, m, t, op); }
    case AwaitKey(off, via) => if CellAt(c, m, op.k, off).key != None { AwaitKeyFits(c, m, t, op, off, via); }
    case ReadLeap(off) => ReadLeapFits(c, m, t, op, off);
    case LoadLinked(off) => LoadLinkedFits(c, m, t, op, off);
  }

  lemma ProbingFits(c: Config, m: Memory, t: Tid, op: Op, prev: nat, off: nat, left: nat)
    requires TableInv(m.cells, c.threshold) && Claims(c, m) && HasFree(m.cells)
    requires Fits(c, m, t, op, Probe(prev, off, left))
    ensures Fits(c, m, t, op, Insert(c, m, t, op.k, Probe(prev, off, left)).1)
  {
    hide TableInv, Claims, HasFree, Cleared, Linked, Crossed, Foreign, IsNode, InBucket;
    if left != 0 {
      ProbeFits(c, m, t, op, prev, off, left);
      if CellAt(c, m, op.k, off + 1).hash != 0 { AfterProbeFits(c, m, t, op, prev, off + 1, left - 1); }
    }
  }

  lemma SearchFits(c: Config, m: Memory, t: Tid, op: Op, pc: Pc)
    requires TableInv(m.cells, c.threshold) && Claims(c, m) && HasFree(m.cells) && Fits(c, m, t, op, pc)
    requires InInsert(pc) && !pc.HelpLink? && Insert(c, m, t, op.k, pc).0 == m
    requires pc.CasProbe? ==> CellAt(c, m, op.k, pc.off).hash != 0
    ensures Fits(c, m, t, op, Insert(c, m, t, op.k, pc).1)
  {
    hide TableInv, Claims, HasFree, Fits;
    match pc
    case Probe(prev, off, left) => ProbingFits(c, m, t, op, prev, off, left);
    case CasProbe(prev, off, left) => AfterProbeFits(c, m, t, op, prev, off, left);
    case _ => ChainFits(c, m, t, op, pc);
  }

  lemma InsertStep(c: Config, s: State, t: Tid)
    requires Inv(c, s) && HasFree(s.mem.cells) && t in s.threads && s.threads[t].Run? && InInsert(s.threads[t].pc)
    ensures Inv(c, Do(c, s, Go(t)))
  {
    var op, m, pc := s.threads[t].op, s.mem, s.threads[t].pc;
    assert ThreadFits(c, m, t, s.threads[t]);
    if pc.HelpLink? {
      LinkStep(c, s, t, pc.prev, pc.off);
    } else if pc.CasHome? && CellAt(c, m, op.k, 0).hash == 0 {
      ClaimStep(c, s, t, 0, PutValue(0));
    } else if pc.CasProbe? && CellAt(c, m, op.k, pc.off).hash == 0 {
      ClaimStep(c, s, t, pc.off, StoreLink(pc.prev, pc.off));
    } else {
      SearchFits(c, m, t, op, pc);
      LocalStep(c, s, t, Run(op, Insert(c, m, t, op.k, pc).1));
    }
  }

  lemma WalkFits(c: Config, m: Memory, t: Tid, op: Op, pc: Pc)
    requires 0 < |m.cells| && TableInv(m.cells, c.threshold) && Fits(c, m, t, op, pc) && InWalk(pc)
    requires Walk(c, m, op, pc).0 == m
    ensures Fits(c, m, t, op, Walk(c, m, op, pc).1)
  {
    hide TableInv, Wrap, IsNode, Leap, Owns, Cleared, Linked, Crossed;
    match pc
    case WalkHash(off) =>
    case WalkKey(off) => OwnBucket(c, m, op.k, off);
    case WalkHit(off) => OwnBucket(c, m, op.k, off);
    case WalkLeap(off) => LeapIsNode(c, m, op.k, off);
  }

  /** A cell with the hash of a key is a node of the key's bucket. */
  lemma OwnBucket(c: Config, m: Memory, k: Key, off: nat)
    requires 0 < |m.cells| && off < |m.cells| && CellAt(c, m, k, off).hash == c.Hash(k)
    ensures IsNode(m.cells, Home(c, m, k), off)
  {
  }

  /** A leap leads to a node. */
  lemma LeapIsNode(c: Config, m: Memory, k: Key, off: nat)
    requires TableInv(m.cells, c.threshold) && off < |m.cells| && IsNode(m.cells, Home(c, m, k), off)
    ensures var d := Leap(m.cells, Home(c, m, k), off);
            d != 0 ==> off + d < |m.cells| && IsNode(m.cells, Home(c, m, k), off + d)
  {
    hide NoGap, UnusedAreBlank, Wrap;
    var b := Home(c, m, k);
    if Leap(m.cells, b, off) != 0 { assert LeapOk(m.cells, c.threshold, b, off, Leap(m.cells, b, off)); }
  }

  lemma WalkStep(c: Config, s: State, t: Tid)
    requires Inv(c, s) && t in s.threads && s.threads[t].Run? && InWalk(s.threads[t].pc)
    ensures Inv(c, Do(c, s, Go(t)))
  {
    hide Inv, TableInv, Claims, Pending, Fits, Wrap;
    var op, m, pc := s.threads[t].op, s.mem, s.threads[t].pc;
    OneThread(c, s, t);
    if pc.WalkHit? && op.Dissoc? {
      WritesAreData(c, m, t, op, pc);
      DataStep(c, s, t, CellIndex(c, m, op.k, pc.off), CellAt(c, m, op.k, pc.off).(value := None), Return(Done));
    } else {
      WalkFits(c, m, t, op, pc);
      LocalStep(c, s, t, Run(op, Walk(c, m, op, pc).1));
    }
  }

  /** Every step of every thread keeps the invariant. */
  lemma StepKeepsInv(c: Config, s: State, l: Label)
    requires Inv(c, s) && HasFree(s.mem.cells) && Enabled(s, l)
    ensures Inv(c, Do(c, s, l))
  {
    match l
    case Call(t, op) => LocalStep(c, s, t, Run(op, FirstPc(op)));
    case Go(t) =>
      if InInsert(s.threads[t].pc) {
        InsertStep(c, s, t);
      } else if InPublish(s.threads[t].pc) {
        PublishStep(c, s, t);
      } else if s.threads[t].pc.Return? {
        LocalStep(c, s, t, Idle);
      } else {
        WalkStep(c, s, t);
      }
  }

  /** In every interleaving: no unclaimed cell between a home cell and a cell of its bucket, every non-zero
      leap at most the threshold and pointing to the bucket's next cell, and no key in two cells. */
  lemma {:induction false} RunKeepsInv(c: Config, states: seq<State>, labels: seq<Label>, j: nat)
    requires IsRun(c, states, labels) && j < |states|
    ensures Inv(c, states[j])
  {
    if j == 0 {
      InitHolds(c, states[0]);
    } else {
      RunKeepsInv(c, states, labels, j - 1);
      assert RunsAt(c, states, labels, j - 1);
      StepKeepsInv(c, states[j - 1], labels[j - 1]);
    }
  }
}
