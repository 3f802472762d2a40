/** A Leapfrog table without an unclaimed cell. An insertion still ends, unless its linear probe comes round to the
    bucket it started from: then it links the bucket's chain into a circle and follows it for ever. */
module LeapfrogFull {
  import opened Options
  import opened LeapfrogTable
  import opened LeapfrogProtocol
  import opened LeapfrogInvariant

  /** Nobody is between the claim of a cell and the store of its key. */
  ghost predicate Published(m: Memory) {
    forall i :: 0 <= i < |m.cells| && m.cells[i].hash != 0 ==> m.cells[i].key != None
  }

  /** Some cell of bucket `b` is within a probe's reach of another one, or of itself, past the end of the table. */
  ghost predicate ComesRound(cells: seq<Cell>, threshold: nat, b: nat)
    requires 0 < |cells|
  {
    exists o: nat, f: nat ::
      o < |cells| && f < |cells| && InBucket(cells, b, o) && InBucket(cells, b, f) && |cells| + f <= o + threshold
  }

  ghost predicate Stored(cells: seq<Cell>, k: Key) {
    exists i :: 0 <= i < |cells| && cells[i].key == Some(k)
  }

  /** An insertion of `k` ends. */
  ghost predicate Room(c: Config, cells: seq<Cell>, k: Key)
    requires 0 < |cells|
  {
    HasFree(cells) || Stored(cells, k) || !ComesRound(cells, c.threshold, Wrap(c.Hash(k), |cells|))
  }

  /** No cell of bucket `b` lies beyond offset `p`. */
  ghost predicate Ends(cells: seq<Cell>, b: nat, p: nat)
    requires 0 < |cells|
  {
    forall o: nat :: p < o < |cells| ==> !InBucket(cells, b, o)
  }

  /** Behind the last node of bucket `b` every cell within a probe's reach is claimed. */
  ghost predicate Crowded(cells: seq<Cell>, threshold: nat, b: nat)
    requires 0 < |cells|
  {
    exists p: nat ::
      && p < |cells| && IsNode(cells, b, p) && Ends(cells, b, p)
      && forall o: nat :: p < o <= p + threshold ==> Claimed(cells, b, o)
  }

  /** An insertion of `k` is refused: the key is not there, its home cell is taken, and so is all the probe reaches. */
  ghost predicate Refuses(c: Config, cells: seq<Cell>, k: Key)
    requires 0 < |cells|
  {
    var b := Wrap(c.Hash(k), |cells|);
    !Stored(cells, k) && Claimed(cells, b, 0) && Crowded(cells, c.threshold, b)
  }

  /** There is only one last node. */
  lemma LastIsUnique(cells: seq<Cell>, b: nat, p: nat, q: nat)
    requires 0 < |cells| && p < |cells| && q < |cells|
    requires IsNode(cells, b, p) && Ends(cells, b, p) && IsNode(cells, b, q) && Ends(cells, b, q)
    ensures p == q
  {
    hide Wrap;
  }

  /** So a bucket is crowded exactly when the cells behind this last node are claimed. */
  lemma CrowdedBehind(cells: seq<Cell>, threshold: nat, b: nat, p: nat)
    requires 0 < |cells| && p < |cells| && IsNode(cells, b, p) && Ends(cells, b, p)
    ensures Crowded(cells, threshold, b) <==> forall o: nat :: p < o <= p + threshold ==> Claimed(cells, b, o)
  {
    hide Ends, IsNode, Claimed;
    if Crowded(cells, threshold, b) {
      var q: nat :| && q < |cells| && IsNode(cells, b, q) && Ends(cells, b, q)
                    && forall o: nat :: q < o <= q + threshold ==> Claimed(cells, b, o);
      LastIsUnique(cells, b, p, q);
    }
  }

  /** With nobody about to store a link, a node without one is the last of its bucket. */
  lemma NoLinkNoMore(c: Config, m: Memory, threads: map<Tid, Thread>, b: nat, p: nat)
    requires 0 < |m.cells| && Pending(c, m, threads) && b < |m.cells|
    requires forall t :: t in threads && threads[t].Run? ==> !threads[t].pc.StoreLink?
    requires IsNode(m.cells, b, p) && Leap(m.cells, b, p) == 0
    ensures Ends(m.cells, b, p)
  {
    forall o: nat | p < o < |m.cells|
      ensures !InBucket(m.cells, b, o)
    {
      assert forall i: nat :: !Storing(c, m, threads, i, b, p, o);
    }
  }

  // ---------------------------------------------------------------- offsets past the end of the table

  lemma {:induction false} WrapOnce(x: nat, d: nat, n: nat)
    requires 0 < n
    ensures Wrap(x + d, n) == Wrap(Wrap(x, n) + d, n)
  {
    if n <= x { WrapOnce(x - n, d, n); }
  }

  /** Equal cells have equal successors. */
  lemma AtShift(n: nat, b: nat, o: nat, o': nat, d: nat)
    requires 0 < n && At(n, b, o) == At(n, b, o')
    ensures At(n, b, o + d) == At(n, b, o' + d)
  {
    WrapOnce(b + o, d, n);
    WrapOnce(b + o', d, n);
    assert b + o + d == b + (o + d) && b + o' + d == b + (o' + d);
  }

  /** Every offset means the cell of an offset inside the table, a whole number of rounds before. */
  lemma {:induction false} RoundBack(n: nat, b: nat, o: nat)
    requires b < n
    ensures var f := Off(n, b, At(n, b, o)); At(n, b, f) == At(n, b, o) && if o < n then f == o else n + f <= o
  {
    if n <= o { RoundBack(n, b, o - n); }
  }

  /** In a full table whose probe does not come round, the probe from the end of a chain meets other buckets only. */
  lemma FullProbe(cells: seq<Cell>, threshold: nat, b: nat, p: nat, o: nat)
    requires b < |cells| && !HasFree(cells) && !ComesRound(cells, threshold, b)
    requires p < |cells| && IsNode(cells, b, p) && Ends(cells, b, p) && p < o <= p + threshold
    ensures Claimed(cells, b, o) && !InBucket(cells, b, o)
  {
    var n := |cells|;
    RoundBack(n, b, o);
    var f := Off(n, b, At(n, b, o));
    if InBucket(cells, b, o) {
      assert InBucket(cells, b, f);
    }
  }

  /** With room, the claimed cells within reach of the end of a chain belong to other buckets. */
  lemma ClaimedIsForeign(cells: seq<Cell>, threshold: nat, b: nat, p: nat)
    requires b < |cells| && (HasFree(cells) || !ComesRound(cells, threshold, b))
    requires p < |cells| && IsNode(cells, b, p) && Ends(cells, b, p)
    requires forall w: nat :: w <= p ==> Claimed(cells, b, w)
    requires forall o: nat :: p < o <= p + threshold ==> Claimed(cells, b, o)
    ensures Foreign(cells, b, p, p + threshold + 1)
  {
    if HasFree(cells) {
      FreeBoundsRun(cells, b, p + threshold);
    } else {
      forall o: nat | p < o < p + threshold + 1 ensures Claimed(cells, b, o) && !InBucket(cells, b, o) {
        FullProbe(cells, threshold, b, p, o);
      }
    }
  }

  lemma EndIsCrowded(c: Config, cells: seq<Cell>, k: Key, p: nat)
    requires 0 < |cells| && p < |cells| && Room(c, cells, k) && !Stored(cells, k)
    requires var b := Wrap(c.Hash(k), |cells|);
             IsNode(cells, b, p) && Ends(cells, b, p) && forall w: nat :: w <= p ==> Claimed(cells, b, w)
    ensures var b := Wrap(c.Hash(k), |cells|);
            Crowded(cells, c.threshold, b) <==> Foreign(cells, b, p, p + c.threshold + 1)
  {
    hide Ends, IsNode, InBucket, Crowded, ComesRound, Stored, HasFree;
    var b := Wrap(c.Hash(k), |cells|);
    CrowdedBehind(cells, c.threshold, b, p);
    if Crowded(cells, c.threshold, b) { ClaimedIsForeign(cells, c.threshold, b, p); }
  }

  lemma BeyondEnd(cells: seq<Cell>, b: nat, p: nat, o: nat)
    requires 0 < |cells| && Ends(cells, b, p) && p < o < |cells|
    ensures !InBucket(cells, b, o)
  {
  }

  // ---------------------------------------------------------------- a call that never returns

  /** A bucket cell is within reach of offset `o`, but not within `near`. */
  ghost predicate Reaches(cells: seq<Cell>, threshold: nat, b: nat, o: nat, near: nat)
    requires 0 < |cells|
  {
    exists x: nat :: o + near < x <= o + threshold && InBucket(cells, b, x)
  }

  /** From the node at `o` a probe reaches a cell of the bucket, and a link leads to one. */
  ghost predicate GoesOn(cells: seq<Cell>, threshold: nat, b: nat, o: nat)
    requires 0 < |cells|
  {
    && Reaches(cells, threshold, b, o, 0)
    && (Leap(cells, b, o) != 0 ==> InBucket(cells, b, o + Leap(cells, b, o)))
  }

  /** So it goes from every node, round and round. */
  ghost predicate Circular(cells: seq<Cell>, threshold: nat, b: nat)
    requires 0 < |cells|
  {
    !HasFree(cells) && forall o: nat :: IsNode(cells, b, o) ==> GoesOn(cells, threshold, b, o)
  }

  /** Cells with the hash of `k` hold other keys. */
  ghost predicate OtherKeys(c: Config, cells: seq<Cell>, k: Key) {
    forall i :: 0 <= i < |cells| && cells[i].hash == c.Hash(k) ==> cells[i].key != None && cells[i].key != Some(k)
  }

  /** Where an insertion that goes round can be. */
  ghost predicate Circling(c: Config, m: Memory, k: Key, pc: Pc)
    requires 0 < |m.cells|
  {
    var b := Home(c, m, k);
    match pc
    case LoadHome => true
    case AwaitKey(off, via) =>
      && CellAt(c, m, k, off).hash == c.Hash(k)
      && (via.FromProbe? ==> via.prev < off && IsNode(m.cells, b, via.prev))
    case ReadLeap(off) => IsNode(m.cells, b, off)
    case LoadLinked(off) => InBucket(m.cells, b, off)
    case Probe(prev, off, left) =>
      && IsNode(m.cells, b, prev) && prev <= off && off - prev + left == c.threshold
      && Reaches(m.cells, c.threshold, b, prev, off - prev)
    case HelpLink(prev, off) => prev < off && IsNode(m.cells, b, prev) && InBucket(m.cells, b, off)
    case _ => false
  }

  lemma ReachFromLast(cells: seq<Cell>, threshold: nat, b: nat, p: nat)
    requires b < |cells| && ComesRound(cells, threshold, b)
    requires p < |cells| && Ends(cells, b, p)
    ensures Reaches(cells, threshold, b, p, 0)
  {
    var n := |cells|;
    var o: nat, f: nat :|
      o < n && f < n && InBucket(cells, b, o) && InBucket(cells, b, f) && n + f <= o + threshold;
    assert o <= p;
    assert At(n, b, n + f) == At(n, b, f);
    assert InBucket(cells, b, n + f);
  }

  /** What holds of the cells inside the table holds round and round. */
  lemma CircularFrom(c: Config, m: Memory, b: nat)
    requires TableInv(m.cells, c.threshold) && Pending(c, m, map[]) && b < |m.cells|
    requires !HasFree(m.cells) && ComesRound(m.cells, c.threshold, b)
    ensures Circular(m.cells, c.threshold, b)
  {
    hide Wrap, IsNode, GoesOn, ComesRound, Pending, TableInv;
    forall o: nat | IsNode(m.cells, b, o)
      ensures GoesOn(m.cells, c.threshold, b, o)
    {
      RoundBack(|m.cells|, b, o);
      NodeGoesOn(c, m, b, Off(|m.cells|, b, At(|m.cells|, b, o)), o);
    }
  }

  lemma FirstRoundGoesOn(c: Config, m: Memory, b: nat, f: nat)
    requires TableInv(m.cells, c.threshold) && Pending(c, m, map[]) && b < |m.cells|
    requires ComesRound(m.cells, c.threshold, b) && f < |m.cells| && IsNode(m.cells, b, f)
    ensures GoesOn(m.cells, c.threshold, b, f)
  {
    hide Wrap, ComesRound, Pending;
    var l := Leap(m.cells, b, f);
    if l == 0 {
      NoLinkNoMore(c, m, map[], b, f);
      ReachFromLast(m.cells, c.threshold, b, f);
    } else {
      assert LeapOk(m.cells, c.threshold, b, f, l);
    }
  }

  lemma NodeGoesOn(c: Config, m: Memory, b: nat, f: nat, o: nat)
    requires TableInv(m.cells, c.threshold) && Pending(c, m, map[]) && b < |m.cells|
    requires ComesRound(m.cells, c.threshold, b)
    requires f < |m.cells| && At(|m.cells|, b, f) == At(|m.cells|, b, o) && (o < |m.cells| ==> f == o)
    requires IsNode(m.cells, b, o)
    ensures GoesOn(m.cells, c.threshold, b, o)
  {
    hide Wrap, ComesRound, Pending;
    var cells, n := m.cells, |m.cells|;
    var l := Leap(cells, b, f);
    FirstRoundGoesOn(c, m, b, f);
    var x: nat :| f < x <= f + c.threshold && InBucket(cells, b, x);
    AtShift(n, b, f, o, x - f);
    AtShift(n, b, f, o, l);
    assert InBucket(cells, b, o + (x - f));
  }

  /** Storing a link to a cell of the bucket keeps the circle. */
  lemma LinkKeepsCircle(cells: seq<Cell>, threshold: nat, b: nat, prev: nat, off: nat)
    requires b < |cells| && Circular(cells, threshold, b)
    requires prev < off && IsNode(cells, b, prev) && InBucket(cells, b, off)
    ensures Circular(WithLeap(cells, b, prev, off - prev), threshold, b)
  {
    hide Wrap, GoesOn;
    var after := WithLeap(cells, b, prev, off - prev);
    forall o: nat | IsNode(after, b, o)
      ensures GoesOn(after, threshold, b, o)
    {
      assert IsNode(cells, b, o);
      LinkGoesOn(cells, threshold, b, prev, off, o);
    }
  }

  lemma LinkGoesOn(cells: seq<Cell>, threshold: nat, b: nat, prev: nat, off: nat, o: nat)
    requires b < |cells| && prev < off && InBucket(cells, b, off) && GoesOn(cells, threshold, b, o)
    ensures GoesOn(WithLeap(cells, b, prev, off - prev), threshold, b, o)
  {
    hide Wrap, InBucket;
    var n, after := |cells|, WithLeap(cells, b, prev, off - prev);
    SameBuckets(cells, after, b);
    var x: nat :| o < x <= o + threshold && InBucket(cells, b, x);
    assert InBucket(after, b, x);
    if At(n, b, o) == At(n, b, prev) {
      AtShift(n, b, prev, o, off - prev);
      SameCell(cells, b, off, o + (off - prev));
    }
  }

  lemma SameBuckets(cells: seq<Cell>, after: seq<Cell>, b: nat)
    requires 0 < |cells| && SameHashes(cells, after)
    ensures forall o: nat :: InBucket(after, b, o) == InBucket(cells, b, o)
  {
  }

  lemma SameCell(cells: seq<Cell>, b: nat, o: nat, o': nat)
    requires 0 < |cells| && At(|cells|, b, o) == At(|cells|, b, o')
    ensures InBucket(cells, b, o) == InBucket(cells, b, o')
  {
  }

  lemma CirclingMove(c: Config, m: Memory, k: Key, pc: Pc)
    requires 0 < |m.cells| && InInsert(pc) && !pc.HelpLink? && Circling(c, m, k, pc)
    requires Circular(m.cells, c.threshold, Home(c, m, k)) && OtherKeys(c, m.cells, k)
    ensures var (m', pc') := Insert(c, m, 0, k, pc); m' == m && InInsert(pc') && Circling(c, m, k, pc')
  {
    hide Wrap, GoesOn;
    var b := Home(c, m, k);
    match pc
    case ReadLeap(off) => assert GoesOn(m.cells, c.threshold, b, off); LeadsOn(m.cells, c.threshold, b, off);
    case Probe(prev, off, left) => CirclingProbe(c, m, k, prev, off, left);
    case _ =>
  }

  lemma CirclingProbe(c: Config, m: Memory, k: Key, prev: nat, off: nat, left: nat)
    requires 0 < |m.cells| && !HasFree(m.cells) && Circling(c, m, k, Probe(prev, off, left))
    ensures var (m', pc') := Insert(c, m, 0, k, Probe(prev, off, left));
            m' == m && InInsert(pc') && Circling(c, m, k, pc')
  {
    hide Wrap;
    var b := Home(c, m, k);
    var x: nat :| off < x <= prev + c.threshold && InBucket(m.cells, b, x);
    assert Claimed(m.cells, b, off + 1);
  }

  lemma LeadsOn(cells: seq<Cell>, threshold: nat, b: nat, o: nat)
    requires 0 < |cells| && GoesOn(cells, threshold, b, o)
    ensures Reaches(cells, threshold, b, o, 0)
    ensures Leap(cells, b, o) != 0 ==> InBucket(cells, b, o + Leap(cells, b, o))
  {
  }

  lemma CirclingStep(c: Config, m: Memory, op: Op, pc: Pc)
    requires 0 < |m.cells| && InInsert(pc) && Circling(c, m, op.k, pc)
    requires Circular(m.cells, c.threshold, Home(c, m, op.k)) && OtherKeys(c, m.cells, op.k)
    ensures var (m', pc') := Act(c, m, 0, op, pc);
            && |m'.cells| == |m.cells| && InInsert(pc') && Circling(c, m', op.k, pc')
            && Circular(m'.cells, c.threshold, Home(c, m, op.k)) && OtherKeys(c, m'.cells, op.k)
  {
    hide Wrap, Circular;
    if pc.HelpLink? {
      LinkKeepsCircle(m.cells, c.threshold, Home(c, m, op.k), pc.prev, pc.off);
    } else {
      CirclingMove(c, m, op.k, pc);
    }
  }

  /** The first `steps` accesses of a thread that is alone. */
  ghost function Solo(c: Config, m: Memory, op: Op, pc: Pc, steps: nat): (Memory, Pc)
    decreases steps
  {
    if steps == 0 || pc.Return? || |m.cells| == 0 then (m, pc)
    else
      var (m', pc') := Act(c, m, 0, op, pc);
      Solo(c, m', op, pc', steps - 1)
  }

  lemma {:induction false} CirclesOn(c: Config, m: Memory, op: Op, pc: Pc, steps: nat)
    requires 0 < |m.cells| && InInsert(pc) && Circling(c, m, op.k, pc)
    requires Circular(m.cells, c.threshold, Home(c, m, op.k)) && OtherKeys(c, m.cells, op.k)
    ensures InInsert(Solo(c, m, op, pc, steps).1)
    decreases steps
  {
    hide Circling, Circular, OtherKeys, Act;
    if steps != 0 {
      var (m', pc') := Act(c, m, 0, op, pc);
      CirclingStep(c, m, op, pc);
      CirclesOn(c, m', op, pc', steps - 1);
    }
  }

  /** Without room an insertion never returns. */
  lemma NeverReturns(c: Config, m: Memory, op: Op, steps: nat)
    requires Inv(c, State(m, map[])) && Published(m) && (op.Assoc? || op.PutIfAbsent?)
    requires !Room(c, m.cells, op.k)
    ensures InInsert(Solo(c, m, op, FirstPc(op), steps).1)
  {
    CircularFrom(c, m, Home(c, m, op.k));
    CirclesOn(c, m, op, LoadHome, steps);
  }
}
