/** The inductive invariant of the Leapfrog protocol, kept by every atomic step of every thread. */
module LeapfrogInvariant {
  import opened Options
  import opened LeapfrogTable
  import opened LeapfrogProtocol

  /** Offsets below `o` are all claimed, and none of the bucket's cells there is for key `k`. */
  ghost predicate Cleared(m: Memory, b: nat, k: Key, o: nat)
    requires 0 < |m.cells|
  {
    forall w: nat :: w < o ==> Claimed(m.cells, b, w) && (InBucket(m.cells, b, w) ==> NotFor(m, b, w, k))
  }

  ghost predicate NotFor(m: Memory, b: nat, w: nat, k: Key)
    requires 0 < |m.cells|
  {
    At(|m.cells|, b, w) in m.intent && m.intent[At(|m.cells|, b, w)] != k
  }

  /** Every chain node before offset `p` already has its link. */
  ghost predicate Linked(cells: seq<Cell>, b: nat, p: nat)
    requires 0 < |cells|
  {
    forall w: nat :: w < p && IsNode(cells, b, w) ==> Leap(cells, b, w) != 0
  }

  /** The stretch a linear probe from node `prev` has to have crossed to stand at `off`. */
  ghost predicate Crossed(c: Config, m: Memory, b: nat, prev: nat, off: nat)
    requires 0 < |m.cells|
  {
    && prev < off < |m.cells|
    && IsNode(m.cells, b, prev)
    && Foreign(m.cells, b, prev, off)
    && off - prev <= c.threshold
  }

  /** Thread `t` has claimed the cell for `k` and not published its key. */
  ghost predicate Owns(c: Config, m: Memory, t: Tid, k: Key, off: nat)
    requires 0 < |m.cells|
  {
    var i := CellIndex(c, m, k, off);
    && off < |m.cells|
    && i in m.claimant && m.claimant[i] == t
    && i in m.intent && m.intent[i] == k
    && m.cells[i].hash == c.Hash(k)
    && m.cells[i].key == None
  }

  /** What thread `t` may rely on at program point `pc` of operation `op`. */
  ghost predicate Fits(c: Config, m: Memory, t: Tid, op: Op, pc: Pc)
    requires 0 < |m.cells|
  {
    var k := op.k;
    var b := Home(c, m, k);
    var inserting := op.Assoc? || op.PutIfAbsent?;
    match pc
    case LoadHome => inserting
    case CasHome => inserting
    case AwaitKey(off, via) =>
      && inserting && off < |m.cells| && Cleared(m, b, k, off)
      && CellAt(c, m, k, off).hash == c.Hash(k)
      && (via.FromHome? ==> off == 0)
      && (via.FromLeap? ==> Linked(m.cells, b, off))
      && (via.FromProbe? ==> Linked(m.cells, b, via.prev) && Crossed(c, m, b, via.prev, off))
    case ReadLeap(off) =>
      && inserting && off < |m.cells| && IsNode(m.cells, b, off)
      && Cleared(m, b, k, off + 1) && Linked(m.cells, b, off)
    case LoadLinked(off) =>
      && inserting && off < |m.cells| && InBucket(m.cells, b, off)
      && Cleared(m, b, k, off) && Linked(m.cells, b, off)
    case Probe(prev, off, left) =>
      && inserting && prev <= off < |m.cells| && IsNode(m.cells, b, prev) && Linked(m.cells, b, prev)
      && Cleared(m, b, k, off + 1) && Foreign(m.cells, b, prev, off + 1) && off - prev + left == c.threshold
    case CasProbe(prev, off, left) =>
      && inserting && Crossed(c, m, b, prev, off) && Linked(m.cells, b, prev)
      && Cleared(m, b, k, off) && off - prev + left == c.threshold
    case HelpLink(prev, off) =>
      && inserting && Crossed(c, m, b, prev, off) && Linked(m.cells, b, prev)
      && InBucket(m.cells, b, off) && Cleared(m, b, k, off + 1)
    case StoreLink(prev, off) =>
      && inserting && Crossed(c, m, b, prev, off) && Owns(c, m, t, k, off)
    case PutValue(off) => inserting && Owns(c, m, t, k, off)
    case PutKey(off) => inserting && Owns(c, m, t, k, off) && CellAt(c, m, k, off).value == NewValue(op)
    case Found(off) => inserting && off < |m.cells| && CellAt(c, m, k, off).key == Some(k)
    case WalkHash(off) => !inserting && off < |m.cells| && IsNode(m.cells, b, off)
    case WalkKey(off) => !inserting && off < |m.cells| && CellAt(c, m, k, off).hash == c.Hash(k)
    case WalkHit(off) =>
      && !inserting && off < |m.cells|
      && CellAt(c, m, k, off).hash == c.Hash(k) && CellAt(c, m, k, off).key == Some(k)
    case WalkLeap(off) => !inserting && off < |m.cells| && IsNode(m.cells, b, off)
    case Return(r) => true
  }

  ghost predicate ThreadFits(c: Config, m: Memory, t: Tid, th: Thread)
    requires 0 < |m.cells|
  {
    th.Run? ==> Fits(c, m, t, th.op, th.pc)
  }

  /** A claimed cell belongs to one key and a key to at most one cell; a published key is that key. */
  ghost predicate Claims(c: Config, m: Memory) {
    && (forall i :: i in m.intent ==> i < |m.cells| && i in m.claimant && m.cells[i].hash == c.Hash(m.intent[i]))
    && (forall i :: i in m.intent ==> m.intent[i] in m.cellOf && m.cellOf[m.intent[i]] == i)
    && (forall i :: i in m.claimant ==> i in m.intent)
    && (forall k :: k in m.cellOf ==> m.cellOf[k] in m.intent && m.intent[m.cellOf[k]] == k)
    && (forall i: nat :: i < |m.cells| && m.cells[i].hash != 0 ==> i in m.intent)
    && (forall i: nat :: i < |m.cells| && m.cells[i].key != None ==>
          i in m.intent && m.cells[i].key == Some(m.intent[i]))
  }

  /** The claimant of cell `i` is about to store the link that leads to it. */
  ghost predicate Storing(c: Config, m: Memory, threads: map<Tid, Thread>, i: nat, b: nat, w: nat, o: nat)
    requires 0 < |m.cells|
  {
    && i in m.claimant && m.claimant[i] in threads
    && var th := threads[m.claimant[i]];
    && th.Run? && th.pc == StoreLink(w, o) && Home(c, m, th.op.k) == b
  }

  /** A cell beyond a node without a link is one whose claimant is about to store that link. */
  ghost predicate Pending(c: Config, m: Memory, threads: map<Tid, Thread>)
    requires 0 < |m.cells|
  {
    forall b: nat, w: nat, o: nat ::
      b < |m.cells| && w < o < |m.cells| && IsNode(m.cells, b, w) && Leap(m.cells, b, w) == 0
          && InBucket(m.cells, b, o) ==>
        Storing(c, m, threads, At(|m.cells|, b, o), b, w, o)
  }

  ghost predicate AllFit(c: Config, s: State)
    requires 0 < |s.mem.cells|
  {
    forall t :: t in s.threads ==> ThreadFits(c, s.mem, t, s.threads[t])
  }

  ghost predicate Inv(c: Config, s: State) {
    && TableInv(s.mem.cells, c.threshold)
    && Claims(c, s.mem)
    && Pending(c, s.mem, s.threads)
    && AllFit(c, s)
  }

  lemma OneThread(c: Config, s: State, t: Tid)
    requires Inv(c, s) && t in s.threads && s.threads[t].Run?
    ensures 0 < |s.mem.cells| && TableInv(s.mem.cells, c.threshold) && Claims(c, s.mem) && Pending(c, s.mem, s.threads)
    ensures Fits(c, s.mem, t, s.threads[t].op, s.threads[t].pc)
  {
    assert ThreadFits(c, s.mem, t, s.threads[t]);
  }

  lemma InitHolds(c: Config, s: State)
    requires c.Valid() && Init(s)
    ensures Inv(c, s)
  {
    assert forall b: nat, o: nat :: !Claimed(s.mem.cells, b, o);
  }

  // ---------------------------------------------------------------- interference

  /** How a step of another thread may change what thread `u` looks at. */
  ghost predicate Rely(m: Memory, m': Memory, u: Tid) {
    && Grows(m.cells, m'.cells)
    && (forall i :: i in m.intent ==> i in m'.intent && m'.intent[i] == m.intent[i])
    && (forall i :: i in m.claimant ==> i in m'.claimant && m'.claimant[i] == m.claimant[i])
    && (forall i: nat :: i < |m.cells| && i in m.claimant && m.claimant[i] == u && m.cells[i].key == None ==>
          m'.cells[i].key == None && m'.cells[i].value == m.cells[i].value)
  }

  lemma ClearedIsStable(m: Memory, m': Memory, u: Tid, b: nat, k: Key, o: nat)
    requires 0 < |m.cells| && Rely(m, m', u) && Cleared(m, b, k, o)
    ensures Cleared(m', b, k, o)
  {
    forall w: nat | w < o
      ensures Claimed(m'.cells, b, w) && (InBucket(m'.cells, b, w) ==> NotFor(m', b, w, k))
    {
      assert Claimed(m.cells, b, w);
      assert InBucket(m'.cells, b, w) == InBucket(m.cells, b, w);
    }
  }

  lemma LinkedIsStable(m: Memory, m': Memory, u: Tid, b: nat, k: Key, p: nat, o: nat)
    requires 0 < |m.cells| && Rely(m, m', u) && Cleared(m, b, k, o) && p <= o && Linked(m.cells, b, p)
    ensures Linked(m'.cells, b, p)
  {
    forall w: nat | w < p && IsNode(m'.cells, b, w)
      ensures Leap(m'.cells, b, w) != 0
    {
      assert Claimed(m.cells, b, w);
      assert IsNode(m.cells, b, w);
    }
  }

  lemma CrossedIsStable(c: Config, m: Memory, m': Memory, u: Tid, b: nat, prev: nat, off: nat)
    requires 0 < |m.cells| && Rely(m, m', u) && Crossed(c, m, b, prev, off)
    ensures Crossed(c, m', b, prev, off)
  {
    ForeignIsStable(m.cells, m'.cells, b, prev, off);
  }

  lemma ChainFitsIsStable(c: Config, m: Memory, m': Memory, u: Tid, op: Op, pc: Pc)
    requires 0 < |m.cells| && Rely(m, m', u) && Fits(c, m, u, op, pc)
    requires pc.AwaitKey? || pc.ReadLeap? || pc.LoadLinked?
    ensures Fits(c, m', u, op, pc)
  {
    var k := op.k;
    var b := Home(c, m, k);
    match pc
    case AwaitKey(off, via) =>
      ClearedIsStable(m, m', u, b, k, off);
      if via.FromLeap? { LinkedIsStable(m, m', u, b, k, off, off); }
      if via.FromProbe? {
        LinkedIsStable(m, m', u, b, k, via.prev, off);
        CrossedIsStable(c, m, m', u, b, via.prev, off);
      }
    case ReadLeap(off) =>
      ClearedIsStable(m, m', u, b, k, off + 1);
      LinkedIsStable(m, m', u, b, k, off, off + 1);
    case LoadLinked(off) =>
      ClearedIsStable(m, m', u, b, k, off);
      LinkedIsStable(m, m', u, b, k, off, off);
  }

  lemma ProbeFitsIsStable(c: Config, m: Memory, m': Memory, u: Tid, op: Op, pc: Pc)
    requires 0 < |m.cells| && Rely(m, m', u) && Fits(c, m, u, op, pc)
    requires pc.Probe? || pc.CasProbe? || pc.HelpLink?
    ensures Fits(c, m', u, op, pc)
  {
    var k := op.k;
    var b := Home(c, m, k);
    match pc
    case Probe(prev, off, left) =>
      ClearedIsStable(m, m', u, b, k, off + 1);
      LinkedIsStable(m, m', u, b, k, prev, off + 1);
      ForeignIsStable(m.cells, m'.cells, b, prev, off + 1);
    case CasProbe(prev, off, left) =>
      ClearedIsStable(m, m', u, b, k, off);
      LinkedIsStable(m, m', u, b, k, prev, off);
      CrossedIsStable(c, m, m', u, b, prev, off);
    case HelpLink(prev, off) =>
      ClearedIsStable(m, m', u, b, k, off + 1);
      LinkedIsStable(m, m', u, b, k, prev, off + 1);
      CrossedIsStable(c, m, m', u, b, prev, off);
  }

  /** Steps of other threads never invalidate what a thread relies on. */
  lemma FitsIsStable(c: Config, m: Memory, m': Memory, u: Tid, op: Op, pc: Pc)
    requires 0 < |m.cells| && Rely(m, m', u) && Fits(c, m, u, op, pc)
    ensures Fits(c, m', u, op, pc)
  {
    if pc.AwaitKey? || pc.ReadLeap? || pc.LoadLinked? {
      ChainFitsIsStable(c, m, m', u, op, pc);
    } else if pc.Probe? || pc.CasProbe? || pc.HelpLink? {
      ProbeFitsIsStable(c, m, m', u, op, pc);
    } else if pc.StoreLink? {
      CrossedIsStable(c, m, m', u, Home(c, m, op.k), pc.prev, pc.off);
    }
  }

  /** A step of `t` that turns the memory into `m'` and leaves `t` at a fitting point. */
  lemma Assemble(c: Config, s: State, m': Memory, t: Tid, th: Thread)
    requires Inv(c, s) && t in s.threads
    requires TableInv(m'.cells, c.threshold) && Claims(c, m') && Pending(c, m', s.threads[t := th])
    requires forall u :: u in s.threads && u != t ==> Rely(s.mem, m', u)
    requires ThreadFits(c, m', t, th)
    ensures Inv(c, State(m', s.threads[t := th]))
  {
    var s' := State(m', s.threads[t := th]);
    forall u | u in s'.threads
      ensures ThreadFits(c, m', u, s'.threads[u])
    {
      if u != t && s.threads[u].Run? {
        assert ThreadFits(c, s.mem, u, s.threads[u]);
        FitsIsStable(c, s.mem, m', u, s.threads[u].op, s.threads[u].pc);
      }
    }
  }

  /** A step that writes nothing. */
  lemma LocalStep(c: Config, s: State, t: Tid, th: Thread)
    requires Inv(c, s) && t in s.threads
    requires s.threads[t].Run? ==> !s.threads[t].pc.StoreLink?
    requires ThreadFits(c, s.mem, t, th)
    ensures Inv(c, State(s.mem, s.threads[t := th]))
  {
    PendingIsStable(c, s, s.mem, t, th);
    Assemble(c, s, s.mem, t, th);
  }

  /** A step that neither claims, links, nor was about to link. */
  lemma PendingIsStable(c: Config, s: State, m': Memory, t: Tid, th: Thread)
    requires 0 < |s.mem.cells| && Pending(c, s.mem, s.threads) && t in s.threads
    requires s.threads[t].Run? ==> !s.threads[t].pc.StoreLink?
    requires m'.claimant == s.mem.claimant && SameLayout(s.mem.cells, m'.cells)
    ensures Pending(c, m', s.threads[t := th])
  {
    forall b: nat, w: nat, o: nat |
      b < |m'.cells| && w < o < |m'.cells| && IsNode(m'.cells, b, w) && Leap(m'.cells, b, w) == 0
          && InBucket(m'.cells, b, o)
      ensures Storing(c, m', s.threads[t := th], At(|m'.cells|, b, o), b, w, o)
    {
      assert IsNode(s.mem.cells, b, w) && Leap(s.mem.cells, b, w) == 0 && InBucket(s.mem.cells, b, o);
      assert Storing(c, s.mem, s.threads, At(|s.mem.cells|, b, o), b, w, o);
    }
  }

  /** Only keys and values differ. */
  ghost predicate SameLayout(cells: seq<Cell>, after: seq<Cell>) {
    && |after| == |cells|
    && forall i :: 0 <= i < |cells| ==>
         after[i].hash == cells[i].hash && after[i].shortLeap == cells[i].shortLeap
             && after[i].longLeap == cells[i].longLeap
  }
}
