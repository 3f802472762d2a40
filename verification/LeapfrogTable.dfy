/** The cell array of the Leapfrog concurrent hash map: how a bucket's cells are laid out,
    and the structural invariant that every atomic step of every thread keeps. */
module LeapfrogTable {
  import opened Options

  /** A key stands for its equivalence class under the runtime's `equals`. */
  type Key = int

  /** `Nil` is the language value; "no value" (the C marker RT_boxNull) is `None` below. */
  datatype Value = Nil | Word(bits: int)

  /** hash == 0 means the cell is unclaimed. */
  datatype Cell = Cell(hash: nat, key: Option<Key>, value: Option<Value>, shortLeap: nat, longLeap: nat)

  const EMPTY_CELL := Cell(0, None, None, 0, 0)

  /** `rawHash` must agree on equal keys, which is why it is a function of the class. */
  datatype Config = Config(threshold: nat, rawHash: Key -> nat) {
    /** ConcurrentHashMap_create caps the probe limit at 128, so a leap fits in one byte. */
    predicate Valid() {
      0 < threshold <= 128
    }

    /** A zero hash is replaced by one, since zero marks an unclaimed cell. */
    function Hash(k: Key): (h: nat)
      ensures h != 0
    {
      if rawHash(k) == 0 then 1 else rawHash(k)
    }
  }

  /** The index mask, written as repeated subtraction. */
  function Wrap(i: nat, n: nat): (r: nat)
    requires 0 < n
    ensures r < n
    ensures i < n ==> r == i
    ensures n <= i < 2 * n ==> r == i - n
  {
    if i < n then i else Wrap(i - n, n)
  }

  /** The cell index at offset `o` from home index `b`. */
  function At(n: nat, b: nat, o: nat): (i: nat)
    requires 0 < n
    ensures i < n
    ensures b < n && o < n ==> i == if b + o < n then b + o else b + o - n
  {
    Wrap(b + o, n)
  }

  /** The offset of cell `i` from home index `b`: the inverse of `At`. */
  function Off(n: nat, b: nat, i: nat): (o: nat)
    requires b < n && i < n
    ensures o < n && At(n, b, o) == i
  {
    if b <= i then i - b else i + n - b
  }

  predicate Claimed(cells: seq<Cell>, b: nat, o: nat)
    requires 0 < |cells|
  {
    cells[At(|cells|, b, o)].hash != 0
  }

  /** The cell at offset `o` holds an entry whose home is `b`. */
  predicate InBucket(cells: seq<Cell>, b: nat, o: nat)
    requires 0 < |cells|
  {
    && Claimed(cells, b, o)
    && Wrap(cells[At(|cells|, b, o)].hash, |cells|) == b
  }

  /** Chain nodes of bucket `b`: the home cell, whoever claimed it, and the bucket's cells. */
  predicate IsNode(cells: seq<Cell>, b: nat, o: nat)
    requires 0 < |cells|
  {
    o == 0 || InBucket(cells, b, o)
  }

  /** The link leaving a chain node: the home cell uses its long leap, all others their short one. */
  function Leap(cells: seq<Cell>, b: nat, o: nat): (d: nat)
    requires 0 < |cells|
  {
    if o == 0 then cells[At(|cells|, b, o)].longLeap else cells[At(|cells|, b, o)].shortLeap
  }

  /** No bucket cell lies strictly between offsets `lo` and `hi`, and all of them are claimed. */
  ghost predicate Foreign(cells: seq<Cell>, b: nat, lo: nat, hi: nat)
    requires 0 < |cells|
  {
    forall w: nat :: lo < w < hi ==> Claimed(cells, b, w) && !InBucket(cells, b, w)
  }

  /** `d` leads from the node at `o` to the next cell of the bucket. */
  ghost predicate LeapOk(cells: seq<Cell>, threshold: nat, b: nat, o: nat, d: nat)
    requires 0 < |cells|
  {
    && 0 < d <= threshold
    && o + d < |cells|
    && InBucket(cells, b, o + d)
    && Foreign(cells, b, o, o + d)
  }

  /** No unclaimed cell lies between a home cell and a cell of its bucket. */
  ghost predicate NoGap(cells: seq<Cell>)
    requires 0 < |cells|
  {
    forall b: nat, o: nat, w: nat :: b < |cells| && w <= o < |cells| && InBucket(cells, b, o) ==> Claimed(cells, b, w)
  }

  /** Every non-zero leap points to the next cell of its bucket. */
  ghost predicate LeapsOk(cells: seq<Cell>, threshold: nat)
    requires 0 < |cells|
  {
    forall b: nat, o: nat :: b < |cells| && o < |cells| && IsNode(cells, b, o) && Leap(cells, b, o) != 0 ==>
      LeapOk(cells, threshold, b, o, Leap(cells, b, o))
  }

  /** Unclaimed cells hold nothing; a cell that is its own home is left by its long leap alone. */
  ghost predicate UnusedAreBlank(cells: seq<Cell>) {
    && (forall i :: 0 <= i < |cells| && cells[i].hash == 0 ==> cells[i].key == None && cells[i].value == None)
    && (forall i :: 0 <= i < |cells| && (cells[i].hash == 0 || Wrap(cells[i].hash, |cells|) == i) ==>
          cells[i].shortLeap == 0)
  }

  ghost predicate TableInv(cells: seq<Cell>, threshold: nat) {
    && 0 < |cells|
    && NoGap(cells)
    && LeapsOk(cells, threshold)
    && UnusedAreBlank(cells)
  }

  ghost predicate HasFree(cells: seq<Cell>) {
    exists i :: 0 <= i < |cells| && cells[i].hash == 0
  }

  ghost predicate ClaimsKept(before: seq<Cell>, after: seq<Cell>) {
    && |after| == |before|
    && (forall i :: 0 <= i < |before| && before[i].hash != 0 ==> after[i].hash == before[i].hash)
  }

  /** What no step ever undoes: claims, non-zero leaps and published keys are permanent. */
  ghost predicate Grows(before: seq<Cell>, after: seq<Cell>) {
    && ClaimsKept(before, after)
    && (forall i :: 0 <= i < |before| && before[i].longLeap != 0 ==> after[i].longLeap == before[i].longLeap)
    && (forall i :: 0 <= i < |before| && before[i].shortLeap != 0 ==> after[i].shortLeap == before[i].shortLeap)
    && (forall i :: 0 <= i < |before| && before[i].key != None ==> after[i].key == before[i].key)
  }

  lemma GrowsIsTransitive(a: seq<Cell>, b: seq<Cell>, c: seq<Cell>)
    requires Grows(a, b) && Grows(b, c)
    ensures Grows(a, c)
  {
  }

  /** With a free cell around, a run of claimed cells from any home cannot wrap. */
  lemma FreeBoundsRun(cells: seq<Cell>, b: nat, o: nat)
    requires 0 < |cells| && b < |cells| && HasFree(cells)
    requires forall w: nat :: 0 <= w <= o ==> Claimed(cells, b, w)
    ensures o + 1 < |cells|
  {
    var i :| 0 <= i < |cells| && cells[i].hash == 0;
    var f := Off(|cells|, b, i);
    assert !Claimed(cells, b, f);
  }

  /** Claiming an unclaimed cell of the claimant's own bucket, at the end of a gapless run. */
  lemma ClaimKeepsTable(cells: seq<Cell>, threshold: nat, b: nat, o: nat, h: nat)
    requires TableInv(cells, threshold) && b < |cells| && o < |cells|
    requires h != 0 && Wrap(h, |cells|) == b
    requires !Claimed(cells, b, o)
    requires forall w: nat :: 0 <= w < o ==> Claimed(cells, b, w)
    ensures var i := At(|cells|, b, o); var after := cells[i := cells[i].(hash := h)];
            TableInv(after, threshold) && Grows(cells, after)
    ensures forall w: nat :: o <= w < |cells| ==> !InBucket(cells, b, w)
  {
    var n := |cells|;
    var i := At(n, b, o);
    var after := cells[i := cells[i].(hash := h)];
    assert forall w: nat :: o <= w < n ==> !InBucket(cells, b, w);
    ClaimKeepsGaps(cells, b, o, h);
    ClaimKeepsLeaps(cells, threshold, b, o, h);
  }

  lemma ClaimKeepsGaps(cells: seq<Cell>, b: nat, o: nat, h: nat)
    requires 0 < |cells| && NoGap(cells) && b < |cells| && o < |cells|
    requires h != 0 && Wrap(h, |cells|) == b
    requires forall w: nat :: 0 <= w < o ==> Claimed(cells, b, w)
    requires !Claimed(cells, b, o)
    ensures var i := At(|cells|, b, o); NoGap(cells[i := cells[i].(hash := h)])
  {
    var n := |cells|;
    var i := At(n, b, o);
    var after := cells[i := cells[i].(hash := h)];
    forall b': nat, o': nat, w: nat | b' < n && w <= o' < n && InBucket(after, b', o')
      ensures Claimed(after, b', w)
    {
      if At(n, b', o') == i {
        assert b' == b && o' == o;
        if w < o { assert Claimed(cells, b, w); }
      } else {
        assert InBucket(cells, b', o');
        assert Claimed(cells, b', w);
      }
    }
  }

  lemma ClaimKeepsLeaps(cells: seq<Cell>, threshold: nat, b: nat, o: nat, h: nat)
    requires TableInv(cells, threshold) && b < |cells| && o < |cells|
    requires h != 0 && Wrap(h, |cells|) == b
    requires !Claimed(cells, b, o)
    ensures var i := At(|cells|, b, o); LeapsOk(cells[i := cells[i].(hash := h)], threshold)
  {
    var i := At(|cells|, b, o);
    var after := cells[i := cells[i].(hash := h)];
    forall b': nat, o': nat | b' < |cells| && o' < |cells| && IsNode(after, b', o') && Leap(after, b', o') != 0
      ensures LeapOk(after, threshold, b', o', Leap(after, b', o'))
    {
      assert Leap(after, b', o') == Leap(cells, b', o');
      if At(|cells|, b', o') == i {
        assert cells[i].shortLeap == 0;
      }
      assert IsNode(cells, b', o');
      LeapOkIsStable(cells, after, threshold, b', o', Leap(cells, b', o'));
    }
  }

  /** A right leap value stays right. */
  lemma LeapOkIsStable(cells: seq<Cell>, after: seq<Cell>, threshold: nat, b: nat, o: nat, d: nat)
    requires 0 < |cells| && ClaimsKept(cells, after)
    requires LeapOk(cells, threshold, b, o, d)
    ensures LeapOk(after, threshold, b, o, d)
  {
    assert InBucket(cells, b, o + d);
    ForeignIsStable(cells, after, b, o, o + d);
  }

  /** Claims never change, so a stretch of other buckets' cells stays one. */
  lemma ForeignIsStable(cells: seq<Cell>, after: seq<Cell>, b: nat, lo: nat, hi: nat)
    requires 0 < |cells| && ClaimsKept(cells, after)
    requires Foreign(cells, b, lo, hi)
    ensures Foreign(after, b, lo, hi)
  {
    forall w: nat | lo < w < hi
      ensures Claimed(after, b, w) && !InBucket(after, b, w)
    {
      assert Claimed(cells, b, w) && !InBucket(cells, b, w);
    }
  }

  /** The array with the leap leaving node (b, o) set to `d`. */
  function WithLeap(cells: seq<Cell>, b: nat, o: nat, d: nat): (after: seq<Cell>)
    requires 0 < |cells|
    ensures |after| == |cells|
    ensures b < |cells| && o < |cells| ==> Leap(after, b, o) == d
  {
    var i := At(|cells|, b, o);
    if o == 0 then cells[i := cells[i].(longLeap := d)] else cells[i := cells[i].(shortLeap := d)]
  }

  ghost predicate SameHashes(cells: seq<Cell>, after: seq<Cell>) {
    |after| == |cells| && forall i :: 0 <= i < |cells| ==> after[i].hash == cells[i].hash
  }

  /** There is only one right leap value for a node. */
  lemma LeapIsDetermined(cells: seq<Cell>, threshold: nat, b: nat, o: nat, d: nat, e: nat)
    requires 0 < |cells|
    requires LeapOk(cells, threshold, b, o, d) && LeapOk(cells, threshold, b, o, e)
    ensures d == e
  {
  }

  /** Any thread that links a node to the next cell of its bucket writes the only possible value. */
  lemma LinkKeepsTable(cells: seq<Cell>, threshold: nat, b: nat, o: nat, d: nat)
    requires TableInv(cells, threshold) && b < |cells| && o < |cells|
    requires IsNode(cells, b, o) && LeapOk(cells, threshold, b, o, d)
    ensures Leap(cells, b, o) == 0 || Leap(cells, b, o) == d
    ensures TableInv(WithLeap(cells, b, o, d), threshold)
    ensures Grows(cells, WithLeap(cells, b, o, d))
  {
    var after := WithLeap(cells, b, o, d);
    assert InBucket(cells, b, o + d) && Claimed(cells, b, o);
    if Leap(cells, b, o) != 0 {
      LeapIsDetermined(cells, threshold, b, o, d, Leap(cells, b, o));
    }
    LinkKeepsGaps(cells, after);
    LinkKeepsLeaps(cells, threshold, b, o, d);
  }

  lemma LinkKeepsGaps(cells: seq<Cell>, after: seq<Cell>)
    requires 0 < |cells| && NoGap(cells) && SameHashes(cells, after)
    ensures NoGap(after)
  {
    forall b: nat, o: nat, w: nat | b < |after| && w <= o < |after| && InBucket(after, b, o)
      ensures Claimed(after, b, w)
    {
      assert InBucket(cells, b, o);
      assert Claimed(cells, b, w);
    }
  }

  lemma LinkKeepsLeaps(cells: seq<Cell>, threshold: nat, b: nat, o: nat, d: nat)
    requires 0 < |cells| && LeapsOk(cells, threshold) && b < |cells| && o < |cells|
    requires IsNode(cells, b, o) && LeapOk(cells, threshold, b, o, d)
    ensures LeapsOk(WithLeap(cells, b, o, d), threshold)
  {
    var n, after := |cells|, WithLeap(cells, b, o, d);
    forall b': nat, o': nat | b' < n && o' < n && IsNode(after, b', o') && Leap(after, b', o') != 0
      ensures LeapOk(after, threshold, b', o', Leap(after, b', o'))
    {
      assert IsNode(cells, b', o');
      if !(b' == b && o' == o) {
        OtherLeapKept(cells, b, o, d, b', o');
        assert LeapOk(cells, threshold, b', o', Leap(cells, b', o'));
      }
      LeapOkIsStable(cells, after, threshold, b', o', Leap(after, b', o'));
    }
  }

  /** Each leap field serves one chain node only. */
  lemma OtherLeapKept(cells: seq<Cell>, b: nat, o: nat, d: nat, b': nat, o': nat)
    requires 0 < |cells| && b < |cells| && o < |cells| && b' < |cells| && o' < |cells|
    requires IsNode(cells, b, o) && IsNode(cells, b', o') && !(b == b' && o == o')
    ensures Leap(WithLeap(cells, b, o, d), b', o') == Leap(cells, b', o')
  {
  }
}
