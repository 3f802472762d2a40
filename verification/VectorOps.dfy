/** conj, assoc, pop and nth on the trie as a value, and what they do to the sequence of elements. A node of
    depth `d` sits at level 5 * d. */
module VectorOps {
  import opened Options
  import opened Shifts
  import opened VectorTree

  // ---------------------------------------------------------------- the operations

  /** PersistentVectorNode_pushTail on a node: the new node, and whether it takes this node's place (`copied`)
      rather than standing beside it. */
  function PushTail(t: Tree, tail: Tree, d: nat, top: bool): (Tree, bool)
    requires Spine(t, d)
    decreases d
  {
    if t.Leaf? then (Inner([t, tail]), false)
    else
      var n := |t.kids| - 1;
      var (subtree, copied) := if d <= 1 then (tail, false) else PushTail(t.kids[n], tail, d - 1, false);
      if copied then (Inner(t.kids[n := subtree]), true)
      else if |t.kids| < BRANCHING then (Inner(t.kids + [subtree]), true)
      else if top then (Inner([t, Inner([subtree])]), false)
      else (Inner([subtree]), false)
  }

  /** PersistentVectorNode_popTail: what is left of the node, and the leaf that was its last. */
  function PopTail(t: Tree, d: nat): (Option<Tree>, Tree)
    requires Spine(t, d)
    decreases d
  {
    if t.Leaf? then (None, t)
    else
      var n := |t.kids| - 1;
      var (subtree, leaf) := PopTail(t.kids[n], d - 1);
      if subtree.Some? then (Some(Inner(t.kids[n := subtree.value])), leaf)
      else if 0 < n then (Some(Inner(t.kids[..n])), leaf)
      else (None, leaf)
  }

  /** PersistentVectorNode_replacePath */
  function ReplacePath(t: Tree, d: nat, index: nat, x: Val): Tree
    requires Spine(t, d)
    decreases d
  {
    var i := Slot(index, 5 * d);
    match t
    case Leaf(vals) => if i < |vals| then Leaf(vals[i := x]) else t
    case Inner(kids) =>
      if i < |kids| then
        ChildIsSpine(t, d, i);
        Inner(kids[i := ReplacePath(kids[i], d - 1, index, x)])
      else t
  }

  /** The descent of nth and nthBlock, one masked shift for each level. */
  function LeafFor(t: Tree, d: nat, index: nat): (leaf: Tree)
    requires Spine(t, d) && index % Power(d + 1) < |Elems(t)|
    ensures Full(leaf, 0)
    decreases d
  {
    if d == 0 then t
    else
      ChildHolds(t, d, index);
      LeafFor(t.kids[Slot(index, 5 * d)], d - 1, index)
  }

  function Conj(v: Vec, x: Val): Vec
    requires Canonical(v)
  {
    if |v.tail| < BRANCHING then v.(count := v.count + 1, tail := v.tail + [x])
    else match v.root
      case None => Vec(v.count + 1, v.shift, Some(Leaf(v.tail)), [x])
      case Some(t) =>
        var (root, copied) := PushTail(t, Leaf(v.tail), v.shift / 5, true);
        Vec(v.count + 1, if copied then v.shift else v.shift + 5, Some(root), [x])
  }

  /** None is the index error. */
  function Assoc(v: Vec, index: nat, x: Val): Option<Vec>
    requires Canonical(v)
  {
    var tailOffset := v.count - |v.tail|;
    if v.count < index then None
    else if index == v.count then Some(Conj(v, x))
    else if tailOffset <= index then Some(v.(tail := v.tail[index - tailOffset := x]))
    else Some(v.(root := Some(ReplacePath(v.root.value, v.shift / 5, index, x))))
  }

  /** None is the error of popping the empty vector. */
  function Pop(v: Vec): Option<Vec>
    requires Canonical(v)
  {
    if v.count == 0 then None
    else if 1 < |v.tail| then Some(v.(count := v.count - 1, tail := v.tail[..|v.tail| - 1]))
    else match v.root
      case None => Some(v.(count := v.count - 1, tail := []))
      case Some(t) =>
        var (root, leaf) := PopTail(t, v.shift / 5);
        PopTailSpec(t, v.shift / 5);
        if root.Some? && 0 < v.shift && |root.value.kids| == 1
        then Some(Vec(v.count - 1, v.shift - 5, Some(root.value.kids[0]), leaf.vals))
        else Some(Vec(v.count - 1, v.shift, root, leaf.vals))
  }

  /** The leaf holding an index, or the tail: PersistentVector_nthBlock. */
  function BlockFor(v: Vec, index: nat): Option<seq<Val>>
    requires Canonical(v)
  {
    if v.count <= index then None
    else if v.count - |v.tail| <= index then Some(v.tail)
    else
      InTree(v, index);
      Some(LeafFor(v.root.value, v.shift / 5, index).vals)
  }

  // ---------------------------------------------------------------- children and their elements

  lemma ChildIsSpine(t: Tree, d: nat, i: nat)
    requires Spine(t, d) && 0 < d && i < |t.kids|
    ensures Spine(t.kids[i], d - 1)
  {
    if i < |t.kids| - 1 {
      assert t.kids[..|t.kids| - 1][i] == t.kids[i];
      FullIsSpine(t.kids[i], d - 1);
    }
  }

  lemma FlattenLast(kids: seq<Tree>)
    requires kids != []
    ensures Flatten(kids) == Flatten(kids[..|kids| - 1]) + Elems(kids[|kids| - 1])
  {
  }

  lemma ConcatLast(a: seq<Tree>, b: seq<Tree>)
    requires b != []
    ensures (a + b)[..|a + b| - 1] == a + b[..|b| - 1] && (a + b)[|a + b| - 1] == b[|b| - 1]
  {
  }

  lemma {:induction false} FlattenConcat(a: seq<Tree>, b: seq<Tree>)
    ensures Flatten(a + b) == Flatten(a) + Flatten(b)
    decreases |b|
  {
    if b == [] {
      assert a + b == a;
    } else {
      hide Elems, Flatten;
      var n := |b| - 1;
      ConcatLast(a, b);
      FlattenLast(a + b);
      FlattenLast(b);
      FlattenConcat(a, b[..n]);
      AddAssoc(Flatten(a), Flatten(b[..n]), Elems(b[n]));
    }
  }

  lemma FlattenOne(t: Tree)
    ensures Flatten([t]) == Elems(t) && Elems(Inner([t])) == Elems(t)
  {
    assert [t][..0] == [];
  }

  lemma SplitAt(kids: seq<Tree>, i: nat)
    requires i < |kids|
    ensures kids == kids[..i] + ([kids[i]] + kids[i + 1..])
  {
  }

  lemma FlattenSplit(kids: seq<Tree>, i: nat)
    requires i < |kids|
    ensures Flatten(kids) == Flatten(kids[..i]) + Elems(kids[i]) + Flatten(kids[i + 1..])
  {
    hide Elems, Flatten;
    var x, y := [kids[i]], kids[i + 1..];
    SplitAt(kids, i);
    FlattenConcat(kids[..i], x + y);
    FlattenConcat(x, y);
    FlattenOne(kids[i]);
    AddAssoc(Flatten(kids[..i]), Elems(kids[i]), Flatten(y));
  }

  lemma AddAssoc(a: seq<Val>, b: seq<Val>, c: seq<Val>)
    ensures a + (b + c) == a + b + c
  {
  }

  /** The elements below child `i` start at offset i * 32^d. */
  lemma ChildElems(t: Tree, d: nat, i: nat)
    requires Spine(t, d) && 0 < d && i < |t.kids|
    ensures Elems(t) == Flatten(t.kids[..i]) + Elems(t.kids[i]) + Flatten(t.kids[i + 1..])
    ensures |Flatten(t.kids[..i])| == i * Power(d)
  {
    assert Elems(t) == Flatten(t.kids);
    hide Elems, Flatten;
    FlattenSplit(t.kids, i);
    assert forall j :: 0 <= j < i ==> t.kids[..i][j] == t.kids[..|t.kids| - 1][j];
    AllFullSize(t.kids[..i], d - 1);
  }

  /** The slot an index selects exists, and its child holds the rest of the index. */
  lemma ChildHolds(t: Tree, d: nat, index: nat)
    requires Spine(t, d) && 0 < d && index % Power(d + 1) < |Elems(t)|
    ensures var i := Slot(index, 5 * d);
            && i < |t.kids| && Spine(t.kids[i], d - 1)
            && index % Power(d) < |Elems(t.kids[i])|
            && index % Power(d + 1) == i * Power(d) + index % Power(d)
  {
    hide Slot, Power, Elems, Flatten;
    var i, n := Slot(index, 5 * d), |t.kids| - 1;
    SlotSplits(index, d);
    SpineParts(t, d);
    SpineSize(t.kids[n], d - 1);
    InRange(i, n, Power(d), index % Power(d), |Elems(t.kids[n])|);
    if i < n {
      assert t.kids[..n][i] == t.kids[i];
      FullSize(t.kids[i], d - 1);
      FullIsSpine(t.kids[i], d - 1);
    }
  }

  lemma InRange(i: nat, n: nat, p: nat, r: nat, last: nat)
    requires r < p && last <= p && i * p + r < n * p + last
    ensures i < n || (i == n && r < last)
  {
    assert (n + 1) * p == n * p + p;
    if n < i { MulMonotone(n + 1, i, p); }
  }

  // ---------------------------------------------------------------- replacePath

  lemma {:induction false} ReplacePathSpec(t: Tree, d: nat, index: nat, x: Val)
    requires Spine(t, d) && index % Power(d + 1) < |Elems(t)|
    ensures var r := ReplacePath(t, d, index, x);
            && Spine(r, d)
            && Elems(r) == Elems(t)[index % Power(d + 1) := x]
            && (0 < d ==> |r.kids| == |t.kids|)
    decreases d
  {
    if d == 0 {
      assert Power(1) == BRANCHING * Power(0);
      assert Slot(index, 0) == index % BRANCHING;
    } else {
      hide Slot, Power;
      var i := Slot(index, 5 * d);
      ChildHolds(t, d, index);
      ReplacePathSpec(t.kids[i], d - 1, index, x);
      var k := ReplacePath(t.kids[i], d - 1, index, x);
      assert ReplacePath(t, d, index, x) == Inner(t.kids[i := k]);
      ReplaceKid(t, d, i, k);
      ChildElems(t, d, i);
      UpdateMiddle(Flatten(t.kids[..i]), Elems(t.kids[i]), Flatten(t.kids[i + 1..]), index % Power(d), x);
    }
  }

  lemma UpdateMiddle(a: seq<Val>, b: seq<Val>, c: seq<Val>, i: nat, x: Val)
    requires i < |b|
    ensures (a + b + c)[|a| + i := x] == a + b[i := x] + c
  {
  }

  /** Exchanging one child for another of the same size. */
  lemma ReplaceKid(t: Tree, d: nat, i: nat, k: Tree)
    requires Spine(t, d) && 0 < d && i < |t.kids| && Spine(k, d - 1) && |Elems(k)| == |Elems(t.kids[i])|
    ensures Spine(Inner(t.kids[i := k]), d)
    ensures Elems(Inner(t.kids[i := k])) == Flatten(t.kids[..i]) + Elems(k) + Flatten(t.kids[i + 1..])
  {
    var n := |t.kids| - 1;
    var r := Inner(t.kids[i := k]);
    if i < n {
      assert t.kids[..n][i] == t.kids[i];
      FullSize(t.kids[i], d - 1);
      FullBySize(k, d - 1);
    }
    assert forall j :: 0 <= j < n ==> r.kids[..n][j] == if j == i then k else t.kids[..n][j];
    ChildElems(r, d, i);
    assert r.kids[..i] == t.kids[..i] && r.kids[i + 1..] == t.kids[i + 1..];
  }

  // ---------------------------------------------------------------- pushTail

  /** Pushing a full tail appends its elements in place of a node that has room; beside a full node it makes
      a new one holding just the tail; at a full root it grows the tree by a level. */
  lemma {:induction false} PushTailSpec(t: Tree, tail: Tree, d: nat, top: bool)
    requires Spine(t, d) && Full(tail, 0) && (d == 0 ==> top)
    ensures var (r, copied) := PushTail(t, tail, d, top);
            && (copied <==> !Full(t, d))
            && (copied ==> Spine(r, d) && Elems(r) == Elems(t) + tail.vals && |t.kids| <= |r.kids|)
            && (!copied && top ==> Spine(r, d + 1) && |r.kids| == 2 && Elems(r) == Elems(t) + tail.vals)
            && (!copied && !top ==> Spine(r, d) && Elems(r) == tail.vals)
    decreases d
  {
    hide Elems, Flatten;
    var (r, copied) := PushTail(t, tail, d, top);
    assert Elems(tail) == tail.vals by { LeafElems(tail); }
    if d == 0 {
      FlattenPair(t, tail);
      assert r.kids[..1] == [t];
    } else {
      var n := |t.kids| - 1;
      var last := t.kids[n];
      var (subtree, below) := if d <= 1 then (tail, false) else PushTail(last, tail, d - 1, false);
      if 1 < d { PushTailSpec(last, tail, d - 1, false); }
      assert Full(t, d) <==> |t.kids| == BRANCHING && Full(last, d - 1) by { FullByKids(t, d); }
      if below {
        PushReplaces(t, d, subtree, tail.vals);
      } else if |t.kids| < BRANCHING {
        PushAppends(t, d, subtree);
      } else if top {
        assert Spine(Inner([subtree]), d) by { assert [subtree][..0] == []; }
        FlattenOne(subtree);
        FlattenPair(t, Inner([subtree]));
        assert r.kids[..1] == [t];
      } else {
        FlattenOne(subtree);
        assert [subtree][..0] == [];
      }
    }
  }

  lemma LeafElems(t: Tree)
    requires t.Leaf?
    ensures Elems(t) == t.vals
  {
  }

  lemma FlattenPair(a: Tree, b: Tree)
    ensures Flatten([a, b]) == Elems(a) + Elems(b) && Elems(Inner([a, b])) == Elems(a) + Elems(b)
  {
    assert [a, b][..1] == [a];
    FlattenOne(a);
  }

  lemma FullByKids(t: Tree, d: nat)
    requires Spine(t, d) && 0 < d
    ensures Full(t, d) <==> |t.kids| == BRANCHING && Full(t.kids[|t.kids| - 1], d - 1)
  {
    var n := |t.kids| - 1;
    assert forall i :: 0 <= i < n ==> t.kids[..n][i] == t.kids[i];
  }

  lemma PushReplaces(t: Tree, d: nat, subtree: Tree, vals: seq<Val>)
    requires Spine(t, d) && 0 < d
    requires Spine(subtree, d - 1) && Elems(subtree) == Elems(t.kids[|t.kids| - 1]) + vals
    ensures var r := Inner(t.kids[|t.kids| - 1 := subtree]); Spine(r, d) && Elems(r) == Elems(t) + vals
  {
    var n := |t.kids| - 1;
    var r := Inner(t.kids[n := subtree]);
    assert r.kids[..n] == t.kids[..n];
    SpineParts(t, d);
    SpineParts(r, d);
  }

  lemma PushAppends(t: Tree, d: nat, subtree: Tree)
    requires Spine(t, d) && 0 < d && |t.kids| < BRANCHING && Full(t.kids[|t.kids| - 1], d - 1)
    requires Spine(subtree, d - 1)
    ensures var r := Inner(t.kids + [subtree]); Spine(r, d) && Elems(r) == Elems(t) + Elems(subtree)
  {
    var n := |t.kids| - 1;
    var r := Inner(t.kids + [subtree]);
    assert r.kids[..n + 1] == t.kids;
    assert forall i :: 0 <= i < n ==> t.kids[..n][i] == t.kids[i];
    SpineParts(r, d);
  }

  // ---------------------------------------------------------------- popTail

  /** Popping takes the last 32 elements off, and drops the node only when nothing else was in it. */
  lemma {:induction false} PopTailSpec(t: Tree, d: nat)
    requires Spine(t, d)
    ensures var (r, leaf) := PopTail(t, d);
            && Full(leaf, 0)
            && (r.None? ==> Elems(t) == leaf.vals)
            && (r.Some? ==> Spine(r.value, d) && Elems(t) == Elems(r.value) + leaf.vals)
            && (r.Some? ==> 0 < d && |r.value.kids| <= |t.kids| <= |r.value.kids| + 1)
            && (r.Some? && |r.value.kids| < |t.kids| ==> AllFull(r.value.kids, d - 1))
            && (0 < d && 1 < |t.kids| ==> r.Some?)
    decreases d
  {
    if 0 < d {
      var n := |t.kids| - 1;
      var last := t.kids[n];
      PopTailSpec(last, d - 1);
      var (subtree, leaf) := PopTail(last, d - 1);
      if subtree.Some? {
        PopReplaces(t, d, subtree.value, leaf.vals);
      } else if 0 < n {
        PopShortens(t, d);
      } else {
        FlattenOne(last);
        assert t.kids == [last];
      }
    }
  }

  lemma PopReplaces(t: Tree, d: nat, subtree: Tree, vals: seq<Val>)
    requires Spine(t, d) && 0 < d
    requires Spine(subtree, d - 1) && Elems(t.kids[|t.kids| - 1]) == Elems(subtree) + vals
    ensures var r := Inner(t.kids[|t.kids| - 1 := subtree]); Spine(r, d) && Elems(t) == Elems(r) + vals
  {
    var n := |t.kids| - 1;
    var r := Inner(t.kids[n := subtree]);
    assert r.kids[..n] == t.kids[..n];
    SpineParts(t, d);
    SpineParts(r, d);
  }

  lemma PopShortens(t: Tree, d: nat)
    requires Spine(t, d) && 0 < d && 1 < |t.kids|
    ensures var n := |t.kids| - 1; var r := Inner(t.kids[..n]);
            Spine(r, d) && AllFull(r.kids, d - 1) && Elems(t) == Elems(r) + Elems(t.kids[n])
  {
    FullKidsAreSpineKids(t.kids[..|t.kids| - 1], d - 1);
    SpineParts(t, d);
  }

  // ---------------------------------------------------------------- the vector operations refine a sequence

  /** conj appends, and keeps the shape canonical at every depth. */
  lemma ConjAppends(v: Vec, x: Val)
    requires Canonical(v)
    ensures Canonical(Conj(v, x)) && Contents(Conj(v, x)) == Contents(v) + [x]
  {
    if |v.tail| == BRANCHING && v.root.Some? {
      PushTailSpec(v.root.value, Leaf(v.tail), v.shift / 5, true);
    }
  }

  /** The index lies in the tree, whose size is a multiple of 32 no larger than 32^(depth + 1). */
  lemma InTree(v: Vec, index: nat)
    requires Canonical(v) && index < v.count - |v.tail|
    ensures v.root.Some? && index < |Elems(v.root.value)| == v.count - |v.tail|
    ensures index % Power(v.shift / 5 + 1) == index
  {
    SpineSize(v.root.value, v.shift / 5);
    DivModUnique(index, Power(v.shift / 5 + 1), 0, index);
  }

  /** assoc updates one position, appends at the end, and fails beyond it. */
  lemma AssocUpdates(v: Vec, index: nat, x: Val)
    requires Canonical(v)
    ensures Assoc(v, index, x).None? <==> v.count < index
    ensures index == v.count ==> Assoc(v, index, x) == Some(Conj(v, x))
    ensures index < v.count ==>
              var w := Assoc(v, index, x).value;
              && Canonical(w) && Contents(w) == Contents(v)[index := x] && w.shift == v.shift
  {
    if index < v.count - |v.tail| {
      InTree(v, index);
      ReplacePathSpec(v.root.value, v.shift / 5, index, x);
    }
  }

  /** What pop makes of the tree when the tail has one element: a root left with one child gives way to it. */
  lemma PopOfTree(v: Vec)
    requires Canonical(v) && |v.tail| <= 1 && v.root.Some?
    ensures v.shift == 5 * (v.shift / 5) && Spine(v.root.value, v.shift / 5) && Pop(v).Some?
    ensures var (p, (rt, lt)) := (Pop(v).value, PopTail(v.root.value, v.shift / 5));
            && p.count == v.count - 1 && lt == Leaf(p.tail) && (rt.Some? && 0 < v.shift ==> rt.value.Inner?)
            && if rt.Some? && 0 < v.shift && |rt.value.kids| == 1
               then p.root == Some(rt.value.kids[0]) && p.shift == v.shift - 5
               else p.root == rt && p.shift == v.shift
  {
    hide Elems, Flatten, AllFull;
    PopTailSpec(v.root.value, v.shift / 5);
  }

  lemma PopOfTreeDrops(v: Vec)
    requires Canonical(v) && |v.tail| == 1 && v.root.Some?
    ensures Pop(v).Some? && Canonical(Pop(v).value) && Contents(Pop(v).value) + v.tail == Contents(v)
  {
    var t, d := v.root.value, v.shift / 5;
    PopOfTree(v);
    PopTailSpec(t, d);
    var (root, leaf) := PopTail(t, d);
    var p := Pop(v).value;
    hide PopTail, Pop, Flatten, AllFull, Spine, Elems;
    if root.Some? && 0 < v.shift && |root.value.kids| == 1 { OnlyChild(root.value, d); }
    assert Contents(p) == (if root.None? then [] else Elems(root.value)) + leaf.vals;
    assert v.root.Some? && Contents(v) == Elems(t) + v.tail;
  }

  /** pop drops the last element, and fails only on the empty vector. */
  lemma PopDropsLast(v: Vec)
    requires Canonical(v)
    ensures Pop(v).None? <==> Contents(v) == []
    ensures Pop(v).Some? ==>
              && Canonical(Pop(v).value)
              && Contents(Pop(v).value) == Contents(v)[..v.count - 1]
  {
    if |v.tail| == 1 && v.root.Some? {
      PopOfTreeDrops(v);
      hide Pop, Canonical;
      assert Contents(Pop(v).value) == (Contents(Pop(v).value) + v.tail)[..v.count - 1];
    }
  }

  /** The root collapses onto a child that is full, hence has at least two children of its own. */
  lemma OnlyChild(t: Tree, d: nat)
    requires Spine(t, d) && 0 < d && |t.kids| == 1
    ensures Spine(t.kids[0], d - 1) && Elems(t.kids[0]) == Elems(t)
    ensures AllFull(t.kids, d - 1) && 1 < d ==> |t.kids[0].kids| == BRANCHING
  {
    FlattenOne(t.kids[0]);
    assert t.kids == [t.kids[0]];
    assert AllFull(t.kids, d - 1) ==> Full(t.kids[0], d - 1);
  }

  /** `leaf` holds the aligned run of 32 elements of `s` around position `k`. */
  ghost predicate IsRun(s: seq<Val>, k: nat, leaf: seq<Val>) {
    && k - k % BRANCHING + BRANCHING <= |s|
    && leaf == s[k - k % BRANCHING..k - k % BRANCHING + BRANCHING]
  }

  /** The leaf of an index is the aligned run of 32 elements around it. */
  lemma {:induction false} LeafForSpec(t: Tree, d: nat, index: nat)
    requires Spine(t, d) && index % Power(d + 1) < |Elems(t)|
    ensures var k, leaf := index % Power(d + 1), LeafFor(t, d, index);
            Full(leaf, 0) && IsRun(Elems(t), k, leaf.vals) && k % BRANCHING == index % BRANCHING
    decreases d
  {
    LowBits(index, d);
    if d == 0 {
      assert Power(1) == BRANCHING * Power(0);
    } else {
      hide Slot, Power, Elems, Flatten, Spine, IsRun;
      var i := Slot(index, 5 * d);
      ChildHolds(t, d, index);
      LeafForSpec(t.kids[i], d - 1, index);
      ChildElems(t, d, i);
      MultipleOfBranching(i, d);
      RunOfChild(Flatten(t.kids[..i]), Elems(t.kids[i]), Flatten(t.kids[i + 1..]), i * Power(d), index % Power(d),
        LeafFor(t, d, index).vals);
    }
  }

  lemma ShiftBlock(base: nat, k: nat)
    requires base % BRANCHING == 0
    ensures (base + k) % BRANCHING == k % BRANCHING
  {
  }

  lemma RunOfChild(a: seq<Val>, b: seq<Val>, c: seq<Val>, base: nat, k: nat, leaf: seq<Val>)
    requires |a| == base && base % BRANCHING == 0 && IsRun(b, k, leaf)
    ensures IsRun(a + b + c, base + k, leaf)
  {
    ShiftBlock(base, k);
    var i := k - k % BRANCHING;
    assert (a + b + c)[base + i..base + i + BRANCHING] == b[i..i + BRANCHING];
  }

  /** The tail starts at a multiple of 32, so an index below 32 * k never shares a block with one above. */
  lemma TailOffsetAligned(v: Vec)
    requires Canonical(v)
    ensures (v.count - |v.tail|) % BRANCHING == 0
  {
    if v.root.Some? { SpineSize(v.root.value, v.shift / 5); }
  }

  /** `block` holds the elements of `s` from the aligned index on: 32 of them, or as many as are left. */
  ghost predicate IsBlock(s: seq<Val>, index: nat, block: seq<Val>) {
    var base := index - index % BRANCHING;
    && index % BRANCHING < |block| <= BRANCHING && base + |block| <= |s|
    && block == s[base..base + |block|]
    && (|block| == BRANCHING || base + |block| == |s|)
  }

  lemma BlockOfPrefix(a: seq<Val>, b: seq<Val>, index: nat)
    requires index - index % BRANCHING + BRANCHING <= |a|
    ensures IsBlock(a + b, index, a[index - index % BRANCHING..index - index % BRANCHING + BRANCHING])
  {
  }

  lemma BlockOfSuffix(a: seq<Val>, b: seq<Val>, index: nat)
    requires |a| % BRANCHING == 0 && |b| <= BRANCHING && |a| <= index < |a| + |b|
    ensures IsBlock(a + b, index, b)
  {
    ShiftBlock(|a|, index - |a|);
    assert index - index % BRANCHING == |a|;
    assert (a + b)[|a|..|a| + |b|] == b;
  }

  /** nthBlock: the block starts at the aligned index and holds the elements from there on. */
  lemma BlockForSpec(v: Vec, index: nat)
    requires Canonical(v)
    ensures BlockFor(v, index).None? <==> v.count <= index
    ensures index < v.count ==> IsBlock(Contents(v), index, BlockFor(v, index).value)
  {
    TailOffsetAligned(v);
    var offset := v.count - |v.tail|;
    if index < offset {
      InTree(v, index);
      LeafForSpec(v.root.value, v.shift / 5, index);
      BlockOfPrefix(Elems(v.root.value), v.tail, index);
    } else if index < v.count {
      BlockOfSuffix(if v.root.None? then [] else Elems(v.root.value), v.tail, index);
    }
  }

  // ---------------------------------------------------------------- round trips

  /** pop undoes conj, down to shift and tree shape, also where conj had to grow the root. */
  lemma PopAfterConj(v: Vec, x: Val)
    requires Canonical(v)
    ensures Canonical(Conj(v, x)) && Pop(Conj(v, x)) == Some(v)
  {
    ConjAppends(v, x);
    PopDropsLast(Conj(v, x));
    assert Contents(Pop(Conj(v, x)).value) == Contents(v);
    CanonicalIsUnique(Pop(Conj(v, x)).value, v);
  }

  /** conj of the last element undoes pop, also where pop had to collapse the root. */
  lemma ConjAfterPop(v: Vec)
    requires Canonical(v) && 0 < v.count
    ensures Pop(v).Some? && Canonical(Pop(v).value) && Conj(Pop(v).value, Contents(v)[v.count - 1]) == v
  {
    var w, x := Pop(v).value, Contents(v)[v.count - 1];
    PopDropsLast(v);
    assert |Contents(v)| == v.count;
    hide Pop, Conj, Canonical, Contents;
    ConjAppends(w, x);
    assert Contents(Conj(w, x)) == Contents(v);
    CanonicalIsUnique(Conj(w, x), v);
  }
}
