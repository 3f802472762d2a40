/** The persistent vector as a value: the 32-way trie with a tail, its canonical shape, and the operations
    of PersistentVector.c on it. */
module VectorTree {
  import opened Options
  import opened Shifts

  /** A value stands for its class under the runtime's `equals`. */
  type Val = int

  datatype Tree = Leaf(vals: seq<Val>) | Inner(kids: seq<Tree>)

  datatype Vec = Vec(count: nat, shift: nat, root: Option<Tree>, tail: seq<Val>)

  // ---------------------------------------------------------------- contents

  function Elems(t: Tree): seq<Val>
    decreases t, 1
  {
    match t
    case Leaf(vals) => vals
    case Inner(kids) => Flatten(kids)
  }

  function Flatten(kids: seq<Tree>): seq<Val>
    decreases kids, 0
  {
    if kids == [] then [] else Flatten(kids[..|kids| - 1]) + Elems(kids[|kids| - 1])
  }

  function Contents(v: Vec): seq<Val> {
    (if v.root.None? then [] else Elems(v.root.value)) + v.tail
  }

  // ---------------------------------------------------------------- canonical shape

  ghost predicate Full(t: Tree, d: nat)
    decreases d, 1
  {
    if d == 0 then t.Leaf? && |t.vals| == BRANCHING
    else t.Inner? && |t.kids| == BRANCHING && AllFull(t.kids, d - 1)
  }

  ghost predicate AllFull(kids: seq<Tree>, d: nat)
    decreases d, 2
  {
    forall i :: 0 <= i < |kids| ==> Full(kids[i], d)
  }

  /** A tree of depth `d` that is full except along its right spine; all leaves are full. */
  ghost predicate Spine(t: Tree, d: nat)
    decreases d
  {
    if d == 0 then t.Leaf? && |t.vals| == BRANCHING
    else
      && t.Inner? && 0 < |t.kids| <= BRANCHING
      && AllFull(t.kids[..|t.kids| - 1], d - 1)
      && Spine(t.kids[|t.kids| - 1], d - 1)
  }

  /** The canonical shape: the root is a spine of depth shift / 5 with at least two children when it is not
      a leaf, and the tail is empty only in the empty vector. */
  ghost predicate Canonical(v: Vec) {
    && v.count == |Contents(v)|
    && |v.tail| <= BRANCHING
    && match v.root
       case None => v.shift == 0
       case Some(t) =>
         && v.shift % 5 == 0 && Spine(t, v.shift / 5)
         && (0 < v.shift ==> 2 <= |t.kids|)
         && 0 < |v.tail|
  }

  lemma {:induction false} FullIsSpine(t: Tree, d: nat)
    requires Full(t, d)
    ensures Spine(t, d)
    decreases d
  {
    if d != 0 {
      FullIsSpine(t.kids[BRANCHING - 1], d - 1);
    }
  }

  lemma {:induction false} FullSize(t: Tree, d: nat)
    requires Full(t, d)
    ensures |Elems(t)| == Power(d + 1)
    decreases d, 1
  {
    if d != 0 {
      AllFullSize(t.kids, d - 1);
    } else {
      assert Power(1) == BRANCHING * Power(0);
    }
  }

  lemma {:induction false} AllFullSize(kids: seq<Tree>, d: nat)
    requires AllFull(kids, d)
    ensures |Flatten(kids)| == |kids| * Power(d + 1)
    decreases d, 2, |kids|
  {
    if kids != [] {
      var n := |kids| - 1;
      AllFullSize(kids[..n], d);
      FullSize(kids[n], d);
      assert |kids| * Power(d + 1) == n * Power(d + 1) + Power(d + 1);
    }
  }

  /** The elements of a spine: those of its full children, then those of the last. */
  lemma SpineParts(t: Tree, d: nat)
    requires Spine(t, d) && 0 < d
    ensures var n := |t.kids| - 1;
            && Elems(t) == Flatten(t.kids[..n]) + Elems(t.kids[n])
            && |Flatten(t.kids[..n])| == n * Power(d)
            && n * Power(d) + Power(d) <= Power(d + 1)
  {
    var n := |t.kids| - 1;
    AllFullSize(t.kids[..n], d - 1);
    MulMonotone(n + 1, BRANCHING, Power(d));
    assert (n + 1) * Power(d) == n * Power(d) + Power(d);
  }

  /** A spine holds a positive multiple of 32 elements, and at most a full tree's worth. */
  lemma {:induction false} SpineSize(t: Tree, d: nat)
    requires Spine(t, d)
    ensures 0 < |Elems(t)| <= Power(d + 1) && |Elems(t)| % BRANCHING == 0
    decreases d
  {
    if d == 0 {
      assert Power(1) == BRANCHING * Power(0);
    } else {
      var n := |t.kids| - 1;
      SpineParts(t, d);
      SpineSize(t.kids[n], d - 1);
      hide Power, Spine, Flatten, Elems;
      MultipleOfBranching(n, d);
      SumOfMultiples(n * Power(d), |Elems(t.kids[n])|);
    }
  }

  lemma SumOfMultiples(x: nat, y: nat)
    requires x % BRANCHING == 0 && y % BRANCHING == 0
    ensures (x + y) % BRANCHING == 0
  {
  }

  /** Only a full tree holds a full tree's worth. */
  lemma {:induction false} FullBySize(t: Tree, d: nat)
    requires Spine(t, d) && |Elems(t)| == Power(d + 1)
    ensures Full(t, d)
    decreases d
  {
    if d != 0 {
      var n, p := |t.kids| - 1, Power(d);
      SpineParts(t, d);
      SpineSize(t.kids[n], d - 1);
      assert (n + 2) * p == n * p + p + p;
      if n + 1 < BRANCHING { MulMonotone(n + 2, BRANCHING, p); }
      FullBySize(t.kids[n], d - 1);
      assert forall i :: 0 <= i < n ==> t.kids[i] == t.kids[..n][i];
    }
  }

  lemma MultipleOfBranching(n: nat, d: nat)
    requires 0 < d
    ensures (n * Power(d)) % BRANCHING == 0
  {
    var q := Power(d - 1);
    assert n * (BRANCHING * q) == (n * q) * BRANCHING;
    DivModUnique(n * Power(d), BRANCHING, n * q, 0);
  }

  // ---------------------------------------------------------------- uniqueness of the representation

  /** Two full lists of the same depth with the same elements are the same. */
  lemma {:induction false} SpineIsUnique(t: Tree, u: Tree, d: nat)
    requires Spine(t, d) && Spine(u, d) && Elems(t) == Elems(u)
    ensures t == u
    decreases d, 1, 0
  {
    if d != 0 {
      KidsAreUnique(t.kids, u.kids, d - 1);
    }
  }

  /** Children lists: all full but perhaps the last. */
  ghost predicate SpineKids(kids: seq<Tree>, d: nat) {
    0 < |kids| && AllFull(kids[..|kids| - 1], d) && Spine(kids[|kids| - 1], d)
  }

  lemma FullKidsAreSpineKids(kids: seq<Tree>, d: nat)
    requires 0 < |kids| && AllFull(kids, d)
    ensures SpineKids(kids, d)
  {
    FullIsSpine(kids[|kids| - 1], d);
  }

  lemma KidsCount(kids: seq<Tree>, d: nat)
    requires SpineKids(kids, d)
    ensures (|kids| - 1) * Power(d + 1) < |Flatten(kids)| <= |kids| * Power(d + 1)
  {
    var n := |kids| - 1;
    AllFullSize(kids[..n], d);
    SpineSize(kids[n], d);
    assert |kids| * Power(d + 1) == n * Power(d + 1) + Power(d + 1);
  }

  lemma {:induction false} KidsAreUnique(a: seq<Tree>, b: seq<Tree>, d: nat)
    requires SpineKids(a, d) && SpineKids(b, d) && Flatten(a) == Flatten(b)
    ensures a == b
    decreases d, 2, |a|
  {
    KidsCount(a, d);
    KidsCount(b, d);
    if |a| < |b| { MulMonotone(|a|, |b| - 1, Power(d + 1)); }
    if |b| < |a| { MulMonotone(|b|, |a| - 1, Power(d + 1)); }
    var n := |a| - 1;
    var a0, b0 := a[..n], b[..n];
    AllFullSize(a0, d);
    AllFullSize(b0, d);
    assert Flatten(a0) == Flatten(a)[..n * Power(d + 1)] == Flatten(b0);
    assert Elems(a[n]) == Flatten(a)[n * Power(d + 1)..] == Elems(b[n]);
    SpineIsUnique(a[n], b[n], d);
    if 0 < n {
      FullKidsAreSpineKids(a0, d);
      FullKidsAreSpineKids(b0, d);
      KidsAreUnique(a0, b0, d);
    }
    assert a == a0 + [a[n]] && b == b0 + [b[n]];
  }

  /** The size of a tree of depth `d` whose root has at least two children. */
  lemma DepthBySize(t: Tree, d: nat)
    requires Spine(t, d) && (0 < d ==> 2 <= |t.kids|)
    ensures |Elems(t)| <= Power(d + 1) && (0 < d ==> Power(d) < |Elems(t)|)
  {
    SpineSize(t, d);
    if 0 < d {
      var n := |t.kids| - 1;
      SpineParts(t, d);
      SpineSize(t.kids[n], d - 1);
      MulMonotone(1, n, Power(d));
    }
  }

  lemma {:induction false} PowerMonotone(d: nat, e: nat)
    requires d <= e
    ensures Power(d) <= Power(e)
  {
    if d < e { PowerMonotone(d, e - 1); }
  }

  /** A vector is determined by its elements: shift, tree shape and tail split included. */
  lemma CanonicalIsUnique(v: Vec, w: Vec)
    requires Canonical(v) && Canonical(w) && Contents(v) == Contents(w)
    ensures v == w
  {
    SameSplit(v, w);
    if v.root.Some? {
      var d, e := v.shift / 5, w.shift / 5;
      DepthBySize(v.root.value, d);
      DepthBySize(w.root.value, e);
      if d < e { PowerMonotone(d + 1, e); }
      if e < d { PowerMonotone(e + 1, d); }
      SpineIsUnique(v.root.value, w.root.value, d);
    }
  }

  /** The tree part is the longest multiple of 32 that leaves the tail non-empty. */
  lemma SameSplit(v: Vec, w: Vec)
    requires Canonical(v) && Canonical(w) && Contents(v) == Contents(w)
    ensures v.root.Some? <==> w.root.Some?
    ensures v.root.Some? ==> Elems(v.root.value) == Elems(w.root.value)
    ensures v.tail == w.tail
  {
    if v.root.Some? { SpineSize(v.root.value, v.shift / 5); }
    if w.root.Some? { SpineSize(w.root.value, w.shift / 5); }
    var c := Contents(v);
    assert v.tail == c[|c| - |v.tail|..];
    assert w.tail == c[|c| - |w.tail|..];
    assert v.root.Some? ==> Elems(v.root.value) == c[..|c| - |v.tail|];
    assert w.root.Some? ==> Elems(w.root.value) == c[..|c| - |w.tail|];
  }

  // ---------------------------------------------------------------- shape as a function of count

  /** The shape of a tree: every value replaced by zero. */
  function Erase(t: Tree): Tree {
    match t
    case Leaf(vals) => Leaf(Zeros(|vals|))
    case Inner(kids) => Inner(seq(|kids|, i requires 0 <= i < |kids| => Erase(kids[i])))
  }

  function Zeros(n: nat): (z: seq<Val>)
    ensures |z| == n && forall i :: 0 <= i < n ==> z[i] == 0
  {
    seq(n, _ => 0)
  }

  function Shape(v: Vec): Vec {
    v.(root := if v.root.None? then None else Some(Erase(v.root.value)), tail := Zeros(|v.tail|))
  }

  lemma {:induction false} EraseKeepsFull(t: Tree, d: nat)
    requires Full(t, d)
    ensures Full(Erase(t), d)
    decreases d
  {
    if d != 0 {
      forall i | 0 <= i < |t.kids| ensures Full(Erase(t.kids[i]), d - 1) { EraseKeepsFull(t.kids[i], d - 1); }
    }
  }

  lemma {:induction false} EraseKeepsSpine(t: Tree, d: nat)
    requires Spine(t, d)
    ensures Spine(Erase(t), d)
    decreases d
  {
    if d != 0 {
      var n := |t.kids| - 1;
      forall i | 0 <= i < n ensures Full(Erase(t.kids[i]), d - 1) {
        assert t.kids[..n][i] == t.kids[i];
        EraseKeepsFull(t.kids[i], d - 1);
      }
      EraseKeepsSpine(t.kids[n], d - 1);
      assert forall i :: 0 <= i < n ==> Erase(t).kids[..n][i] == Erase(t.kids[i]);
    }
  }

  lemma {:induction false} EraseElems(t: Tree)
    ensures Elems(Erase(t)) == Zeros(|Elems(t)|)
    decreases t, 1
  {
    match t
    case Leaf(_) =>
    case Inner(kids) => EraseFlatten(kids);
  }

  lemma {:induction false} EraseFlatten(kids: seq<Tree>)
    ensures Flatten(Erase(Inner(kids)).kids) == Zeros(|Flatten(kids)|)
    decreases kids, 0
  {
    if kids != [] {
      var n := |kids| - 1;
      EraseFlatten(kids[..n]);
      EraseElems(kids[n]);
      assert Erase(Inner(kids)).kids[..n] == Erase(Inner(kids[..n])).kids;
    }
  }

  /** Vectors of equal count have the same shift, the same tail length and trees of the same shape. */
  lemma ShapeIsFunctionOfCount(v: Vec, w: Vec)
    requires Canonical(v) && Canonical(w) && v.count == w.count
    ensures Shape(v) == Shape(w)
  {
    ShapeIsCanonical(v);
    ShapeIsCanonical(w);
    CanonicalIsUnique(Shape(v), Shape(w));
  }

  lemma ShapeIsCanonical(v: Vec)
    requires Canonical(v)
    ensures Canonical(Shape(v)) && Contents(Shape(v)) == Zeros(v.count)
  {
    if v.root.Some? {
      EraseKeepsSpine(v.root.value, v.shift / 5);
      EraseElems(v.root.value);
    }
  }

  // ---------------------------------------------------------------- equality

  /** PersistentVector_equals and PersistentVectorNode_equals: counts, then tails, then roots node by node. */
  predicate VecEquals(v: Vec, w: Vec) {
    && v.count == w.count
    && NodeEquals(Leaf(v.tail), Leaf(w.tail))
    && (BRANCHING < v.count ==> v.root.Some? && w.root.Some? && NodeEquals(v.root.value, w.root.value))
  }

  predicate NodeEquals(t: Tree, u: Tree) {
    match (t, u)
    case (Leaf(a), Leaf(b)) => |a| == |b| && forall i :: 0 <= i < |a| ==> a[i] == b[i]
    case (Inner(a), Inner(b)) => |a| == |b| && forall i :: 0 <= i < |a| ==> NodeEquals(a[i], b[i])
    case _ => false
  }

  lemma {:induction false} NodeEqualsIsEquality(t: Tree, u: Tree)
    ensures NodeEquals(t, u) <==> t == u
  {
    match (t, u)
    case (Inner(a), Inner(b)) =>
      if |a| == |b| {
        forall i | 0 <= i < |a| ensures NodeEquals(a[i], b[i]) <==> a[i] == b[i] { NodeEqualsIsEquality(a[i], b[i]); }
        assert (forall i :: 0 <= i < |a| ==> a[i] == b[i]) <==> a == b;
      }
    case (Leaf(a), Leaf(b)) => assert NodeEquals(t, u) <==> a == b;
    case _ =>
  }

  /** Comparing node by node decides equality of the elements. */
  lemma EqualsIsElementwise(v: Vec, w: Vec)
    requires Canonical(v) && Canonical(w)
    ensures VecEquals(v, w) <==> Contents(v) == Contents(w)
  {
    NodeEqualsIsEquality(Leaf(v.tail), Leaf(w.tail));
    if v.root.Some? { SpineSize(v.root.value, v.shift / 5); }
    if w.root.Some? { SpineSize(w.root.value, w.shift / 5); }
    if v.root.Some? && w.root.Some? { NodeEqualsIsEquality(v.root.value, w.root.value); }
    if Contents(v) == Contents(w) { CanonicalIsUnique(v, w); }
  }
}
