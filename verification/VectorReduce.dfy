/** reduce consumes its vector: nodes that nobody else refers to are freed as the fold leaves them
    (PersistentVector.c). No node is visited or freed after it was freed, and the other vectors keep theirs. */
module VectorReduce {
  import opened Options
  import opened VectorTree
  import opened VectorNodes
  import opened PersistentVector
  import opened VectorSeqs
  import Ops = VectorOps

  /** A place that can refer to a node. */
  datatype Slot = Child(parent: Node, i: nat) | Root(v: Vector) | Tail(v: Vector)

  /** `s` is a place in one of the vectors and nodes, and refers to `n`. */
  ghost predicate Live(older s: Slot, n: Node, vectors: set<Vector>, nodes: set<Node>)
    reads vectors, nodes
  {
    match s
    case Child(p, i) => p in nodes && i < |p.kids| && p.kids[i] == n
    case Root(v) => v in vectors && v.root == n
    case Tail(v) => v in vectors && v.tail == n
  }

  ghost predicate Sole(ones: set<Node>, vectors: set<Vector>, nodes: set<Node>)
    reads vectors, nodes
  {
    forall n, s, s' :: n in ones && Live(s, n, vectors, nodes) && Live(s', n, vectors, nodes) ==> s == s'
  }

  /** `counts` says which nodes have a reference count of one once some nodes are freed: at most one place outside
      the freed nodes refers to such a node. */
  ghost predicate Counted(counts: set<Node> -> set<Node>, vectors: set<Vector>, nodes: set<Node>)
    reads vectors, nodes
  {
    forall freed :: freed <= nodes ==> Sole(counts(freed), vectors, nodes - freed)
  }

  /** The nodes of a tree that are reached through nodes in `nodes` alone. */
  ghost function TreeNodes(n: Node, d: nat, nodes: set<Node>): (ns: set<Node>)
    reads nodes
    ensures n in nodes ==> n in ns
    decreases d, 0
  {
    if n !in nodes then {} else {n} + if d == 0 then {} else KidNodes(n.kids, d - 1, nodes)
  }

  ghost function KidNodes(kids: seq<Node>, d: nat, nodes: set<Node>): set<Node>
    reads nodes
    decreases d, 1 + |kids|
  {
    if kids == [] then {} else KidNodes(kids[..|kids| - 1], d, nodes) + TreeNodes(kids[|kids| - 1], d, nodes)
  }

  /** They are the nodes of all the children. */
  lemma {:induction false} KidNodesAre(kids: seq<Node>, d: nat, nodes: set<Node>, all: set<Node>)
    ensures KidNodes(kids, d, nodes) <= all <==> forall i :: 0 <= i < |kids| ==> TreeNodes(kids[i], d, nodes) <= all
  {
    hide TreeNodes;
    if kids != [] {
      var n := |kids| - 1;
      KidNodesAre(kids[..n], d, nodes, all);
      if KidNodes(kids, d, nodes) <= all {
        forall i | 0 <= i < |kids| ensures TreeNodes(kids[i], d, nodes) <= all {
          if i < n { assert kids[..n][i] == kids[i]; }
        }
      }
      if forall i :: 0 <= i < |kids| ==> TreeNodes(kids[i], d, nodes) <= all {
        assert forall i :: 0 <= i < n ==> kids[..n][i] == kids[i];
        assert TreeNodes(kids[n], d, nodes) <= all;
      }
    }
  }

  /** Whatever has been freed, these nodes have a count of one. */
  ghost predicate AllOnes(counts: set<Node> -> set<Node>, ns: set<Node>, nodes: set<Node>)
    reads nodes
  {
    forall freed :: freed <= nodes ==> ns <= counts(freed)
  }

  /** Of the places outside the freed nodes only the spent ones refer to a freed node. */
  ghost predicate Clean(freed: set<Node>, spent: set<Slot>, vectors: set<Vector>, nodes: set<Node>)
    reads vectors, nodes
  {
    forall s, n :: n in freed && Live(s, n, vectors, nodes - freed) ==> s in spent
  }

  /** Node `x` is the top of a tree of depth `d` at most. */
  ghost predicate Low(x: Node, d: nat, nodes: set<Node>)
    reads nodes
  {
    exists e: nat, u :: e <= d && Spine(u, e) && Holds(x, e, u, nodes)
  }

  ghost predicate AllAbove(spent: set<Slot>, d: nat, nodes: set<Node>)
    reads nodes
  {
    forall s :: s in spent && s.Child? ==> !Low(s.parent, d, nodes)
  }

  lemma NotLow(n: Node, d: nat, t: Tree, nodes: set<Node>)
    requires 0 < d && Spine(t, d) && Holds(n, d, t, nodes)
    ensures !Low(n, d - 1, nodes)
  {
    if Low(n, d - 1, nodes) {
      var e: nat, u :| e <= d - 1 && Spine(u, e) && Holds(n, e, u, nodes);
      DepthIsUnique(n, d, t, e, u, nodes);
      assert false;
    }
  }

  /** The first `i` places of a node. */
  ghost function Slots(n: Node, i: nat): set<Slot> {
    set j: nat | j < i :: Child(n, j)
  }

  /** A child the fold comes to has not been freed. */
  lemma ChildIsThere(n: Node, i: nat, d: nat, t: Tree, freed: set<Node>, spent: set<Slot>, vectors: set<Vector>,
                     nodes: set<Node>)
    requires Holds(n, d, t, nodes) && Spine(t, d) && n !in freed && i < |n.kids|
    requires Clean(freed, spent + Slots(n, i), vectors, nodes) && AllAbove(spent, d, nodes)
    ensures n.kids[i] !in freed
  {
    assert Low(n, d, nodes);
    assert n in nodes;
    assert Live(Child(n, i), n.kids[i], vectors, nodes - freed);
  }

  lemma AboveChildren(n: Node, d: nat, spent: set<Slot>, nodes: set<Node>)
    requires 0 < d && AllAbove(spent, d, nodes) && !Low(n, d - 1, nodes)
    ensures forall i: nat :: AllAbove(spent + Slots(n, i), d - 1, nodes)
  {
    forall i: nat, s | s in spent + Slots(n, i) && s.Child?
      ensures !Low(s.parent, d - 1, nodes)
    {
      assert Low(s.parent, d - 1, nodes) ==> Low(s.parent, d, nodes);
    }
  }

  /** A node freed with a count of one was referred to from this place alone. */
  lemma PlaceIsSpent(place: Slot, n: Node, freed: set<Node>, freed': set<Node>, counts: set<Node> -> set<Node>,
                     spent: set<Slot>, vectors: set<Vector>, nodes: set<Node>)
    requires Counted(counts, vectors, nodes) && Live(place, n, vectors, nodes - freed) && freed <= freed' <= nodes
    requires n in freed' ==> n in counts(freed)
    requires forall s, x :: x in freed' && x != n && Live(s, x, vectors, nodes - freed') ==> s in spent
    ensures Clean(freed', spent + {place}, vectors, nodes)
  {
    forall s, x | x in freed' && Live(s, x, vectors, nodes - freed')
      ensures s in spent + {place}
    {
      if x == n {
        assert Sole(counts(freed), vectors, nodes - freed);
        assert Live(s, x, vectors, nodes - freed);
      }
    }
  }

  /** Folding the elements of one leaf. */
  method FoldLeaf<A>(vals: seq<Val>, f: (A, Val) -> A, start: A) returns (acc: A)
    ensures acc == Fold(f, start, vals)
  {
    acc := start;
    for i := 0 to |vals|
      invariant acc == Fold(f, start, vals[0..i])
    {
      FoldNext(f, start, vals, 0, i);
      acc := f(acc, vals[i]);
    }
    assert vals[0..|vals|] == vals;
  }

  /** PersistentVectorNode_reduce: a node is there when it is visited, and freed at the end when the fold has its
      only reference. */
  method ReduceNode<A>(node: Node, f: (A, Val) -> A, start: A, reusable: bool, counts: set<Node> -> set<Node>,
                       before: set<Node>, ghost spent: set<Slot>, ghost d: nat, ghost t: Tree,
                       ghost vectors: set<Vector>, ghost nodes: set<Node>, ghost ones: set<Node>)
    returns (acc: A, freed: set<Node>)
    requires Holds(node, d, t, nodes) && Spine(t, d) && Counted(counts, vectors, nodes)
    requires before <= nodes && node !in before && Clean(before, spent, vectors, nodes) && AllAbove(spent, d, nodes)
    requires ones <= nodes && AllOnes(counts, ones, nodes)
    ensures acc == Fold(f, start, Elems(t))
    ensures before <= freed <= nodes && (node in freed <==> reusable) && (!reusable ==> freed == before)
    ensures forall x :: x in freed && x !in before ==> Low(x, d, nodes)
    ensures forall s, x :: x in freed && x != node && Live(s, x, vectors, nodes - freed) ==> s in spent
    ensures reusable ==> TreeNodes(node, d, ones) <= freed
    decreases d, 1
  {
    hide Counted, KidNodes, AllOnes, TreeNodes;
    assert Low(node, d, nodes);
    NodesOf(node, d, t, nodes, ones);
    if node.leaf {
      acc := FoldLeaf(node.vals, f, start);
      freed := before;
    } else {
      acc, freed := ReduceKids(node, f, start, reusable, counts, before, spent, d, t, vectors, nodes, ones);
      assert forall x :: Low(x, d - 1, nodes) ==> Low(x, d, nodes);
      KidNodesAre(node.kids, d - 1, ones, freed);
    }
    hide Low, Clean;
    if reusable { freed := freed + {node}; }
  }

  /** The loop over the children. Those that were freed are no longer referred to from anywhere else. */
  method ReduceKids<A>(node: Node, f: (A, Val) -> A, start: A, reusable: bool, counts: set<Node> -> set<Node>,
                       before: set<Node>, ghost spent: set<Slot>, ghost d: nat, ghost t: Tree,
                       ghost vectors: set<Vector>, ghost nodes: set<Node>, ghost ones: set<Node>)
    returns (acc: A, freed: set<Node>)
    requires Holds(node, d, t, nodes) && Spine(t, d) && 0 < d && Counted(counts, vectors, nodes)
    requires before <= nodes && node !in before && Clean(before, spent, vectors, nodes) && AllAbove(spent, d, nodes)
    requires ones <= nodes && AllOnes(counts, ones, nodes)
    ensures acc == Fold(f, start, Elems(t))
    ensures before <= freed <= nodes && node !in freed && (!reusable ==> freed == before)
    ensures forall x :: x in freed && x !in before ==> Low(x, d - 1, nodes)
    ensures Clean(freed, spent + Slots(node, |node.kids|), vectors, nodes)
    ensures reusable ==> forall i :: 0 <= i < |node.kids| ==> TreeNodes(node.kids[i], d - 1, ones) <= freed
    decreases d, 0
  {
    hide Counted, Clean, Low, AllAbove, Spine, Live, Slots;
    acc, freed := start, before;
    NotLow(node, d, t, nodes);
    AboveChildren(node, d, spent, nodes);
    NoSlots(node, spent);
    for i := 0 to |node.kids|
      invariant acc == Fold(f, start, Flatten(t.kids[..i]))
      invariant before <= freed <= nodes && node !in freed && (!reusable ==> freed == before)
      invariant forall x :: x in freed && x !in before ==> Low(x, d - 1, nodes)
      invariant Clean(freed, spent + Slots(node, i), vectors, nodes)
      invariant reusable ==> forall j :: 0 <= j < i ==> TreeNodes(node.kids[j], d - 1, ones) <= freed
    {
      assert ones <= counts(freed);
      var child, was := node.kids[i], freed;
      ChildIsThere(node, i, d, t, freed, spent, vectors, nodes);
      Ops.ChildIsSpine(t, d, i);
      var childReusable := reusable && child in counts(freed);
      acc, freed := ReduceNode(child, f, acc, childReusable, counts, freed, spent + Slots(node, i), d - 1, t.kids[i],
        vectors, nodes, ones);
      OutsideOnes(child, d - 1, ones);
      PlaceIsSpent(Child(node, i), child, was, freed, counts, spent + Slots(node, i), vectors, nodes);
      NextSlot(node, i, spent);
      FoldConcat(f, start, Flatten(t.kids[..i]), Elems(t.kids[i]));
      assert t.kids[..i + 1][..i] == t.kids[..i];
    }
    assert t.kids[..|t.kids|] == t.kids;
  }

  /** The nodes of a vector that are reached through nodes in `nodes` alone. */
  ghost function VectorNodesOf(p: Vector, v: Vec, nodes: set<Node>): set<Node>
    reads p, nodes
  {
    {p.tail} * nodes + if p.root == null then {} else TreeNodes(p.root, v.shift / 5, nodes)
  }

  /** PersistentVector_reduce: one left fold of the elements. What it frees, only its own vector referred to. */
  method Reduce<A>(self: Vector, f: (A, Val) -> A, start: A, reusable: bool, counts: set<Node> -> set<Node>,
                   ghost v: Vec, ghost vectors: set<Vector>, ghost nodes: set<Node>, ghost ones: set<Node>)
    returns (acc: A, freed: set<Node>)
    requires Canonical(v) && self in vectors && self.Represents(v, nodes) && Counted(counts, vectors, nodes)
    requires ones <= nodes && AllOnes(counts, ones, nodes)
    ensures acc == Fold(f, start, Contents(v))
    ensures freed <= nodes && (!reusable ==> freed == {})
    ensures reusable && self.root != null && self.root in counts({}) ==> self.root in freed
    ensures reusable ==> VectorNodesOf(self, v, ones) <= freed
    ensures Clean(freed, {Root(self), Tail(self)}, vectors, nodes)
  {
    hide Counted, Spine, Clean, Live;
    ghost var elems: seq<Val> := if self.root == null then [] else Elems(v.root.value);
    acc, freed := ReduceRoot(self, f, start, reusable, counts, v, vectors, nodes, ones);
    TailIsThere(self, freed, vectors, nodes);
    acc := FoldLeaf(self.tail.vals, f, acc);
    FoldConcat(f, start, elems, v.tail);
    var tailReusable := reusable && self.tail in counts(freed);
    FreeTail(self, freed, counts, tailReusable, vectors, nodes);
    if tailReusable { freed := freed + {self.tail}; }
  }

  method ReduceRoot<A>(self: Vector, f: (A, Val) -> A, start: A, reusable: bool, counts: set<Node> -> set<Node>,
                       ghost v: Vec, ghost vectors: set<Vector>, ghost nodes: set<Node>, ghost ones: set<Node>)
    returns (acc: A, freed: set<Node>)
    requires Canonical(v) && self in vectors && self.Represents(v, nodes) && Counted(counts, vectors, nodes)
    requires ones <= nodes && AllOnes(counts, ones, nodes)
    ensures acc == Fold(f, start, if v.root.None? then [] else Elems(v.root.value))
    ensures freed <= nodes && (!reusable ==> freed == {})
    ensures reusable && self.root != null && self.root in counts({}) ==> self.root in freed
    ensures reusable && self.root != null ==> TreeNodes(self.root, v.shift / 5, ones) <= freed
    ensures Clean(freed, {Root(self)}, vectors, nodes)
  {
    hide Counted, Spine;
    acc, freed := start, {};
    if self.root != null {
      var rootReusable := reusable && self.root in counts(freed);
      acc, freed := ReduceNode(self.root, f, acc, rootReusable, counts, freed, {}, v.shift / 5, v.root.value,
        vectors, nodes, ones);
      OutsideOnes(self.root, v.shift / 5, ones);
      PlaceIsSpent(Root(self), self.root, {}, freed, counts, {}, vectors, nodes);
    }
  }

  lemma FreeTail(self: Vector, freed: set<Node>, counts: set<Node> -> set<Node>, tailReusable: bool,
                 vectors: set<Vector>, nodes: set<Node>)
    requires self in vectors && self.tail in nodes && freed <= nodes && Counted(counts, vectors, nodes)
    requires Clean(freed, {Root(self)}, vectors, nodes) && (tailReusable ==> self.tail in counts(freed))
    ensures var all := if tailReusable then freed + {self.tail} else freed;
            Clean(all, {Root(self), Tail(self)}, vectors, nodes)
  {
    hide Counted;
    if tailReusable {
      PlaceIsSpent(Tail(self), self.tail, freed, freed + {self.tail}, counts, {Root(self)}, vectors, nodes);
      assert {Root(self)} + {Tail(self)} == {Root(self), Tail(self)};
    }
  }

  lemma NoSlots(n: Node, spent: set<Slot>)
    ensures spent + Slots(n, 0) == spent
  {
  }

  lemma NextSlot(n: Node, i: nat, spent: set<Slot>)
    ensures spent + Slots(n, i) + {Child(n, i)} == spent + Slots(n, i + 1)
  {
  }

  lemma OutsideOnes(n: Node, d: nat, ones: set<Node>)
    ensures n !in ones ==> TreeNodes(n, d, ones) == {}
  {
  }

  lemma NodesOf(n: Node, d: nat, t: Tree, nodes: set<Node>, ones: set<Node>)
    requires Holds(n, d, t, nodes) && ones <= nodes
    ensures TreeNodes(n, d, ones)
            == if n !in ones then {} else {n} + if n.leaf then {} else KidNodes(n.kids, d - 1, ones)
  {
  }

  lemma TailIsThere(self: Vector, freed: set<Node>, vectors: set<Vector>, nodes: set<Node>)
    requires self in vectors && Clean(freed, {Root(self)}, vectors, nodes)
    ensures self.tail !in freed
  {
    assert Live(Tail(self), self.tail, vectors, nodes - freed);
  }

  /** Every other vector keeps its value in the nodes that remain. */
  lemma ReduceSparesOthers(self: Vector, other: Vector, v: Vec, freed: set<Node>, vectors: set<Vector>,
                           nodes: set<Node>)
    requires Clean(freed, {Root(self), Tail(self)}, vectors, nodes)
    requires other in vectors && other != self && other.Represents(v, nodes)
    ensures other.Represents(v, nodes - freed)
  {
    assert Live(Tail(other), other.tail, vectors, nodes - freed);
    if other.root != null {
      assert Live(Root(other), other.root, vectors, nodes - freed);
      TreeRemains(other.root, v.shift / 5, v.root.value, freed, {Root(self), Tail(self)}, vectors, nodes);
    }
  }

  lemma {:induction false} TreeRemains(n: Node, d: nat, t: Tree, freed: set<Node>, spent: set<Slot>,
                                       vectors: set<Vector>, nodes: set<Node>)
    requires Holds(n, d, t, nodes) && n !in freed && Clean(freed, spent, vectors, nodes)
    requires forall s :: s in spent ==> !s.Child?
    ensures Holds(n, d, t, nodes - freed)
    decreases d
  {
    if d != 0 {
      forall i | 0 <= i < |n.kids| ensures Holds(n.kids[i], d - 1, t.kids[i], nodes - freed) {
        assert Live(Child(n, i), n.kids[i], vectors, nodes - freed);
        TreeRemains(n.kids[i], d - 1, t.kids[i], freed, spent, vectors, nodes);
      }
    }
  }
}
