/** Lookup, iteration and membership over a vector, and what a fold is: all of them visit the elements in index
    order (PersistentVector.c, PersistentVectorIterator.c, PersistentVectorChunkedSeq.c). */
module VectorSeqs {
  import opened Options
  import opened Shifts
  import opened VectorTree
  import opened VectorNodes
  import opened PersistentVector
  import Ops = VectorOps

  // ---------------------------------------------------------------- lookup

  /** The leaf or tail object that holds an index. */
  ghost function BlockNode(p: Vector, v: Vec, index: nat, fp: set<Node>): (block: Node)
    requires Canonical(v) && p.Represents(v, fp) && index < v.count
    reads p, fp
    ensures Holds(block, 0, Leaf(Ops.BlockFor(v, index).value), fp)
  {
    if v.count - |v.tail| <= index then p.tail
    else
      Ops.InTree(v, index);
      LeafNode(p.root, v.shift / 5, v.root.value, index, fp)
  }

  /** From `node`, of depth `d`, the index leads to `leaf`. */
  ghost predicate Leads(node: Node, d: nat, t: Tree, index: nat, fp: set<Node>, leaf: Node)
    reads fp
  {
    && Spine(t, d) && index % Power(d + 1) < |Elems(t)| && Holds(node, d, t, fp)
    && LeafNode(node, d, t, index, fp) == leaf
  }

  /** One masked shift. */
  method Down(node: Node, level: nat, index: nat, ghost d: nat, ghost t: Tree, ghost fp: set<Node>, ghost leaf: Node)
    returns (kid: Node, ghost kt: Tree)
    requires level == 5 * d && 0 < d && Leads(node, d, t, index, fp, leaf)
    ensures Leads(kid, d - 1, kt, index, fp, leaf)
  {
    Ops.ChildHolds(t, d, index);
    kt := t.kids[Slot(index, 5 * d)];
    kid := node.kids[Slot(index, level)];
  }

  /** The switch for the levels 30 to 0, each case falling through to the next. */
  method DescendUnrolled(start: Node, level: nat, index: nat, ghost d: nat, ghost tree: Tree, ghost fp: set<Node>,
                         ghost leaf: Node)
    returns (node: Node)
    requires level == 5 * d && level <= 30 && Leads(start, d, tree, index, fp, leaf)
    ensures node == leaf
  {
    node := start;
    ghost var t := tree;
    hide Leads;
    if 30 <= level { node, t := Down(node, 30, index, 6, t, fp, leaf); }
    if 25 <= level { node, t := Down(node, 25, index, 5, t, fp, leaf); }
    if 20 <= level { node, t := Down(node, 20, index, 4, t, fp, leaf); }
    if 15 <= level { node, t := Down(node, 15, index, 3, t, fp, leaf); }
    if 10 <= level { node, t := Down(node, 10, index, 2, t, fp, leaf); }
    if 5 <= level { node, t := Down(node, 5, index, 1, t, fp, leaf); }
    Arrived(node, t, index, fp, leaf);
  }

  lemma Arrived(node: Node, t: Tree, index: nat, fp: set<Node>, leaf: Node)
    requires Leads(node, 0, t, index, fp, leaf)
    ensures node == leaf
  {
  }

  /** The default case. */
  method DescendLoop(start: Node, shift: nat, index: nat, ghost depth: nat, ghost tree: Tree, ghost fp: set<Node>,
                     ghost leaf: Node)
    returns (node: Node)
    requires shift == 5 * depth && Leads(start, depth, tree, index, fp, leaf)
    ensures node == leaf
  {
    hide Leads;
    node := start;
    var level := shift;
    ghost var d, t := depth, tree;
    while 0 < level
      invariant level == 5 * d && Leads(node, d, t, index, fp, leaf)
      decreases level
    {
      node, t := Down(node, level, index, d, t, fp, leaf);
      level, d := level - 5, d - 1;
    }
    Arrived(node, t, index, fp, leaf);
  }

  /** Null is the result for an index out of range. */
  method NthBlock(self: Vector, index: nat, ghost v: Vec, ghost fp: set<Node>)
    returns (r: Node?)
    requires Canonical(v) && self.Represents(v, fp)
    ensures r == null <==> v.count <= index
    ensures r != null ==> r == BlockNode(self, v, index, fp)
    ensures r != null ==> r in fp && r.leaf && Ops.IsBlock(Contents(v), index, r.vals)
  {
    Ops.BlockForSpec(v, index);
    if self.count <= index {
      return null;
    }
    var tailOffset := self.count - |self.tail.vals|;
    if tailOffset <= index {
      return self.tail;
    }
    Ops.InTree(v, index);
    ghost var d := v.shift / 5;
    ghost var leaf := BlockNode(self, v, index, fp);
    if self.shift in {0, 5, 10, 15, 20, 25, 30} {
      r := DescendUnrolled(self.root, self.shift, index, d, v.root.value, fp, leaf);
    } else {
      r := DescendLoop(self.root, self.shift, index, d, v.root.value, fp, leaf);
    }
  }

  /** None is the index error. */
  method Nth(self: Vector, index: nat, ghost v: Vec, ghost fp: set<Node>)
    returns (r: Option<Val>)
    requires Canonical(v) && self.Represents(v, fp)
    ensures r == if index < v.count then Some(Contents(v)[index]) else None
  {
    if self.count <= index {
      return None;
    }
    var tailOffset := self.count - |self.tail.vals|;
    if tailOffset <= index {
      return Some(self.tail.vals[index - tailOffset]);
    }
    var node := NthBlock(self, index, v, fp);
    r := Some(node.vals[index % BRANCHING]);
  }

  // ---------------------------------------------------------------- folds

  /** The left fold of `s` in index order. */
  function Fold<A>(f: (A, Val) -> A, acc: A, s: seq<Val>): A {
    if s == [] then acc else f(Fold(f, acc, s[..|s| - 1]), s[|s| - 1])
  }

  lemma {:induction false} FoldConcat<A>(f: (A, Val) -> A, acc: A, a: seq<Val>, b: seq<Val>)
    ensures Fold(f, acc, a + b) == Fold(f, Fold(f, acc, a), b)
    decreases |b|
  {
    if b == [] {
      assert a + b == a;
    } else {
      assert (a + b)[..|a + b| - 1] == a + b[..|b| - 1];
      FoldConcat(f, acc, a, b[..|b| - 1]);
    }
  }

  lemma FoldNext<A>(f: (A, Val) -> A, acc: A, s: seq<Val>, i: nat, j: nat)
    requires i <= j < |s|
    ensures Fold(f, acc, s[i..j + 1]) == f(Fold(f, acc, s[i..j]), s[j])
  {
    assert s[i..j + 1][..j - i] == s[i..j];
  }

  lemma OneMoreKid(kids: seq<Tree>, i: nat, x: Val)
    requires i < |kids|
    ensures x in Flatten(kids[..i + 1]) <==> x in Flatten(kids[..i]) || x in Elems(kids[i])
    ensures x in Elems(kids[i]) ==> x in Flatten(kids)
  {
    assert kids[..i + 1][..i] == kids[..i];
    assert kids == kids[..i + 1] + kids[i + 1..];
    Ops.FlattenConcat(kids[..i + 1], kids[i + 1..]);
  }

  /** PersistentVectorNode_contains: stops at the first hit. */
  method NodeContains(node: Node, x: Val, ghost d: nat, ghost t: Tree, ghost fp: set<Node>)
    returns (r: bool)
    requires Holds(node, d, t, fp)
    ensures r <==> x in Elems(t)
    decreases d
  {
    if node.leaf {
      for i := 0 to |node.vals|
        invariant x !in node.vals[..i]
      {
        if node.vals[i] == x { return true; }
      }
    } else {
      for i := 0 to |node.kids|
        invariant x !in Flatten(t.kids[..i])
      {
        OneMoreKid(t.kids, i, x);
        var hit := NodeContains(node.kids[i], x, d - 1, t.kids[i], fp);
        if hit { return true; }
      }
      assert t.kids[..|t.kids|] == t.kids;
    }
    return false;
  }

  method Contains(self: Vector, x: Val, ghost v: Vec, ghost fp: set<Node>)
    returns (r: bool)
    requires Canonical(v) && self.Represents(v, fp)
    ensures r <==> x in Contents(v)
  {
    if self.root != null {
      r := NodeContains(self.root, x, v.shift / 5, v.root.value, fp);
      if r { return true; }
    }
    r := NodeContains(self.tail, x, 0, Leaf(v.tail), fp);
  }

  // ---------------------------------------------------------------- iterator

  class Iterator {
    var index: nat
    var blockIndex: nat
    var block: Node?
    const parent: Vector

    constructor (index: nat, blockIndex: nat, block: Node?, parent: Vector)
      ensures this.index == index && this.blockIndex == blockIndex && this.block == block && this.parent == parent
    {
      this.index, this.blockIndex, this.block, this.parent := index, blockIndex, block, parent;
    }

    /** Where the iterator stands: inside the vector its fields are determined by the index; beyond the end
        it still holds the last block. */
    ghost predicate Valid(v: Vec, fp: set<Node>)
      reads this, parent, fp
    {
      && Canonical(v) && parent.Represents(v, fp)
      && (index < v.count ==> block == BlockNode(parent, v, index, fp) && blockIndex == index % BRANCHING)
      && (v.count <= index && 0 < v.count ==> block in fp && |block.vals| <= blockIndex)
    }

    method Get(ghost v: Vec, ghost fp: set<Node>)
      returns (r: Val)
      requires Valid(v, fp) && index < v.count
      ensures r == Contents(v)[index]
    {
      Ops.BlockForSpec(v, index);
      r := block.vals[blockIndex];
    }

    /** None is the null value that marks the end. */
    method Next(ghost v: Vec, ghost fp: set<Node>)
      returns (r: Option<Val>)
      requires Valid(v, fp) && 0 < v.count
      modifies this
      ensures Valid(v, fp) && index == old(index) + 1
      ensures r == if index < v.count then Some(Contents(v)[index]) else None
    {
      hide Canonical, Contents, Ops.BlockFor, Holds, BlockNode, Ops.IsBlock;
      if index < v.count { NextInBlock(parent, v, index, fp); }
      blockIndex, index := blockIndex + 1, index + 1;
      if blockIndex < |block.vals| {
        return Some(block.vals[blockIndex]);
      }
      if parent.count == index {
        return None;
      }
      var newBlock := NthBlock(parent, index, v, fp);
      if newBlock == null {
        return None;
      }
      assert index % BRANCHING == 0;
      blockIndex, block := 0, newBlock;
      r := Some(block.vals[0]);
    }
  }

  /** The next index is in the same block, or starts a new one, or is past the end. */
  lemma NextInBlock(p: Vector, v: Vec, index: nat, fp: set<Node>)
    requires Canonical(v) && p.Represents(v, fp) && index < v.count
    ensures var block := BlockNode(p, v, index, fp);
            && block in fp && index % BRANCHING < |block.vals|
            && block.vals[index % BRANCHING] == Contents(v)[index]
            && (index % BRANCHING + 1 < |block.vals| ==>
                  && index + 1 < v.count && BlockNode(p, v, index + 1, fp) == block
                  && block.vals[index % BRANCHING + 1] == Contents(v)[index + 1]
                  && (index + 1) % BRANCHING == index % BRANCHING + 1)
            && (index % BRANCHING + 1 == |block.vals| ==> index + 1 == v.count || (index + 1) % BRANCHING == 0)
  {
    hide Canonical, Contents, Ops.IsBlock, Ops.BlockFor;
    Ops.BlockForSpec(v, index);
    assert |Contents(v)| == v.count by { CountIsLength(v); }
    var block := BlockNode(p, v, index, fp);
    NextOf(Contents(v), index, block.vals);
    hide BlockNode;
    if index % BRANCHING + 1 < |block.vals| {
      SameBlock(p, v, index, index + 1, fp);
    }
  }

  /** An aligned block around an index: where the next index lies. */
  lemma NextOf(s: seq<Val>, i: nat, block: seq<Val>)
    requires i < |s| && Ops.IsBlock(s, i, block)
    ensures i % BRANCHING < |block| && block[i % BRANCHING] == s[i]
    ensures i % BRANCHING + 1 < |block| ==>
              && i + 1 < |s| && block[i % BRANCHING + 1] == s[i + 1]
              && (i + 1) % BRANCHING == i % BRANCHING + 1 && (i + 1) / BRANCHING == i / BRANCHING
    ensures i % BRANCHING + 1 == |block| ==> i + 1 == |s| || (i + 1) % BRANCHING == 0
  {
    var q, r := i / BRANCHING, i % BRANCHING;
    assert i == q * BRANCHING + r;
    if r + 1 < BRANCHING { DivModUnique(i + 1, BRANCHING, q, r + 1); } else { assert i + 1 == (q + 1) * BRANCHING; }
  }

  lemma CountIsLength(v: Vec)
    requires Canonical(v)
    ensures |Contents(v)| == v.count
  {
  }

  /** Indices with the same leading bits lie in the same block. */
  lemma SameBlock(p: Vector, v: Vec, i: nat, j: nat, fp: set<Node>)
    requires Canonical(v) && p.Represents(v, fp) && i <= j < v.count && i / BRANCHING == j / BRANCHING
    ensures BlockNode(p, v, i, fp) == BlockNode(p, v, j, fp)
  {
    hide Canonical, Spine, Holds, LeafNode;
    Ops.TailOffsetAligned(v);
    SameSide(i, j, v.count - |v.tail|);
    if j < v.count - |v.tail| {
      SameLeafOfRoot(p, v, i, j, fp);
    }
  }

  lemma SameSide(i: nat, j: nat, offset: int)
    requires i <= j && i / BRANCHING == j / BRANCHING && offset % BRANCHING == 0
    ensures i < offset <==> j < offset
  {
  }

  lemma SameLeafOfRoot(p: Vector, v: Vec, i: nat, j: nat, fp: set<Node>)
    requires Canonical(v) && p.Represents(v, fp) && i <= j < v.count - |v.tail| && i / BRANCHING == j / BRANCHING
    ensures BlockNode(p, v, i, fp) == BlockNode(p, v, j, fp)
  {
    hide Holds, LeafNode;
    Ops.InTree(v, i);
    Ops.InTree(v, j);
    SameLeaf(p.root, v.shift / 5, v.root.value, i, j, fp);
  }

  lemma {:induction false} SameLeaf(n: Node, d: nat, t: Tree, i: nat, j: nat, fp: set<Node>)
    requires Spine(t, d) && i % Power(d + 1) < |Elems(t)| && j % Power(d + 1) < |Elems(t)| && Holds(n, d, t, fp)
    requires i / BRANCHING == j / BRANCHING
    ensures LeafNode(n, d, t, i, fp) == LeafNode(n, d, t, j, fp)
    decreases d
  {
    if d != 0 {
      Ops.ChildHolds(t, d, i);
      Ops.ChildHolds(t, d, j);
      ShrFive(i, 5 * (d - 1));
      ShrFive(j, 5 * (d - 1));
      var k := Slot(i, 5 * d);
      SameLeaf(n.kids[k], d - 1, t.kids[k], i, j, fp);
    }
  }
}
