/** The chunked sequence over a vector (PersistentVectorChunkedSeq.c): a position that moves by one, by a
    block or by any number of elements, in place when the seq's reference count is one, else on a copy. */
module ChunkedSeqs {
  import opened Options
  import opened Shifts
  import opened VectorTree
  import opened VectorNodes
  import opened PersistentVector
  import opened VectorSeqs
  import Ops = VectorOps

  /** The position after `n` calls of next from position `i`: None once the end is reached. */
  function Nexts(count: nat, i: nat, n: nat): Option<nat>
    requires i < count
    decreases n
  {
    if n == 0 then Some(i)
    else if i + 1 < count then Nexts(count, i + 1, n - 1)
    else None
  }

  lemma {:induction false} NextsIsSum(count: nat, i: nat, n: nat)
    requires i < count
    ensures Nexts(count, i, n) == if i + n < count then Some(i + n) else None
    decreases n
  {
    if n != 0 && i + 1 < count { NextsIsSum(count, i + 1, n - 1); }
  }

  /** The position after the block that holds `i`. */
  function BlockEnd(count: nat, i: nat): (j: nat)
    requires i < count
    ensures i < j <= count
  {
    if i - i % BRANCHING + BRANCHING <= count then i - i % BRANCHING + BRANCHING else count
  }

  /** The elements from a position on, taking in the ones a block of the trie contributes. */
  lemma FoldBlock<A>(f: (A, Val) -> A, start: A, s: seq<Val>, from: nat, i: nat, block: seq<Val>)
    requires from <= i < |s| && Ops.IsBlock(s, i, block)
    ensures block[i % BRANCHING] == s[i]
    ensures Fold(f, start, s[from..i + 1]) == f(Fold(f, start, s[from..i]), block[i % BRANCHING])
  {
    FoldNext(f, start, s, from, i);
  }

  lemma RestOfBlock(p: Vector, v: Vec, i: nat, fp: set<Node>)
    requires Canonical(v) && p.Represents(v, fp) && i < v.count
    ensures var block := BlockNode(p, v, i, fp);
            i % BRANCHING < |block.vals| && i + (|block.vals| - i % BRANCHING) == BlockEnd(v.count, i)
    ensures BlockEnd(v.count, i) < v.count ==> BlockEnd(v.count, i) % BRANCHING == 0
  {
    hide Canonical, Contents, Ops.IsBlock, Ops.BlockFor, BlockEnd;
    Ops.BlockForSpec(v, i);
    assert |Contents(v)| == v.count by { CountIsLength(v); }
    BlockEndIs(Contents(v), i, Ops.BlockFor(v, i).value);
  }

  /** A block ends where the next multiple of 32 is, or with the sequence. */
  lemma BlockEndIs(s: seq<Val>, i: nat, block: seq<Val>)
    requires i < |s| && Ops.IsBlock(s, i, block)
    ensures i % BRANCHING < |block| && i + (|block| - i % BRANCHING) == BlockEnd(|s|, i)
    ensures BlockEnd(|s|, i) < |s| ==> BlockEnd(|s|, i) % BRANCHING == 0
  {
    var q := i / BRANCHING;
    assert i - i % BRANCHING == q * BRANCHING;
    assert (q * BRANCHING + BRANCHING) % BRANCHING == 0;
  }

  class ChunkedSeq {
    var it: Iterator

    constructor (it: Iterator)
      ensures this.it == it
    {
      this.it := it;
    }

    /** The seq stands at `position`, inside the vector `v`. */
    ghost predicate At(v: Vec, fp: set<Node>, position: nat)
      reads this, it, it.parent, fp
    {
      it.Valid(v, fp) && it.index == position < v.count
    }

    /** PersistentVectorChunkedSeq_next; null stands for nil. */
    method Next(isUnique: bool, ghost v: Vec, ghost fp: set<Node>, ghost i: nat)
      returns (r: ChunkedSeq?)
      requires At(v, fp, i)
      modifies if isUnique then {this} else {}
      ensures r == null <==> Nexts(v.count, i, 1).None?
      ensures r != null ==> r.At(v, fp, Nexts(v.count, i, 1).value) && r.it.parent == old(it.parent)
      ensures r != null ==> fresh(r.it) && if isUnique then r == this else fresh(r)
      ensures r == null ==> unchanged(this)
    {
      var next := new Iterator(it.index, it.blockIndex, it.block, it.parent);
      var _ := next.Next(v, fp);
      if next.parent.count <= next.index {
        return null;
      }
      assert Nexts(v.count, i, 1) == Some(i + 1);
      if isUnique {
        it := next;
        return this;
      }
      r := new ChunkedSeq(next);
    }

    /** The rest of the current block: the chunk that ArrayChunk_create makes of it. */
    method ChunkedFirst(ghost v: Vec, ghost fp: set<Node>, ghost i: nat)
      returns (chunk: seq<Val>)
      requires At(v, fp, i)
      ensures chunk == Contents(v)[i..BlockEnd(v.count, i)]
    {
      Ops.BlockForSpec(v, i);
      chunk := it.block.vals[it.blockIndex..];
    }

    method ChunkedNext(isUnique: bool, ghost v: Vec, ghost fp: set<Node>, ghost i: nat)
      returns (r: ChunkedSeq?)
      requires At(v, fp, i)
      modifies if isUnique then {it} else {}
      ensures r == null <==> BlockEnd(v.count, i) == v.count
      ensures r != null ==> r.At(v, fp, BlockEnd(v.count, i)) && r.it.parent == old(it.parent)
      ensures r != null ==> if isUnique then r == this else fresh(r) && fresh(r.it)
    {
      hide BlockEnd, Canonical, Contents, Holds, BlockNode, Ops.IsBlock;
      RestOfBlock(it.parent, v, i, fp);
      var remaining := |it.block.vals| - it.blockIndex;
      if isUnique {
        it.index := it.index + remaining;
        if it.parent.count <= it.index {
          return null;
        }
        it.block := NthBlock(it.parent, it.index, v, fp);
        it.blockIndex := 0;
        return this;
      }
      if it.parent.count <= it.index + remaining {
        return null;
      }
      var block := NthBlock(it.parent, it.index + remaining, v, fp);
      var next := new Iterator(it.index + remaining, 0, block, it.parent);
      r := new ChunkedSeq(next);
    }

    /** drop(n) ends where n calls of next end. */
    method Drop(n: int, isUnique: bool, ghost v: Vec, ghost fp: set<Node>, ghost i: nat)
      returns (r: ChunkedSeq?)
      requires At(v, fp, i)
      modifies if isUnique then {it} else {}
      ensures var p := Nexts(v.count, i, if n <= 0 then 0 else n);
              && (r == null <==> p.None?)
              && (r != null ==> r.At(v, fp, p.value) && r.it.parent == old(it.parent))
    {
      hide Canonical, Contents, Holds, BlockNode, Ops.IsBlock;
      NextsIsSum(v.count, i, if n <= 0 then 0 else n);
      if n <= 0 {
        return this;
      }
      if isUnique {
        it.index := it.index + n;
        if it.parent.count <= it.index {
          return null;
        }
        it.block := NthBlock(it.parent, it.index, v, fp);
        it.blockIndex := it.index % BRANCHING;
        return this;
      }
      if it.parent.count <= it.index + n {
        return null;
      }
      var block := NthBlock(it.parent, it.index + n, v, fp);
      var next := new Iterator(it.index + n, (it.index + n) % BRANCHING, block, it.parent);
      r := new ChunkedSeq(next);
    }

    /** Reduction from any position is the left fold of the remaining elements. */
    method Reduce<A>(f: (A, Val) -> A, start: A, ghost v: Vec, ghost fp: set<Node>)
      returns (acc: A)
      requires it.Valid(v, fp)
      ensures acc == if it.index < v.count then Fold(f, start, Contents(v)[it.index..]) else start
    {
      var p := it.parent;
      var startIdx := it.index;
      var tailStart := p.count - |p.tail.vals|;
      Ops.TailOffsetAligned(v);
      acc := ReduceBlocks(p, startIdx, tailStart, f, start, v, fp);
      if startIdx < p.count {
        var from := if startIdx < tailStart then 0 else startIdx - tailStart;
        acc := ReduceTail(p, from, f, acc, v, fp);
        ghost var c, mid := Contents(v), if startIdx < tailStart then tailStart else startIdx;
        assert c[startIdx..] == c[startIdx..mid] + c[mid..];
        assert c[mid..] == v.tail[from..];
        FoldConcat(f, start, c[startIdx..mid], c[mid..]);
      }
    }

    /** The first remaining element is the start value; with none, `f` is called without arguments. */
    method Reduce2(f: (Val, Val) -> Val, f0: Val, ghost v: Vec, ghost fp: set<Node>)
      returns (acc: Val)
      requires it.Valid(v, fp)
      modifies it
      ensures var c, i := Contents(v), old(it.index);
              acc == if i < |c| then Fold(f, c[i], c[i + 1..]) else f0
    {
      if it.parent.count <= it.index {
        return f0;
      }
      var first := it.Get(v, fp);
      var _ := it.Next(v, fp);
      if it.parent.count <= it.index {
        return first;
      }
      acc := Reduce(f, first, v, fp);
    }
  }

  /** The trie-resident blocks from `from` up to the tail. */
  method ReduceBlocks<A>(p: Vector, from: nat, tailStart: nat, f: (A, Val) -> A, start: A, ghost v: Vec,
                         ghost fp: set<Node>)
    returns (acc: A)
    requires Canonical(v) && p.Represents(v, fp) && tailStart == v.count - |v.tail| && tailStart % BRANCHING == 0
    ensures acc == if from < tailStart then Fold(f, start, Contents(v)[from..tailStart]) else start
  {
    ghost var c := Contents(v);
    assert |c| == v.count;
    hide Canonical, Fold, Contents, Ops.IsBlock, BlockNode;
    assert from <= tailStart ==> c[from..from] == [];
    acc := start;
    var i := from;
    while i < tailStart
      invariant from <= i && (from <= tailStart ==> i <= tailStart)
      invariant acc == if from < tailStart then Fold(f, start, c[from..i]) else start
      decreases tailStart - i
    {
      var node := NthBlock(p, i, v, fp);
      var blockEnd := i - i % BRANCHING + 32;
      var limit := if blockEnd < tailStart then blockEnd else tailStart;
      acc := ReduceBlock(node, i, limit, f, acc, c, from, start);
      i := limit;
    }
  }

  method ReduceBlock<A>(node: Node, first: nat, limit: nat, f: (A, Val) -> A, before: A,
                        ghost c: seq<Val>, ghost from: nat, ghost start: A)
    returns (acc: A)
    requires from <= first < limit <= |c| && limit <= first - first % BRANCHING + BRANCHING
    requires Ops.IsBlock(c, first, node.vals) && before == Fold(f, start, c[from..first])
    ensures acc == Fold(f, start, c[from..limit])
  {
    acc := before;
    for i := first to limit
      invariant acc == Fold(f, start, c[from..i])
    {
      InSameBlock(c, first, i, node.vals);
      FoldBlock(f, start, c, from, i, node.vals);
      acc := f(acc, node.vals[i % BRANCHING]);
    }
  }

  lemma InSameBlock(s: seq<Val>, i: nat, j: nat, block: seq<Val>)
    requires Ops.IsBlock(s, i, block) && i <= j < |s| && j < i - i % BRANCHING + BRANCHING
    ensures Ops.IsBlock(s, j, block)
  {
    assert j - j % BRANCHING == i - i % BRANCHING;
  }

  method ReduceTail<A>(p: Vector, from: nat, f: (A, Val) -> A, start: A, ghost v: Vec, ghost fp: set<Node>)
    returns (acc: A)
    requires Canonical(v) && p.Represents(v, fp) && from <= |v.tail|
    ensures acc == Fold(f, start, v.tail[from..])
  {
    acc := start;
    for j := from to |p.tail.vals|
      invariant acc == Fold(f, start, v.tail[from..j])
    {
      FoldNext(f, start, v.tail, from, j);
      acc := f(acc, p.tail.vals[j]);
    }
    assert v.tail[from..|v.tail|] == v.tail[from..];
  }

  /** The loop over an iterator that toString runs: every remaining element once, in order. */
  method Iterate(it: Iterator, ghost v: Vec, ghost fp: set<Node>)
    returns (out: seq<Val>)
    requires it.Valid(v, fp) && it.index <= v.count
    modifies it
    ensures out == Contents(v)[old(it.index)..]
  {
    assert |Contents(v)| == v.count;
    hide Canonical, Contents, BlockNode, Ops.BlockFor;
    out := [];
    ghost var from := it.index;
    while it.index < it.parent.count
      invariant it.Valid(v, fp) && from <= it.index <= v.count
      invariant out == Contents(v)[from..it.index]
      decreases v.count - it.index
    {
      var x := it.Get(v, fp);
      out := out + [x];
      var _ := it.Next(v, fp);
    }
  }

  /** chunkedFirst over repeated chunkedNext: the chunks together are the remaining elements, in order. */
  method AllChunks(s: ChunkedSeq, isUnique: bool, ghost v: Vec, ghost fp: set<Node>, ghost i: nat)
    returns (out: seq<Val>)
    requires s.At(v, fp, i)
    modifies if isUnique then {s.it} else {}
    ensures out == Contents(v)[i..]
  {
    SizeOf(v);
    hide Canonical, Contents, BlockNode, BlockEnd, Holds;
    out := [];
    ghost var at := i;
    var cur: ChunkedSeq? := s;
    while cur != null
      invariant i <= at <= v.count && out == Contents(v)[i..at]
      invariant cur == null ==> at == v.count
      invariant cur != null ==> cur.At(v, fp, at) && (if isUnique then cur == s else cur == s || fresh(cur))
      invariant s.it == old(s.it)
      decreases v.count - at, cur != null
    {
      var chunk := cur.ChunkedFirst(v, fp, at);
      out := out + chunk;
      cur := cur.ChunkedNext(isUnique, v, fp, at);
      JoinSlices(Contents(v), i, at, BlockEnd(v.count, at));
      at := BlockEnd(v.count, at);
    }
    assert Contents(v)[i..v.count] == Contents(v)[i..];
  }

  /** n calls of next end where drop(n) ends. */
  method NextTimes(s: ChunkedSeq, n: nat, isUnique: bool, ghost v: Vec, ghost fp: set<Node>, ghost i: nat)
    returns (r: ChunkedSeq?)
    requires s.At(v, fp, i)
    modifies if isUnique then {s} else {}
    ensures var p := Nexts(v.count, i, n);
            (r == null <==> p.None?) && (r != null ==> r.At(v, fp, p.value))
  {
    hide Canonical, Contents, BlockNode;
    NextsIsSum(v.count, i, n);
    r := s;
    for k := 0 to n
      invariant r == null ==> v.count <= i + k
      invariant r != null ==> r.At(v, fp, i + k) && (if isUnique then r == s else r == s || fresh(r))
    {
      if r != null {
        NextsIsSum(v.count, i + k, 1);
        r := r.Next(isUnique, v, fp, i + k);
      }
    }
  }

  lemma JoinSlices(s: seq<Val>, i: nat, j: nat, k: nat)
    requires i <= j <= k <= |s|
    ensures s[i..j] + s[j..k] == s[i..k]
  {
  }

  lemma SizeOf(v: Vec)
    requires Canonical(v)
    ensures |Contents(v)| == v.count
  {
  }

  /** PersistentVector_iterator. */
  method Start(p: Vector, ghost v: Vec, ghost fp: set<Node>)
    returns (it: Iterator)
    requires Canonical(v) && p.Represents(v, fp)
    ensures fresh(it) && it.parent == p && it.Valid(v, fp) && it.index == 0
  {
    var block: Node? := null;
    if 0 < p.count { block := NthBlock(p, 0, v, fp); }
    it := new Iterator(0, 0, block, p);
  }

  /** PersistentVector_reduce2. */
  method Reduce2(p: Vector, f: (Val, Val) -> Val, f0: Val, ghost v: Vec, ghost fp: set<Node>)
    returns (acc: Val)
    requires Canonical(v) && p.Represents(v, fp)
    ensures acc == if Contents(v) == [] then f0 else Fold(f, Contents(v)[0], Contents(v)[1..])
  {
    SizeOf(v);
    hide Canonical, Contents, Holds, BlockNode, Ops.IsBlock;
    if p.count == 0 {
      return f0;
    }
    var first := Nth(p, 0, v, fp);
    if p.count == 1 {
      return first.value;
    }
    var it := StartSecond(p, v, fp);
    var s := new ChunkedSeq(it);
    acc := s.Reduce(f, first.value, v, fp);
  }

  /** An iterator at index 1 of a vector with two elements or more. */
  method StartSecond(p: Vector, ghost v: Vec, ghost fp: set<Node>)
    returns (it: Iterator)
    requires Canonical(v) && p.Represents(v, fp) && 1 < v.count
    ensures fresh(it) && it.parent == p && it.Valid(v, fp) && it.index == 1
  {
    hide Canonical, Contents, Holds, BlockNode, Ops.IsBlock;
    it := Start(p, v, fp);
    NextInBlock(p, v, 0, fp);
    it.index := 1;
    if it.blockIndex < |it.block.vals| - 1 {
      it.blockIndex := it.blockIndex + 1;
    } else {
      assert false;  // with two elements or more, the first block has a second one
    }
  }
}
