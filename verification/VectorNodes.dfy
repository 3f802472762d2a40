/** The nodes of the trie as objects that several vectors may share (PersistentVectorNode.c). Each operation
    has a path that copies and a path that writes in place, and both are proved against the value-level
    operation of VectorOps. */
module VectorNodes {
  import opened Options
  import opened Shifts
  import opened VectorTree
  import Ops = VectorOps

  class Node {
    const leaf: bool
    var vals: seq<Val>
    var kids: seq<Node>
    var transientID: nat

    constructor (leaf: bool, vals: seq<Val>, kids: seq<Node>, transientID: nat)
      ensures this.leaf == leaf && this.vals == vals && this.kids == kids && this.transientID == transientID
    {
      this.leaf, this.vals, this.kids, this.transientID := leaf, vals, kids, transientID;
    }
  }

  /** What the reuse tests look at: whether reuse is still allowed on the way down, which nodes have a
      reference count of one, and the vector's transient id (zero when persistent). */
  datatype Mode = Mode(allowed: bool, unique: set<Node>, transientID: nat) {

    /** The test of replacePath and pushTail. */
    predicate Reuses(n: Node)
      reads n
    {
      allowed && (n in unique || n.transientID == transientID)
    }

    /** The test of popTail, where id zero does not match. */
    predicate ReusesForPop(n: Node)
      reads n
    {
      allowed && (n in unique || (n.transientID != 0 && n.transientID == transientID))
    }

    predicate Test(n: Node, pop: bool)
      reads n
    {
      if pop then ReusesForPop(n) else Reuses(n)
    }

    function Below(yes: bool): Mode {
      this.(allowed := yes)
    }
  }

  // ---------------------------------------------------------------- abstraction

  /** Node `n` represents tree `t` of depth `d`, all of whose nodes are in `fp`. */
  ghost predicate Holds(n: Node, d: nat, t: Tree, fp: set<Node>)
    reads fp
    decreases d
  {
    && n in fp
    && (if d == 0 then t.Leaf? && n.leaf && n.vals == t.vals
        else
          && t.Inner? && !n.leaf && |n.kids| == |t.kids|
          && forall i :: 0 <= i < |n.kids| ==> Holds(n.kids[i], d - 1, t.kids[i], fp))
  }

  lemma {:induction false} HoldsGrows(n: Node, d: nat, t: Tree, fp: set<Node>, more: set<Node>)
    requires Holds(n, d, t, fp) && fp <= more
    ensures Holds(n, d, t, more)
    decreases d
  {
    if d != 0 {
      forall i | 0 <= i < |n.kids| ensures Holds(n.kids[i], d - 1, t.kids[i], more) {
        HoldsGrows(n.kids[i], d - 1, t.kids[i], fp, more);
      }
    }
  }

  /** A node represents one tree at each depth. */
  lemma {:induction false} HoldsIsFunctional(n: Node, d: nat, t: Tree, u: Tree, fp: set<Node>, fp': set<Node>)
    requires Holds(n, d, t, fp) && Holds(n, d, u, fp')
    ensures t == u
    decreases d
  {
    if d != 0 {
      forall i | 0 <= i < |n.kids| ensures t.kids[i] == u.kids[i] {
        HoldsIsFunctional(n.kids[i], d - 1, t.kids[i], u.kids[i], fp, fp');
      }
    }
  }

  /** A node represents trees of one depth only, so one tree. */
  lemma {:induction false} DepthIsUnique(n: Node, d: nat, t: Tree, e: nat, u: Tree, fp: set<Node>)
    requires Holds(n, d, t, fp) && Spine(t, d) && Holds(n, e, u, fp) && Spine(u, e)
    ensures d == e && t == u
    decreases d
  {
    if d != 0 {
      Ops.ChildIsSpine(t, d, 0);
      Ops.ChildIsSpine(u, e, 0);
      DepthIsUnique(n.kids[0], d - 1, t.kids[0], e - 1, u.kids[0], fp);
    }
    HoldsIsFunctional(n, d, t, u, fp, fp);
  }

  // ---------------------------------------------------------------- exclusive ownership along a path

  /** Like Holds, with exclusive ownership of the nodes `w` that are written in place. The path takes child
      `path[e]` at depth `e`; of its nodes, those at a depth in `hot` that pass the reuse test are written.
      A written node is reached from nowhere else in the tree. */
  ghost predicate Route(n: Node, d: nat, t: Tree, path: seq<nat>, hot: set<nat>, fp: set<Node>, w: set<Node>,
                        mode: Mode, pop: bool)
    requires d < |path|
    reads fp
    decreases d
  {
    && n in fp
    && (n in w <==> mode.Test(n, pop) && d in hot)
    && (if d == 0 then t.Leaf? && n.leaf && n.vals == t.vals
        else
          && t.Inner? && !n.leaf && |n.kids| == |t.kids|
          && (forall i :: 0 <= i < |n.kids| && i != path[d] ==> Holds(n.kids[i], d - 1, t.kids[i], fp - w))
          && (path[d] < |n.kids| ==>
                Route(n.kids[path[d]], d - 1, t.kids[path[d]], path, hot, fp - ({n} * w), w - {n},
                      mode.Below(mode.Test(n, pop)), pop)))
  }

  lemma {:induction false} RouteHolds(n: Node, d: nat, t: Tree, path: seq<nat>, hot: set<nat>, fp: set<Node>,
                                      w: set<Node>, mode: Mode, pop: bool)
    requires d < |path| && Route(n, d, t, path, hot, fp, w, mode, pop)
    ensures Holds(n, d, t, fp)
    decreases d
  {
    if d != 0 {
      forall i | 0 <= i < |n.kids| ensures Holds(n.kids[i], d - 1, t.kids[i], fp) {
        if i == path[d] {
          RouteHolds(n.kids[i], d - 1, t.kids[i], path, hot, fp - ({n} * w), w - {n},
            mode.Below(mode.Test(n, pop)), pop);
          HoldsGrows(n.kids[i], d - 1, t.kids[i], fp - ({n} * w), fp);
        } else {
          HoldsGrows(n.kids[i], d - 1, t.kids[i], fp - w, fp);
        }
      }
    }
  }

  lemma RouteStep(n: Node, d: nat, t: Tree, path: seq<nat>, hot: set<nat>, fp: set<Node>, w: set<Node>,
                  mode: Mode, pop: bool)
    requires 0 < d < |path| && Route(n, d, t, path, hot, fp, w, mode, pop) && path[d] < |t.kids|
    ensures !n.leaf && |n.kids| == |t.kids| && path[d] < |n.kids|
    ensures forall i :: 0 <= i < |n.kids| && i != path[d] ==> Holds(n.kids[i], d - 1, t.kids[i], fp - w)
    ensures Route(n.kids[path[d]], d - 1, t.kids[path[d]], path, hot, fp - ({n} * w), w - {n},
                  mode.Below(mode.Test(n, pop)), pop)
    ensures fp - ({n} * w) - (w - {n}) == fp - w
    ensures n in fp && (n in w <==> mode.Test(n, pop) && d in hot)
  {
  }

  /** Without reuse nothing is written, and no ownership is asked for. */
  lemma {:induction false} CopyingNeedsNoOwnership(n: Node, d: nat, t: Tree, path: seq<nat>, hot: set<nat>,
                                                   fp: set<Node>, mode: Mode, pop: bool)
    requires d < |path| && Holds(n, d, t, fp) && !mode.allowed
    ensures Route(n, d, t, path, hot, fp, {}, mode, pop)
    decreases d
  {
    if d != 0 {
      var none: set<Node> := {};
      assert fp - none == fp && fp - ({n} * none) == fp && none - {n} == none;
      if path[d] < |n.kids| {
        CopyingNeedsNoOwnership(n.kids[path[d]], d - 1, t.kids[path[d]], path, hot, fp,
          mode.Below(mode.Test(n, pop)), pop);
      }
    }
  }

  // ---------------------------------------------------------------- what is written, and what thereby changes

  /** The nodes that are written: on the path, at a hot depth, down to the first that fails the reuse test. */
  ghost function Written(n: Node, d: nat, path: seq<nat>, hot: set<nat>, fp: set<Node>, mode: Mode): (w: set<Node>)
    requires d < |path|
    reads fp
    ensures w <= fp
    decreases d
  {
    if n !in fp || !mode.Reuses(n) then {}
    else
      (if d in hot then {n} else {}) +
      (if 0 < d && path[d] < |n.kids| then Written(n.kids[path[d]], d - 1, path, hot, fp, mode) else {})
  }

  /** The nodes of a path, from the top down to depth `low`, that have a reference count of one or carry the vector's
      id, up to the first that does neither; `zero` says whether the id zero of persistent vectors counts. */
  ghost function Reused(n: Node, d: nat, path: seq<nat>, low: nat, fp: set<Node>, unique: set<Node>, id: nat,
                        zero: bool): (w: set<Node>)
    requires d < |path|
    reads fp
    ensures w <= fp
    decreases d
  {
    if n !in fp || d < low || !(n in unique || (n.transientID == id && (zero || id != 0))) then {}
    else
      {n} + if 0 < d && path[d] < |n.kids|
            then Reused(n.kids[path[d]], d - 1, path, low, fp, unique, id, zero) else {}
  }

  /** The nodes `w` of a path occur nowhere else in the tree. */
  ghost predicate Exclusive(n: Node, d: nat, t: Tree, path: seq<nat>, fp: set<Node>, w: set<Node>)
    requires d < |path|
    reads fp
    decreases d
  {
    && Holds(n, d, t, fp)
    && (0 < d ==>
          && (forall i :: 0 <= i < |n.kids| && i != path[d] ==> Holds(n.kids[i], d - 1, t.kids[i], fp - w))
          && (path[d] < |n.kids| ==>
                Exclusive(n.kids[path[d]], d - 1, t.kids[path[d]], path, fp - ({n} * w), w - {n})))
  }

  lemma {:induction false} NothingIsExclusive(n: Node, d: nat, t: Tree, path: seq<nat>, fp: set<Node>)
    requires d < |path| && Holds(n, d, t, fp)
    ensures Exclusive(n, d, t, path, fp, {})
    decreases d
  {
    var none: set<Node> := {};
    assert fp - none == fp && fp - ({n} * none) == fp && none - {n} == none;
    if 0 < d && path[d] < |n.kids| { NothingIsExclusive(n.kids[path[d]], d - 1, t.kids[path[d]], path, fp); }
  }

  lemma {:induction false} ReusedShrinks(n: Node, d: nat, t: Tree, path: seq<nat>, low: nat, fp: set<Node>,
                                         more: set<Node>, unique: set<Node>, id: nat, zero: bool)
    requires d < |path| && Holds(n, d, t, fp) && fp <= more
    ensures Reused(n, d, path, low, more, unique, id, zero) == Reused(n, d, path, low, fp, unique, id, zero)
    decreases d
  {
    if 0 < d && path[d] < |n.kids| {
      ReusedShrinks(n.kids[path[d]], d - 1, t.kids[path[d]], path, low, fp, more, unique, id, zero);
    }
  }

  /** Exclusive ownership of the reused nodes is what replacePath and popTail need. */
  lemma {:induction false} ExclusiveRoute(n: Node, d: nat, t: Tree, path: seq<nat>, hot: set<nat>, low: nat,
                                          fp: set<Node>, w: set<Node>, mode: Mode, pop: bool)
    requires d < |path| && Exclusive(n, d, t, path, fp, w) && forall e :: 0 <= e <= d ==> (e in hot <==> low <= e)
    requires w == if mode.allowed then Reused(n, d, path, low, fp, mode.unique, mode.transientID, !pop) else {}
    ensures Route(n, d, t, path, hot, fp, w, mode, pop)
    decreases d
  {
    if 0 < d && path[d] < |n.kids| {
      var kid, kt, below := n.kids[path[d]], t.kids[path[d]], fp - ({n} * w);
      var mode' := mode.Below(mode.Test(n, pop));
      ReusedShrinks(kid, d - 1, kt, path, low, below, fp, mode.unique, mode.transientID, !pop);
      if d < low { NothingReused(kid, d - 1, path, low, fp, mode.unique, mode.transientID, !pop); }
      assert w - {n} == if mode'.allowed
                        then Reused(kid, d - 1, path, low, below, mode.unique, mode.transientID, !pop) else {};
      ExclusiveRoute(kid, d - 1, kt, path, hot, low, below, w - {n}, mode', pop);
    }
  }

  lemma NothingReused(n: Node, d: nat, path: seq<nat>, low: nat, fp: set<Node>, unique: set<Node>, id: nat, zero: bool)
    requires d < |path| && d < low
    ensures Reused(n, d, path, low, fp, unique, id, zero) == {}
  {
  }

  lemma {:induction false} NothingBelow(n: Node, d: nat, path: seq<nat>, hot: set<nat>, fp: set<Node>, mode: Mode)
    requires d < |path| && forall e :: 0 <= e <= d ==> e !in hot
    ensures Written(n, d, path, hot, fp, mode) == {}
    decreases d
  {
    if n in fp && 0 < d && path[d] < |n.kids| { NothingBelow(n.kids[path[d]], d - 1, path, hot, fp, mode); }
  }

  /** What replacePath and pushTail write: the reused nodes of the path, the id zero counting like any other. */
  lemma {:induction false} WrittenIsReused(n: Node, d: nat, path: seq<nat>, hot: set<nat>, low: nat, fp: set<Node>,
                                           mode: Mode)
    requires d < |path| && forall e :: 0 <= e <= d ==> (e in hot <==> low <= e)
    ensures Written(n, d, path, hot, fp, mode)
            == if mode.allowed then Reused(n, d, path, low, fp, mode.unique, mode.transientID, true) else {}
    decreases d
  {
    if d < low {
      NothingBelow(n, d, path, hot, fp, mode);
    } else if n in fp && 0 < d && path[d] < |n.kids| {
      WrittenIsReused(n.kids[path[d]], d - 1, path, hot, low, fp, mode);
    }
  }

  /** A node and the depth it is at. */
  datatype Place = Place(node: Node, depth: nat)

  /** The deepest written node. Those above it are stored into, but get back the child they had. */
  ghost function Pivot(n: Node, d: nat, path: seq<nat>, hot: set<nat>, fp: set<Node>, mode: Mode): (r: Option<Place>)
    requires d < |path|
    reads fp
    ensures r.Some? ==> r.value.depth <= d && r.value.depth in hot && n in fp && mode.Reuses(n)
    decreases d
  {
    if n !in fp || !mode.Reuses(n) then None
    else
      var below := if 0 < d && path[d] < |n.kids| then Pivot(n.kids[path[d]], d - 1, path, hot, fp, mode) else None;
      if below.Some? then below else if d in hot then Some(Place(n, d)) else None
  }

  lemma {:induction false} PivotShrinks(n: Node, d: nat, t: Tree, path: seq<nat>, hot: set<nat>, fp: set<Node>,
                                        w: set<Node>, mode: Mode, more: set<Node>)
    requires d < |path| && Route(n, d, t, path, hot, fp, w, mode, false) && fp <= more
    ensures Pivot(n, d, path, hot, more, mode) == Pivot(n, d, path, hot, fp, mode)
    decreases d
  {
    if 0 < d && path[d] < |n.kids| && mode.Reuses(n) {
      var kid, kt, below := n.kids[path[d]], t.kids[path[d]], fp - ({n} * w);
      assert mode.Below(mode.Test(n, false)) == mode;
      PivotShrinks(kid, d - 1, kt, path, hot, below, w - {n}, mode, more);
      PivotShrinks(kid, d - 1, kt, path, hot, below, w - {n}, mode, fp);
    }
  }

  /** The path leads from `n`, at depth `d`, to `m` at depth `k`. */
  ghost predicate Walk(n: Node, d: nat, path: seq<nat>, k: nat, m: Node, fp: set<Node>)
    requires d < |path|
    reads fp
    decreases d
  {
    && n in fp
    && (if d <= k then d == k && n == m
        else path[d] < |n.kids| && Walk(n.kids[path[d]], d - 1, path, k, m, fp))
  }

  lemma {:induction false} WalkGrows(n: Node, d: nat, path: seq<nat>, k: nat, m: Node, fp: set<Node>, more: set<Node>)
    requires d < |path| && Walk(n, d, path, k, m, fp) && fp <= more
    ensures Walk(n, d, path, k, m, more)
    decreases d
  {
    if k < d { WalkGrows(n.kids[path[d]], d - 1, path, k, m, fp, more); }
  }

  /** From a node the path leads to itself, and to wherever it leads from the child it takes. */
  lemma WalkStep(n: Node, d: nat, path: seq<nat>, below: Option<Place>, fp: set<Node>, part: set<Node>)
    requires d < |path| && n in fp && part <= fp
    requires below.Some? ==> && below.value.depth < d && path[d] < |n.kids|
                             && Walk(n.kids[path[d]], d - 1, path, below.value.depth, below.value.node, part)
    ensures var p := if below.Some? then below.value else Place(n, d); Walk(n, d, path, p.depth, p.node, fp)
  {
    if below.Some? { WalkGrows(n.kids[path[d]], d - 1, path, below.value.depth, below.value.node, part, fp); }
  }

  /** The path leads to the deepest written node. */
  lemma {:induction false} PivotWalk(n: Node, d: nat, path: seq<nat>, hot: set<nat>, fp: set<Node>, mode: Mode)
    requires d < |path| && Pivot(n, d, path, hot, fp, mode).Some?
    ensures var p := Pivot(n, d, path, hot, fp, mode).value; Walk(n, d, path, p.depth, p.node, fp)
    decreases d
  {
    if 0 < d && path[d] < |n.kids| && Pivot(n.kids[path[d]], d - 1, path, hot, fp, mode).Some? {
      PivotWalk(n.kids[path[d]], d - 1, path, hot, fp, mode);
    }
  }

  /** From every written node the path goes on to the deepest. */
  ghost predicate LeadsToPivot(m: Node, path: seq<nat>, fp: set<Node>, p: Place)
    reads fp
  {
    exists e: nat, u :: e < |path| && Spine(u, e) && Holds(m, e, u, fp) && Walk(m, e, path, p.depth, p.node, fp)
  }

  lemma {:induction false} WrittenLeadToPivot(n: Node, d: nat, t: Tree, path: seq<nat>, hot: set<nat>, fp: set<Node>,
                                              mode: Mode)
    requires d < |path| && Spine(t, d) && Holds(n, d, t, fp)
    ensures var w, p := Written(n, d, path, hot, fp, mode), Pivot(n, d, path, hot, fp, mode);
            if p.None? then w == {}
            else p.value.node in w && forall m :: m in w ==> LeadsToPivot(m, path, fp, p.value)
    decreases d
  {
    var p := Pivot(n, d, path, hot, fp, mode);
    if 0 < d && path[d] < |n.kids| {
      Ops.ChildIsSpine(t, d, path[d]);
      WrittenLeadToPivot(n.kids[path[d]], d - 1, t.kids[path[d]], path, hot, fp, mode);
    }
    if p.Some? {
      PivotWalk(n, d, path, hot, fp, mode);
      assert LeadsToPivot(n, path, fp, p.value);
    }
  }

  lemma {:induction false} WalkEndsInside(n: Node, d: nat, t: Tree, path: seq<nat>, k: nat, m: Node, fp: set<Node>,
                                          part: set<Node>)
    requires d < |path| && Walk(n, d, path, k, m, fp) && Holds(n, d, t, part)
    ensures m in part
    decreases d
  {
    if k < d { WalkEndsInside(n.kids[path[d]], d - 1, t.kids[path[d]], path, k, m, fp, part); }
  }

  /** A tree that makes do without the deepest written node makes do without all of them. */
  lemma {:induction false} NeedsPivot(n: Node, d: nat, t: Tree, fp: set<Node>, w: set<Node>, path: seq<nat>,
                                      own: set<Node>, p: Place)
    requires (0 < d ==> Spine(t, d)) && Holds(n, d, t, fp - {p.node})
    requires forall m :: m in w ==> LeadsToPivot(m, path, own, p)
    ensures Holds(n, d, t, fp - w)
    decreases d
  {
    if n in w {
      var e: nat, u :| e < |path| && Spine(u, e) && Holds(n, e, u, own) && Walk(n, e, path, p.depth, p.node, own);
      HoldsGrows(n, d, t, fp - {p.node}, fp + own);
      HoldsGrows(n, e, u, own, fp + own);
      if 0 < d { DepthIsUnique(n, d, t, e, u, fp + own); }
      WalkEndsInside(n, d, t, path, p.depth, p.node, own, fp - {p.node});
    }
    if d != 0 {
      forall i | 0 <= i < |n.kids| ensures Holds(n.kids[i], d - 1, t.kids[i], fp - w) {
        Ops.ChildIsSpine(t, d, i);
        NeedsPivot(n.kids[i], d - 1, t.kids[i], fp, w, path, own, p);
      }
    }
  }

  /** The subtree at depth `k` on a path. */
  ghost function Sub(t: Tree, d: nat, path: seq<nat>, k: nat): Tree
    requires d < |path|
    decreases d
  {
    if d <= k || t.Leaf? || |t.kids| <= path[d] then t else Sub(t.kids[path[d]], d - 1, path, k)
  }

  lemma {:induction false} WalkHolds(n: Node, d: nat, t: Tree, path: seq<nat>, k: nat, m: Node, fp: set<Node>)
    requires d < |path| && Walk(n, d, path, k, m, fp) && Holds(n, d, t, fp)
    ensures Holds(m, k, Sub(t, d, path, k), fp)
    decreases d
  {
    if k < d { WalkHolds(n.kids[path[d]], d - 1, t.kids[path[d]], path, k, m, fp); }
  }

  /** Of the nodes in `w`, only the pivot may have changed. */
  twostate predicate OnlyPivotChanged(w: set<Node>, pivot: Option<Place>)
    reads w
  {
    forall n :: n in w && !(pivot.Some? && pivot.value.node == n) ==> n.kids == old(n.kids) && n.vals == old(n.vals)
  }

  // ---------------------------------------------------------------- replacePath

  ghost predicate IndexPath(d: nat, index: nat, path: seq<nat>) {
    d < |path| && forall e :: 0 <= e <= d ==> path[e] == Slot(index, 5 * e)
  }

  /** The leaf object an index leads to. */
  ghost function LeafNode(n: Node, d: nat, t: Tree, index: nat, fp: set<Node>): (leaf: Node)
    requires Spine(t, d) && index % Power(d + 1) < |Elems(t)| && Holds(n, d, t, fp)
    reads fp
    ensures Holds(leaf, 0, Ops.LeafFor(t, d, index), fp)
    decreases d
  {
    if d == 0 then n
    else
      var i := Slot(index, 5 * d);
      Ops.ChildHolds(t, d, index);
      LeafNode(n.kids[i], d - 1, t.kids[i], index, fp)
  }

  /** A node whose children represent the children of `t`, except that child `i` represents `k`. */
  lemma Exchanged(n: Node, d: nat, t: Tree, i: nat, k: Tree, rest: set<Node>, below: set<Node>, all: set<Node>)
    requires 0 < d && t.Inner? && !n.leaf && |n.kids| == |t.kids| && i < |n.kids| && n in all
    requires forall j :: 0 <= j < |n.kids| && j != i ==> Holds(n.kids[j], d - 1, t.kids[j], rest)
    requires Holds(n.kids[i], d - 1, k, below)
    requires rest <= all && below <= all
    ensures Holds(n, d, Inner(t.kids[i := k]), all)
  {
    forall j | 0 <= j < |n.kids| ensures Holds(n.kids[j], d - 1, t.kids[i := k][j], all) {
      if j == i {
        HoldsGrows(n.kids[j], d - 1, k, below, all);
      } else {
        HoldsGrows(n.kids[j], d - 1, t.kids[j], rest, all);
      }
    }
  }

  lemma ReplaceStep(n: Node, d: nat, t: Tree, index: nat, other: Val, path: seq<nat>, hot: set<nat>, fp: set<Node>,
                    w: set<Node>, mode: Mode)
    requires 0 < d && Spine(t, d) && index % Power(d + 1) < |Elems(t)| && IndexPath(d, index, path)
    requires Route(n, d, t, path, hot, fp, w, mode, false) && d in hot
    ensures var i := path[d];
            && t.Inner? && !n.leaf && i < |n.kids| == |t.kids|
            && Spine(t.kids[i], d - 1) && index % Power(d) < |Elems(t.kids[i])|
            && Route(n.kids[i], d - 1, t.kids[i], path, hot, fp - ({n} * w), w - {n}, mode.Below(mode.Reuses(n)), false)
            && Ops.ReplacePath(t, d, index, other)
               == Inner(t.kids[i := Ops.ReplacePath(t.kids[i], d - 1, index, other)])
            && var q := Pivot(n.kids[i], d - 1, path, hot, fp - ({n} * w), mode.Below(mode.Reuses(n)));
               Pivot(n, d, path, hot, fp, mode) ==
               if !mode.Reuses(n) then None else if q.Some? then q else Some(Place(n, d))
    ensures forall i :: 0 <= i < |n.kids| && i != path[d] ==> Holds(n.kids[i], d - 1, t.kids[i], fp - w)
    ensures n in fp && (n in w <==> mode.Reuses(n))
    ensures d < |path| && IndexPath(d - 1, index, path) && path[d] == Slot(index, 5 * d)
  {
    var i := path[d];
    Ops.ChildHolds(t, d, index);
    RouteStep(n, d, t, path, hot, fp, w, mode, false);
    assert mode.Reuses(n) ==> mode.Below(mode.Reuses(n)) == mode;
    PivotShrinks(n.kids[i], d - 1, t.kids[i], path, hot, fp - ({n} * w), w - {n}, mode.Below(mode.Reuses(n)), fp);
  }

  /** A reused node comes back itself; only the pivot changes, and the path still leads to it. */
  method ReplacePath(self: Node, level: nat, index: nat, other: Val, mode: Mode, ghost d: nat, ghost t: Tree,
                     ghost path: seq<nat>, ghost hot: set<nat>, ghost fp: set<Node>, ghost w: set<Node>)
    returns (r: Node, ghost added: set<Node>)
    requires level == 5 * d && Spine(t, d) && index % Power(d + 1) < |Elems(t)|
    requires IndexPath(d, index, path) && (forall e :: 0 <= e <= d ==> e in hot)
    requires Route(self, d, t, path, hot, fp, w, mode, false)
    modifies w
    ensures fresh(added)
    ensures Holds(r, d, Ops.ReplacePath(t, d, index, other), fp + added)
    ensures if old(mode.Reuses(self)) then r == self else fresh(r)
    ensures r.transientID == old(self.transientID)
    ensures var p := old(Pivot(self, d, path, hot, fp, mode));
            OnlyPivotChanged(w, p) && (p.Some? ==> Walk(self, d, path, p.value.depth, p.value.node, fp))
    decreases d, 1
  {
    if self.leaf {
      r, added := SetLeaf(self, Slot(index, level), other, mode.Reuses(self), mode);
    } else {
      r, added := ReplaceInner(self, level, index, other, mode, d, t, path, hot, fp, w);
    }
  }

  method ReplaceInner(self: Node, level: nat, index: nat, other: Val, mode: Mode, ghost d: nat, ghost t: Tree,
                      ghost path: seq<nat>, ghost hot: set<nat>, ghost fp: set<Node>, ghost w: set<Node>)
    returns (r: Node, ghost added: set<Node>)
    requires level == 5 * d && 0 < d && Spine(t, d) && index % Power(d + 1) < |Elems(t)|
    requires IndexPath(d, index, path) && (forall e :: 0 <= e <= d ==> e in hot)
    requires Route(self, d, t, path, hot, fp, w, mode, false)
    modifies w
    ensures fresh(added)
    ensures Holds(r, d, Ops.ReplacePath(t, d, index, other), fp + added)
    ensures if old(mode.Reuses(self)) then r == self else fresh(r)
    ensures r.transientID == old(self.transientID)
    ensures var p := old(Pivot(self, d, path, hot, fp, mode));
            OnlyPivotChanged(w, p) && (p.Some? ==> Walk(self, d, path, p.value.depth, p.value.node, fp))
    decreases d, 0
  {
    hide Route, Spine, Power, Slot, Ops.ReplacePath, Elems, Pivot, Holds, Walk, IndexPath;
    var i := Slot(index, level);
    var reusable := mode.Reuses(self);
    ghost var s := {self} * w;
    ReplaceStep(self, d, t, index, other, path, hot, fp, w, mode);
    ghost var q := Pivot(self.kids[i], d - 1, path, hot, fp - s, mode.Below(reusable));
    var kid, more := ReplacePath(self.kids[i], level - 5, index, other, mode.Below(reusable),
      d - 1, t.kids[i], path, hot, fp - s, w - {self});
    r, added := Relink(self, i, kid, reusable, d, t, Ops.ReplacePath(t.kids[i], d - 1, index, other), fp, w, more);
    if reusable { WalkStep(self, d, path, q, fp, fp - s); }
  }

  /** The changed subtree takes the place of child `i`, in place or in a copy. */
  method Relink(self: Node, i: nat, subtree: Node, reusable: bool, ghost d: nat, ghost t: Tree, ghost k: Tree,
                ghost fp: set<Node>, ghost w: set<Node>, ghost more: set<Node>)
    returns (r: Node, ghost added: set<Node>)
    requires 0 < d && t.Inner? && !self.leaf && |self.kids| == |t.kids| && i < |t.kids| && self in fp
    requires forall j :: 0 <= j < |t.kids| && j != i ==> Holds(self.kids[j], d - 1, t.kids[j], fp - w)
    requires Holds(subtree, d - 1, k, fp - ({self} * w) + more) && self !in more
    requires reusable ==> self in w
    modifies if reusable then {self} else {}
    ensures more <= added && fresh(added - more)
    ensures reusable ==> r == self && self.kids == old(self.kids)[i := subtree] && self.vals == old(self.vals)
    ensures !reusable ==> fresh(r)
    ensures r.transientID == old(self.transientID)
    ensures Holds(r, d, Inner(t.kids[i := k]), fp + added)
  {
    if reusable {
      self.kids := self.kids[i := subtree];
      r, added := self, more;
    } else {
      r := new Node(false, self.vals, self.kids[i := subtree], self.transientID);
      added := more + {r};
    }
    Exchanged(r, d, t, i, k, fp - w, fp - ({self} * w) + more, fp + added);
  }

  method SetLeaf(self: Node, i: nat, other: Val, reusable: bool, mode: Mode)
    returns (r: Node, ghost added: set<Node>)
    requires self.leaf
    modifies if reusable then {self} else {}
    ensures fresh(added) && r.leaf && r in added + {self}
    ensures r.vals == if i < |old(self.vals)| then old(self.vals)[i := other] else old(self.vals)
    ensures if reusable then r == self && added == {} && self.kids == old(self.kids) else fresh(r)
    ensures r.transientID == old(self.transientID)
  {
    r, added := self, {};
    if !reusable {
      r := new Node(true, self.vals, self.kids, self.transientID);
      added := {r};
    }
    if i < |self.vals| {
      r.vals := r.vals[i := other];
    }
  }

  // ---------------------------------------------------------------- pushTail

  ghost predicate LastPath(t: Tree, d: nat, path: seq<nat>)
    requires Spine(t, d)
  {
    d < |path| && (0 < d ==> path[d] == |t.kids| - 1 && LastPath(t.kids[|t.kids| - 1], d - 1, path))
  }

  /** The depths at which pushing a tail writes in place: where the last child still has room below it. */
  ghost predicate PushWrites(t: Tree, d: nat, hot: set<nat>)
    requires Spine(t, d)
  {
    && (d in hot <==> 1 < d && !Full(t.kids[|t.kids| - 1], d - 1))
    && (0 < d ==> PushWrites(t.kids[|t.kids| - 1], d - 1, hot))
  }

  /** Where something is written below, so it is here, and there is room. */
  lemma {:induction false} HotIsUpper(t: Tree, d: nat, hot: set<nat>, e: nat)
    requires Spine(t, d) && PushWrites(t, d, hot) && e <= d && e in hot
    ensures d in hot && 1 < e && !Full(t, d)
    decreases d
  {
    if e < d { HotIsUpper(t.kids[|t.kids| - 1], d - 1, hot, e); }
    Ops.FullByKids(t, d);
  }

  lemma PushPivotStep(n: Node, d: nat, t: Tree, path: seq<nat>, hot: set<nat>, fp: set<Node>, w: set<Node>, mode: Mode)
    requires Spine(t, d) && 0 < d && LastPath(t, d, path) && PushWrites(t, d, hot)
    requires Route(n, d, t, path, hot, fp, w, mode, false)
    ensures path[d] < |n.kids|
    ensures var q := Pivot(n.kids[path[d]], d - 1, path, hot, fp - ({n} * w), mode.Below(mode.Reuses(n)));
            && (q.Some? ==> d in hot && 1 < d && q.value.depth < d && mode.Reuses(n))
            && Pivot(n, d, path, hot, fp, mode) ==
               if !mode.Reuses(n) then None else if q.Some? then q else if d in hot then Some(Place(n, d)) else None
  {
    var i, mode' := path[d], mode.Below(mode.Reuses(n));
    RouteStep(n, d, t, path, hot, fp, w, mode, false);
    PivotShrinks(n.kids[i], d - 1, t.kids[i], path, hot, fp - ({n} * w), w - {n}, mode', fp);
    var q := Pivot(n.kids[i], d - 1, path, hot, fp, mode');
    assert mode.Reuses(n) ==> mode' == mode;
    if q.Some? { HotIsUpper(t, d, hot, q.value.depth); }
  }

  /** A node whose children represent `kids` and one more. */
  lemma Appended(n: Node, d: nat, kids: seq<Tree>, k: Tree, rest: set<Node>, below: set<Node>, all: set<Node>)
    requires 0 < d && !n.leaf && |n.kids| == |kids| + 1 && n in all
    requires forall j :: 0 <= j < |kids| ==> Holds(n.kids[j], d - 1, kids[j], rest)
    requires Holds(n.kids[|kids|], d - 1, k, below)
    requires rest <= all && below <= all
    ensures Holds(n, d, Inner(kids + [k]), all)
  {
    forall j | 0 <= j < |n.kids| ensures Holds(n.kids[j], d - 1, (kids + [k])[j], all) {
      if j == |kids| {
        HoldsGrows(n.kids[j], d - 1, k, below, all);
      } else {
        HoldsGrows(n.kids[j], d - 1, kids[j], rest, all);
      }
    }
  }

  /** What pushing makes of the last child; below level 10 there is no entry to descend into. */
  ghost function KidPush(t: Tree, tl: Tree, d: nat): (Tree, bool)
    requires Spine(t, d) && 0 < d
  {
    if d <= 1 then (tl, false) else Ops.PushTail(t.kids[|t.kids| - 1], tl, d - 1, false)
  }

  lemma PushStep(t: Tree, tl: Tree, d: nat, top: bool, path: seq<nat>, hot: set<nat>)
    requires Spine(t, d) && 0 < d && Full(tl, 0) && LastPath(t, d, path) && PushWrites(t, d, hot)
    ensures var last := t.kids[|t.kids| - 1];
            var (k, kCopied), (rt, copied) := KidPush(t, tl, d), Ops.PushTail(t, tl, d, top);
            && Spine(last, d - 1) && LastPath(last, d - 1, path) && PushWrites(last, d - 1, hot)
            && t.Inner? && 0 < |t.kids| && d < |path| && path[d] == |t.kids| - 1
            && (kCopied <==> d in hot)
            && KidPush(t, tl, d) == (if d <= 1 then (tl, false) else Ops.PushTail(last, tl, d - 1, false))
            && copied == (kCopied || |t.kids| < BRANCHING)
            && rt == (if kCopied then Inner(t.kids[|t.kids| - 1 := k])
                      else if copied then Inner(t.kids + [k])
                      else if top then Inner([t, Inner([k])]) else Inner([k]))
  {
    if 1 < d { Ops.PushTailSpec(t.kids[|t.kids| - 1], tl, d - 1, false); }
  }

  /** Everything one level of pushTail relies on. */
  lemma PushReady(self: Node, d: nat, t: Tree, tl: Tree, top: bool, path: seq<nat>, hot: set<nat>, fp: set<Node>,
                  w: set<Node>, mode: Mode)
    requires Spine(t, d) && 0 < d && tl.Leaf? && |tl.vals| == BRANCHING && LastPath(t, d, path) && PushWrites(t, d, hot)
    requires Route(self, d, t, path, hot, fp, w, mode, false)
    ensures t.Inner? && 0 < |t.kids| == |self.kids| && !self.leaf && self in fp && d < |path| && path[d] == |t.kids| - 1
    ensures self in w <==> mode.Reuses(self) && d in hot
    ensures var n, s := |t.kids| - 1, {self} * w;
            && Spine(t.kids[n], d - 1) && LastPath(t.kids[n], d - 1, path) && PushWrites(t.kids[n], d - 1, hot)
            && Route(self.kids[n], d - 1, t.kids[n], path, hot, fp - s, w - {self},
                     mode.Below(mode.Reuses(self)), false)
            && fp - s - (w - {self}) == fp - w
            && Holds(self, d, t, fp)
            && (forall i :: 0 <= i < |t.kids| && i != n ==> Holds(self.kids[i], d - 1, t.kids[i], fp - w))
            && var q := Pivot(self.kids[n], d - 1, path, hot, fp - s, mode.Below(mode.Reuses(self)));
               && (q.Some? ==> d in hot && 1 < d && q.value.depth < d && mode.Reuses(self))
               && Pivot(self, d, path, hot, fp, mode) ==
                  if !mode.Reuses(self) then None
                  else if q.Some? then q
                  else if d in hot then Some(Place(self, d)) else None
    ensures var (n, (k, kCopied), (rt, copied)) := (|t.kids| - 1, KidPush(t, tl, d), Ops.PushTail(t, tl, d, top));
            && (kCopied <==> d in hot)
            && (k, kCopied) == (if d <= 1 then (tl, false) else Ops.PushTail(t.kids[n], tl, d - 1, false))
            && copied == (kCopied || |t.kids| < BRANCHING)
            && rt == (if kCopied then Inner(t.kids[n := k])
                      else if copied then Inner(t.kids + [k])
                      else if top then Inner([t, Inner([k])]) else Inner([k]))
  {
    assert Full(tl, 0);
    hide Full, Elems, Flatten, Pivot, Holds, Route, PushWrites, Ops.PushTail;
    PushStep(t, tl, d, top, path, hot);
    RouteHolds(self, d, t, path, hot, fp, w, mode, false);
    RouteStep(self, d, t, path, hot, fp, w, mode, false);
    PushPivotStep(self, d, t, path, hot, fp, w, mode);
  }

  /** `parent` is null exactly at the root. */
  method PushTail(parent: Node?, self: Node?, tail: Node, level: int, mode: Mode, ghost d: nat, ghost t: Tree,
                  ghost tl: Tree, ghost path: seq<nat>, ghost hot: set<nat>, ghost fp: set<Node>, ghost w: set<Node>)
    returns (r: Node, copied: bool, ghost added: set<Node>)
    requires tl.Leaf? && |tl.vals| == BRANCHING && Holds(tail, 0, tl, fp - w)
    requires self != null ==>
               && level == 5 * d && Spine(t, d) && LastPath(t, d, path) && PushWrites(t, d, hot)
               && Route(self, d, t, path, hot, fp, w, mode, false)
               && (d == 0 ==> parent == null)
    modifies w
    ensures fresh(added)
    ensures !copied ==> unchanged(w)
    ensures self == null ==> r == tail && !copied && added == {}
    ensures self != null ==>
              var (rt, yes) := Ops.PushTail(t, tl, d, parent == null);
              copied == yes && Holds(r, if !copied && parent == null then d + 1 else d, rt, fp + added)
    ensures self != null ==> r.transientID == if copied then old(self.transientID) else mode.transientID
    ensures self != null ==>
              var p := old(Pivot(self, d, path, hot, fp, mode));
              && OnlyPivotChanged(w, p)
              && (p.Some? ==> r == self && Walk(self, d, path, p.value.depth, p.value.node, fp))
    decreases d, 1
  {
    if self == null {
      return tail, false, {};
    }
    if self.leaf {
      r := new Node(false, [], [self, tail], mode.transientID);
      added := {r};
      assert r.kids[1] == tail;
      HoldsGrows(tail, 0, tl, fp - w, fp + added);
      return r, false, added;
    }
    r, copied, added := PushInner(parent, self, tail, level, mode, d, t, tl, path, hot, fp, w);
  }

  method PushInner(parent: Node?, self: Node, tail: Node, level: int, mode: Mode, ghost d: nat, ghost t: Tree,
                   ghost tl: Tree, ghost path: seq<nat>, ghost hot: set<nat>, ghost fp: set<Node>, ghost w: set<Node>)
    returns (r: Node, copied: bool, ghost added: set<Node>)
    requires tl.Leaf? && |tl.vals| == BRANCHING && Holds(tail, 0, tl, fp - w)
    requires level == 5 * d && 0 < d && Spine(t, d) && LastPath(t, d, path) && PushWrites(t, d, hot)
    requires Route(self, d, t, path, hot, fp, w, mode, false)
    modifies w
    ensures fresh(added)
    ensures !copied ==> unchanged(w)
    ensures var (rt, yes) := Ops.PushTail(t, tl, d, parent == null);
            copied == yes && Holds(r, if !copied && parent == null then d + 1 else d, rt, fp + added)
    ensures r.transientID == if copied then old(self.transientID) else mode.transientID
    ensures var p := old(Pivot(self, d, path, hot, fp, mode));
            && OnlyPivotChanged(w, p)
            && (p.Some? ==> r == self && Walk(self, d, path, p.value.depth, p.value.node, fp))
    decreases d, 0
  {
    hide Full, AllFull, Elems, Flatten, Route, Spine, LastPath, PushWrites, Ops.PushTail, Pivot, Walk, Holds, KidPush;
    PushReady(self, d, t, tl, parent == null, path, hot, fp, w, mode);
    ghost var n, s, k := |t.kids| - 1, {self} * w, KidPush(t, tl, d).0;
    ghost var q := Pivot(self.kids[n], d - 1, path, hot, fp - s, mode.Below(mode.Reuses(self)));
    var entry := if level <= 5 then null else self.kids[|self.kids| - 1];
    var reusable := mode.Reuses(self);
    var subtree, below, more := PushTail(self, entry, tail, level - 5, mode.Below(reusable), d - 1, t.kids[n], tl,
      path, hot, fp - s, w - {self});
    if !below {
      if d <= 1 { HoldsGrows(tail, 0, tl, fp - w, fp + more); }
      else { HoldsGrows(subtree, d - 1, k, fp - s + more, fp + more); }
    }
    r, copied, added := PushUp(parent == null, self, subtree, below, reusable, mode, d, t, k, fp, w, more);
    if below && reusable { WalkStep(self, d, path, q, fp, fp - s); }
  }

  /** A changed subtree replaces the last child; a new one is attached. */
  method PushUp(top: bool, self: Node, subtree: Node, below: bool, reusable: bool, mode: Mode, ghost d: nat,
                ghost t: Tree, ghost k: Tree, ghost fp: set<Node>, ghost w: set<Node>, ghost more: set<Node>)
    returns (r: Node, copied: bool, ghost added: set<Node>)
    requires 0 < d && t.Inner? && 0 < |t.kids| == |self.kids| && !self.leaf && self in fp && self !in more
    requires below ==>
               && (reusable ==> self in w)
               && Holds(subtree, d - 1, k, fp - ({self} * w) + more)
               && forall j :: 0 <= j < |t.kids| && j != |t.kids| - 1 ==> Holds(self.kids[j], d - 1, t.kids[j], fp - w)
    requires !below ==> Holds(self, d, t, fp) && Holds(subtree, d - 1, k, fp + more)
    modifies if below && reusable then {self} else {}
    ensures more <= added && fresh(added - more)
    ensures below && reusable ==>
              r == self && self.kids == old(self.kids)[|t.kids| - 1 := subtree] && self.vals == old(self.vals)
    ensures copied == (below || |t.kids| < BRANCHING)
    ensures r.transientID == if copied then old(self.transientID) else mode.transientID
    ensures Holds(r, if !copied && top then d + 1 else d,
                  if below then Inner(t.kids[|t.kids| - 1 := k])
                  else if copied then Inner(t.kids + [k])
                  else if top then Inner([t, Inner([k])]) else Inner([k]), fp + added)
  {
    hide Holds;
    if below {
      r, added := Relink(self, |self.kids| - 1, subtree, reusable, d, t, k, fp, w, more);
      return r, true, added;
    }
    HoldsGrows(self, d, t, fp, fp + more);
    r, copied, added := Attach(top, self, subtree, mode, d, t, k, fp + more);
    added := more + added;
    assert fp + added == fp + more + (added - more);
  }

  /** A new subtree becomes one more child if there is room, else starts a sibling or a new root. */
  method Attach(top: bool, self: Node, subtree: Node, mode: Mode, ghost d: nat, ghost t: Tree, ghost k: Tree,
                ghost fp: set<Node>)
    returns (r: Node, copied: bool, ghost added: set<Node>)
    requires 0 < d && Holds(self, d, t, fp) && Holds(subtree, d - 1, k, fp)
    ensures fresh(added)
    ensures copied == (|t.kids| < BRANCHING)
    ensures r.transientID == if copied then self.transientID else mode.transientID
    ensures copied ==> Holds(r, d, Inner(t.kids + [k]), fp + added)
    ensures !copied && top ==> Holds(r, d + 1, Inner([t, Inner([k])]), fp + added)
    ensures !copied && !top ==> Holds(r, d, Inner([k]), fp + added)
  {
    if |self.kids| < BRANCHING {
      r := new Node(false, [], self.kids + [subtree], self.transientID);
      added := {r};
      Appended(r, d, t.kids, k, fp, fp, fp + added);
      return r, true, added;
    }
    var down := new Node(false, [], [subtree], mode.transientID);
    added := {down};
    Appended(down, d, [], k, {}, fp, fp + added);
    assert [] + [k] == [k];
    if top {
      r := new Node(false, [], [self, down], mode.transientID);
      Appended(r, d + 1, [t], Inner([k]), fp, fp + added, fp + added + {r});
      added := added + {r};
      assert [t] + [Inner([k])] == [t, Inner([k])] && fp + {down} + {r} == fp + added;
      return r, false, added;
    }
    return down, false, added;
  }

  // ---------------------------------------------------------------- pushTail needs no ownership

  /** An inner node that is not full below. */
  ghost predicate HasRoom(m: Node, fp: set<Node>)
    reads fp
  {
    m in fp && !m.leaf && exists k, u :: Spine(u, k) && !Full(u, k) && Holds(m, k, u, fp)
  }

  /** A node with room does not occur in a full tree. */
  lemma {:induction false} FullTreeAvoids(n: Node, d: nat, t: Tree, fp: set<Node>, w: set<Node>)
    requires Full(t, d) && Holds(n, d, t, fp) && forall m :: m in w ==> HasRoom(m, fp)
    ensures Holds(n, d, t, fp - w)
    decreases d
  {
    FullIsSpine(t, d);
    if n in w {
      var k, u :| Spine(u, k) && !Full(u, k) && Holds(n, k, u, fp);
      DepthIsUnique(n, d, t, k, u, fp);
    }
    if d != 0 {
      forall i | 0 <= i < |n.kids| ensures Holds(n.kids[i], d - 1, t.kids[i], fp - w) {
        FullTreeAvoids(n.kids[i], d - 1, t.kids[i], fp, w);
      }
    }
  }

  /** A node does not occur below itself. */
  lemma {:induction false} NotBelowItself(n: Node, d: nat, t: Tree, m: Node, e: nat, u: Tree, fp: set<Node>)
    requires Spine(t, d) && Holds(n, d, t, fp) && Spine(u, e) && Holds(m, e, u, fp) && d < e
    ensures Holds(n, d, t, fp - {m})
    decreases d
  {
    if n == m { DepthIsUnique(n, d, t, e, u, fp); }
    if d != 0 {
      forall i | 0 <= i < |n.kids| ensures Holds(n.kids[i], d - 1, t.kids[i], fp - {m}) {
        Ops.ChildIsSpine(t, d, i);
        NotBelowItself(n.kids[i], d - 1, t.kids[i], m, e, u, fp);
      }
    }
  }

  lemma {:induction false} WrittenShrinks(n: Node, d: nat, t: Tree, path: seq<nat>, hot: set<nat>, fp: set<Node>,
                                          more: set<Node>, mode: Mode)
    requires d < |path| && Holds(n, d, t, fp) && fp <= more
    ensures Written(n, d, path, hot, more, mode) == Written(n, d, path, hot, fp, mode)
    decreases d
  {
    if 0 < d && path[d] < |n.kids| {
      WrittenShrinks(n.kids[path[d]], d - 1, t.kids[path[d]], path, hot, fp, more, mode);
    }
  }

  /** Only nodes with room are written. */
  lemma {:induction false} WrittenHaveRoom(n: Node, d: nat, t: Tree, path: seq<nat>, hot: set<nat>, fp: set<Node>,
                                           mode: Mode)
    requires Spine(t, d) && Holds(n, d, t, fp) && LastPath(t, d, path) && PushWrites(t, d, hot)
    ensures forall m :: m in Written(n, d, path, hot, fp, mode) ==> HasRoom(m, fp)
    decreases d
  {
    if d in hot { HotIsUpper(t, d, hot, d); }
    if 0 < d {
      WrittenHaveRoom(n.kids[path[d]], d - 1, t.kids[path[d]], path, hot, fp, mode);
    }
  }

  /** So the nodes pushTail writes occur nowhere else in the tree: no ownership need be asked for. */
  lemma {:induction false} PushRoute(n: Node, d: nat, t: Tree, path: seq<nat>, hot: set<nat>, fp: set<Node>, mode: Mode)
    requires Spine(t, d) && Holds(n, d, t, fp) && LastPath(t, d, path) && PushWrites(t, d, hot)
    ensures Route(n, d, t, path, hot, fp, Written(n, d, path, hot, fp, mode), mode, false)
    decreases d
  {
    if d != 0 {
      var i := path[d];
      var w, kid, mode' := Written(n, d, path, hot, fp, mode), n.kids[i], mode.Below(mode.Reuses(n));
      var below := fp - ({n} * w);
      WrittenHaveRoom(n, d, t, path, hot, fp, mode);
      forall j | 0 <= j < |n.kids| && j != i ensures Holds(n.kids[j], d - 1, t.kids[j], fp - w) {
        assert t.kids[..|t.kids| - 1][j] == t.kids[j];
        FullTreeAvoids(n.kids[j], d - 1, t.kids[j], fp, w);
      }
      NotBelowItself(kid, d - 1, t.kids[i], n, d, t, fp);
      HoldsGrows(kid, d - 1, t.kids[i], fp - {n}, below);
      WrittenShrinks(kid, d - 1, t.kids[i], path, hot, below, fp, mode');
      WrittenShrinks(kid, d - 1, t.kids[i], path, hot, fp - {n}, fp, mode');
      assert mode.Reuses(n) ==> mode' == mode;
      assert w - {n} == Written(kid, d - 1, path, hot, below, mode');
      PushRoute(kid, d - 1, t.kids[i], path, hot, below, mode');
    } else {
      HotIsNotZero(t, hot);
    }
  }

  lemma HotIsNotZero(t: Tree, hot: set<nat>)
    requires Spine(t, 0) && PushWrites(t, 0, hot)
    ensures 0 !in hot
  {
  }

  // ---------------------------------------------------------------- the changed subtree

  /** Replacing an element of a tree replaces it in the subtree on the path. */
  lemma {:induction false} ReplaceSub(t: Tree, d: nat, index: nat, x: Val, path: seq<nat>, k: nat)
    requires Spine(t, d) && index % Power(d + 1) < |Elems(t)| && IndexPath(d, index, path) && k <= d
    ensures var u := Sub(t, d, path, k);
            && Spine(u, k) && index % Power(k + 1) < |Elems(u)|
            && Sub(Ops.ReplacePath(t, d, index, x), d, path, k) == Ops.ReplacePath(u, k, index, x)
            && Elems(u)[index % Power(k + 1)] == Elems(t)[index % Power(d + 1)]
    decreases d
  {
    if k < d {
      hide Slot, Power, Flatten;
      var i := Slot(index, 5 * d);
      assert i == path[d];
      Ops.ChildHolds(t, d, index);
      ReplaceSub(t.kids[i], d - 1, index, x, path, k);
      Ops.ChildElems(t, d, i);
    }
  }

  /** It is left the same exactly when the element was there already. */
  lemma ReplaceIsIdentity(t: Tree, d: nat, index: nat, x: Val)
    requires Spine(t, d) && index % Power(d + 1) < |Elems(t)|
    ensures Ops.ReplacePath(t, d, index, x) == t <==> Elems(t)[index % Power(d + 1)] == x
  {
    var i, r := index % Power(d + 1), Ops.ReplacePath(t, d, index, x);
    Ops.ReplacePathSpec(t, d, index, x);
    if Elems(t)[i] == x {
      assert Elems(r) == Elems(t);
      SpineIsUnique(r, t, d);
    }
  }

  /** Pushing a tail makes every subtree on the path larger, down to where the tail went. */
  lemma {:induction false} PushSub(t: Tree, tl: Tree, d: nat, top: bool, path: seq<nat>, hot: set<nat>, k: nat)
    requires Spine(t, d) && Full(tl, 0) && LastPath(t, d, path) && PushWrites(t, d, hot) && k <= d && k in hot
    ensures Ops.PushTail(t, tl, d, top).1
    ensures var u := Sub(t, d, path, k); Spine(u, k) && Sub(Ops.PushTail(t, tl, d, top).0, d, path, k) != u
    decreases d
  {
    HotIsUpper(t, d, hot, k);
    Ops.PushTailSpec(t, tl, d, top);
    if k < d {
      var n := |t.kids| - 1;
      HotIsUpper(t.kids[n], d - 1, hot, k);
      PushStep(t, tl, d, top, path, hot);
      PushSub(t.kids[n], tl, d - 1, false, path, hot, k);
    }
  }

  // ---------------------------------------------------------------- popTail

  /** A node whose children represent all of `kids`. */
  lemma Gathered(n: Node, d: nat, kids: seq<Tree>, rest: set<Node>, all: set<Node>)
    requires 0 < d && !n.leaf && |n.kids| == |kids| && n in all && rest <= all
    requires forall j :: 0 <= j < |kids| ==> Holds(n.kids[j], d - 1, kids[j], rest)
    ensures Holds(n, d, Inner(kids), all)
  {
    forall j | 0 <= j < |kids| ensures Holds(n.kids[j], d - 1, kids[j], all) {
      HoldsGrows(n.kids[j], d - 1, kids[j], rest, all);
    }
  }

  lemma PopStep(t: Tree, d: nat, path: seq<nat>)
    requires Spine(t, d) && 0 < d && LastPath(t, d, path)
    ensures t.Inner?
    ensures var n := |t.kids| - 1;
            && 0 < |t.kids| && d < |path|
            && path[d] == n && Spine(t.kids[n], d - 1) && LastPath(t.kids[n], d - 1, path)
            && var ((rt, lt), (kt, klt)) := (Ops.PopTail(t, d), Ops.PopTail(t.kids[n], d - 1));
               && lt == klt
               && rt == (if kt.Some? then Some(Inner(t.kids[n := kt.value]))
                         else if 0 < n then Some(Inner(t.kids[..n])) else None)
  {
  }

  /** The nodes of a path, from the top down. */
  ghost function PathNodes(n: Node, d: nat, path: seq<nat>, fp: set<Node>): (ns: seq<Node>)
    requires d < |path|
    reads fp
    ensures |ns| <= d + 1 && forall m :: m in ns ==> m in fp
    decreases d
  {
    if n !in fp then []
    else [n] + if 0 < d && path[d] < |n.kids| then PathNodes(n.kids[path[d]], d - 1, path, fp) else []
  }

  lemma {:induction false} PathShrinks(n: Node, d: nat, t: Tree, path: seq<nat>, fp: set<Node>, more: set<Node>)
    requires d < |path| && Holds(n, d, t, fp) && fp <= more
    ensures PathNodes(n, d, path, more) == PathNodes(n, d, path, fp)
    decreases d
  {
    if 0 < d && path[d] < |n.kids| { PathShrinks(n.kids[path[d]], d - 1, t.kids[path[d]], path, fp, more); }
  }

  ghost predicate PathHeld(ns: seq<Node>, d: nat, t: Tree, path: seq<nat>, fp: set<Node>)
    requires |ns| <= d + 1 && d < |path|
    reads fp
  {
    forall i :: 0 <= i < |ns| ==> Holds(ns[i], d - i, Sub(t, d, path, d - i), fp)
  }

  /** The nodes of a path stand for the subtrees on it. */
  lemma {:induction false} PathHolds(n: Node, d: nat, t: Tree, path: seq<nat>, fp: set<Node>)
    requires d < |path| && Holds(n, d, t, fp)
    ensures PathHeld(PathNodes(n, d, path, fp), d, t, path, fp)
    decreases d
  {
    if 0 < d && path[d] < |n.kids| {
      var kid, kt := n.kids[path[d]], t.kids[path[d]];
      PathHolds(kid, d - 1, kt, path, fp);
      var ns, below := PathNodes(n, d, path, fp), PathNodes(kid, d - 1, path, fp);
      forall i | 0 <= i < |ns| ensures Holds(ns[i], d - i, Sub(t, d, path, d - i), fp) {
        if 0 < i { assert ns[i] == below[i - 1] && d - i == d - 1 - (i - 1); }
      }
    }
  }

  ghost predicate OnPathAbove(ns: seq<Node>, d: nat, low: nat, m: Node) {
    exists i :: 0 <= i < |ns| && low <= d - i && ns[i] == m
  }

  lemma {:induction false} ReusedIsOnPath(n: Node, d: nat, path: seq<nat>, low: nat, fp: set<Node>, unique: set<Node>,
                                          id: nat, zero: bool, m: Node)
    requires d < |path| && m in Reused(n, d, path, low, fp, unique, id, zero)
    ensures OnPathAbove(PathNodes(n, d, path, fp), d, low, m)
    decreases d
  {
    var ns := PathNodes(n, d, path, fp);
    assert ns[0] == n && low <= d;
    if m != n {
      var kid := n.kids[path[d]];
      ReusedIsOnPath(kid, d - 1, path, low, fp, unique, id, zero, m);
      var below := PathNodes(kid, d - 1, path, fp);
      var i :| 0 <= i < |below| && low <= d - 1 - i && below[i] == m;
      assert ns[i + 1] == m;
    }
  }

  /** What becomes of a written node that stood for `u`: it stands for what is left of it, or has lost all children. */
  ghost predicate Popped(m: Node, e: nat, u: Tree, all: set<Node>)
    reads m, all
  {
    Spine(u, e) &&
    var rest := Ops.PopTail(u, e).0;
    if rest.Some? then Holds(m, e, rest.value, all) else m.kids == [] && 0 < e
  }

  lemma PoppedGrows(m: Node, e: nat, u: Tree, all: set<Node>, more: set<Node>)
    requires Popped(m, e, u, all) && all <= more
    ensures Popped(m, e, u, more)
  {
    var rest := Ops.PopTail(u, e).0;
    if rest.Some? { HoldsGrows(m, e, rest.value, all, more); }
  }

  /** It no longer stands for what it did. */
  lemma PoppedIsLess(m: Node, e: nat, u: Tree, all: set<Node>)
    requires Popped(m, e, u, all)
    ensures !Holds(m, e, u, all)
  {
    var (rest, leaf) := Ops.PopTail(u, e);
    Ops.PopTailSpec(u, e);
    if rest.Some? && Holds(m, e, u, all) { HoldsIsFunctional(m, e, u, rest.value, all, all); }
  }

  ghost predicate AllPopped(ns: seq<Node>, d: nat, t: Tree, path: seq<nat>, w: set<Node>, all: set<Node>)
    requires |ns| <= d + 1 && d < |path|
    reads w, all
  {
    forall i :: 0 <= i < |ns| && ns[i] in w ==> Popped(ns[i], d - i, Sub(t, d, path, d - i), all)
  }

  lemma PathUnfolds(n: Node, d: nat, path: seq<nat>, fp: set<Node>)
    requires 0 < d < |path|
    ensures n in fp && path[d] < |n.kids| ==>
              PathNodes(n, d, path, fp) == [n] + PathNodes(n.kids[path[d]], d - 1, path, fp)
  {
  }

  lemma PathPopped(self: Node, ns: seq<Node>, d: nat, t: Tree, path: seq<nat>, w: set<Node>, part: set<Node>,
                   all: set<Node>)
    requires 0 < d < |path| && t.Inner? && path[d] < |t.kids| && |ns| <= d && part <= all
    requires AllPopped(ns, d - 1, t.kids[path[d]], path, w - {self}, part)
    requires self in w ==> self !in ns && Popped(self, d, t, all)
    ensures AllPopped([self] + ns, d, t, path, w, all)
  {
    hide Popped;
    forall i | 0 <= i <= |ns| && ([self] + ns)[i] in w
      ensures Popped(([self] + ns)[i], d - i, Sub(t, d, path, d - i), all)
    {
      if 0 < i {
        var j := i - 1;
        assert d - i == d - 1 - j && ns[j] in w - {self};
        PoppedGrows(ns[j], d - 1 - j, Sub(t.kids[path[d]], d - 1, path, d - 1 - j), part, all);
      }
    }
  }

  method PopTail(self: Node, mode: Mode, ghost d: nat, ghost t: Tree, ghost path: seq<nat>, ghost hot: set<nat>,
                 ghost fp: set<Node>, ghost w: set<Node>)
    returns (r: Node?, leaf: Node, ghost added: set<Node>)
    requires Spine(t, d) && LastPath(t, d, path) && (forall e :: 0 <= e <= d ==> (e in hot <==> 0 < e))
    requires Route(self, d, t, path, hot, fp, w, mode, true)
    modifies w
    ensures fresh(added)
    ensures var (rt, lt) := Ops.PopTail(t, d);
            && (r == null <==> rt.None?)
            && (r != null ==> Holds(r, d, rt.value, fp + added))
            && Holds(leaf, 0, lt, fp - w)
    ensures r != null ==>
              if old(mode.ReusesForPop(self)) then r == self else fresh(r) && r.transientID == mode.transientID
    ensures AllPopped(old(PathNodes(self, d, path, fp)), d, t, path, w, fp + added)
    decreases d, 1
  {
    if self.leaf {
      return null, self, {};
    }
    r, leaf, added := PopInner(self, mode, d, t, path, hot, fp, w);
  }

  method PopInner(self: Node, mode: Mode, ghost d: nat, ghost t: Tree, ghost path: seq<nat>, ghost hot: set<nat>,
                  ghost fp: set<Node>, ghost w: set<Node>)
    returns (r: Node?, leaf: Node, ghost added: set<Node>)
    requires 0 < d && Spine(t, d) && LastPath(t, d, path) && (forall e :: 0 <= e <= d ==> (e in hot <==> 0 < e))
    requires Route(self, d, t, path, hot, fp, w, mode, true)
    modifies w
    ensures fresh(added)
    ensures var (rt, lt) := Ops.PopTail(t, d);
            && (r == null <==> rt.None?)
            && (r != null ==> Holds(r, d, rt.value, fp + added))
            && Holds(leaf, 0, lt, fp - w)
    ensures r != null ==>
              if old(mode.ReusesForPop(self)) then r == self else fresh(r) && r.transientID == mode.transientID
    ensures AllPopped(old(PathNodes(self, d, path, fp)), d, t, path, w, fp + added)
    decreases d, 0
  {
    hide Spine, LastPath, Ops.PopTail, Route, Holds, AllPopped, PathNodes, Sub;
    PopStep(t, d, path);
    ghost var s := {self} * w;
    PathUnfolds(self, d, path, fp);
    RouteStep(self, d, t, path, hot, fp, w, mode, true);
    var reusable := mode.ReusesForPop(self);
    var n := |self.kids| - 1;
    RouteHolds(self.kids[n], d - 1, t.kids[n], path, hot, fp - s, w - {self}, mode.Below(reusable), true);
    PathShrinks(self.kids[n], d - 1, t.kids[n], path, fp - s, fp);
    ghost var ns := PathNodes(self.kids[n], d - 1, path, fp - s);
    var subtree, last, more := PopTail(self.kids[n], mode.Below(reusable), d - 1, t.kids[n], path, hot,
      fp - s, w - {self});
    leaf, added := last, more;
    var node := self;
    if !reusable {
      node := new Node(self.leaf, self.vals, self.kids, mode.transientID);
      added := added + {node};
    }
    if subtree != null {
      node.kids := node.kids[n := subtree];
      Exchanged(node, d, t, n, Ops.PopTail(t.kids[n], d - 1).0.value, fp - w, fp - s + more, fp + added);
      PathPopped(self, ns, d, t, path, w, fp - s + more, fp + added);
      return node, leaf, added;
    }
    node.kids := node.kids[..n];
    if n == 0 {
      PathPopped(self, ns, d, t, path, w, fp - s + more, fp + added);
      return null, leaf, added;
    }
    Gathered(node, d, t.kids[..n], fp - w, fp + added);
    PathPopped(self, ns, d, t, path, w, fp - s + more, fp + added);
    return node, leaf, added;
  }
}
