/** The vector object (PersistentVector.c): conj, assoc, pop and the lookups on shared nodes, copying or in
    place. A call names `isUnique` (the header's reference count is one) and `unique` (the nodes whose count
    is one); where ownership is asked for, the ghost set `w` is what is written. */
module PersistentVector {
  import opened Options
  import opened Shifts
  import opened VectorTree
  import opened VectorNodes
  import Ops = VectorOps

  // ---------------------------------------------------------------- paths

  ghost function IndexSlots(d: nat, index: nat): (path: seq<nat>)
    ensures IndexPath(d, index, path)
  {
    seq(d + 1, e requires 0 <= e => Slot(index, 5 * e))
  }

  ghost function LastSlots(t: Tree, d: nat): (path: seq<nat>)
    requires Spine(t, d)
    ensures |path| == d + 1 && LastPath(t, d, path)
    decreases d
  {
    if d == 0 then [0]
    else
      var n := |t.kids| - 1;
      LongerLastPath(t.kids[n], d - 1, LastSlots(t.kids[n], d - 1), n);
      LastSlots(t.kids[n], d - 1) + [n]
  }

  lemma {:induction false} LongerLastPath(t: Tree, d: nat, path: seq<nat>, n: nat)
    requires Spine(t, d) && LastPath(t, d, path)
    ensures LastPath(t, d, path + [n])
    decreases d
  {
    if d != 0 { LongerLastPath(t.kids[|t.kids| - 1], d - 1, path, n); }
  }

  ghost function PushDepths(t: Tree, d: nat): (hot: set<nat>)
    requires Spine(t, d)
    ensures PushWrites(t, d, hot) && forall e :: e in hot ==> e <= d
    decreases d
  {
    if d == 0 then {}
    else
      var last := t.kids[|t.kids| - 1];
      var hot := PushDepths(last, d - 1);
      if 1 < d && !Full(last, d - 1) then
        DeeperPushWrites(last, d - 1, hot, d);
        hot + {d}
      else hot
  }

  lemma {:induction false} DeeperPushWrites(t: Tree, d: nat, hot: set<nat>, e: nat)
    requires Spine(t, d) && PushWrites(t, d, hot) && d < e
    ensures PushWrites(t, d, hot + {e})
    decreases d
  {
    if d != 0 { DeeperPushWrites(t.kids[|t.kids| - 1], d - 1, hot, e); }
  }

  ghost function Depths(low: nat, d: nat): (hot: set<nat>)
    ensures forall e :: e in hot <==> low <= e <= d
  {
    if d < low then {} else if d == 0 then {0} else Depths(low, d - 1) + {d}
  }

  /** The depth down to which pushing a tail stores a changed child: that of the lowest spine node whose last child
      still has room. Above the root if there is none. */
  ghost function PushFloor(t: Tree, d: nat): (low: nat)
    requires Spine(t, d)
    ensures 1 < low <= d + 2
    decreases d
  {
    if d == 0 then 2
    else
      var last := t.kids[|t.kids| - 1];
      if d == 1 || Full(last, d - 1) then d + 1 else PushFloor(last, d - 1)
  }

  lemma {:induction false} FloorOfPush(t: Tree, d: nat, hot: set<nat>)
    requires Spine(t, d) && PushWrites(t, d, hot)
    ensures forall e :: 0 <= e <= d ==> (e in hot <==> PushFloor(t, d) <= e)
    decreases d
  {
    if d != 0 {
      var last := t.kids[|t.kids| - 1];
      FloorOfPush(last, d - 1, hot);
      forall e | 0 <= e < d && e in hot ensures !(d == 1 || Full(last, d - 1)) {
        HotIsUpper(last, d - 1, hot, e);
      }
      FloorIsBelow(last, d - 1);
    }
  }

  lemma {:induction false} FloorIsBelow(t: Tree, d: nat)
    requires Spine(t, d)
    ensures 0 < d ==> PushFloor(t, d) <= d + 1
    decreases d
  {
    if 1 < d { FloorIsBelow(t.kids[|t.kids| - 1], d - 1); }
  }

  /** The right spine leads from `n` to the place, if there is one. */
  ghost predicate SpineLeadsTo(n: Node?, v: Vec, fp: set<Node>, p: Option<Place>)
    reads fp
  {
    p.Some? ==>
      && n != null && v.root.Some? && Spine(v.root.value, v.shift / 5)
      && Walk(n, v.shift / 5, LastSlots(v.root.value, v.shift / 5), p.value.depth, p.value.node, fp)
  }

  // ---------------------------------------------------------------- the vector

  class Vector {
    var count: nat
    var shift: nat
    var root: Node?
    var tail: Node
    var transientID: nat

    constructor (count: nat, shift: nat, root: Node?, tail: Node, transientID: nat)
      ensures this.count == count && this.shift == shift && this.root == root && this.tail == tail
      ensures this.transientID == transientID
    {
      this.count, this.shift, this.root, this.tail, this.transientID := count, shift, root, tail, transientID;
    }

    /** This object and the nodes in `fp` stand for the value `v`. */
    ghost predicate Represents(v: Vec, fp: set<Node>)
      reads this, fp
    {
      && count == v.count && shift == v.shift
      && (root == null <==> v.root.None?)
      && (root != null ==> Holds(root, v.shift / 5, v.root.value, fp))
      && Holds(tail, 0, Leaf(v.tail), fp)
    }

    predicate Reusable(isUnique: bool)
      reads this
    {
      isUnique || transientID != 0
    }

    predicate TailReusable(isUnique: bool, unique: set<Node>)
      reads this, tail
    {
      || (Reusable(isUnique) && tail in unique)
      || (transientID != 0 && transientID == tail.transientID)
    }

    function ModeOf(isUnique: bool, unique: set<Node>): Mode
      reads this
    {
      Mode(Reusable(isUnique), unique, transientID)
    }

    // -------------------------------------------------------------- conj

    /** The nodes conj writes: a tail with room, or the reused part of the right spine that has room. Neither
        occurs anywhere else in the vector, so conj asks for no ownership. */
    ghost function ConjWrites(v: Vec, fp: set<Node>, isUnique: bool, unique: set<Node>): (w: set<Node>)
      requires Canonical(v) && Represents(v, fp)
      reads this, fp
      ensures w <= fp
    {
      if !Reusable(isUnique) then {}
      else if |v.tail| < BRANCHING then {tail}
      else if root == null then {}
      else
        var t, d := v.root.value, v.shift / 5;
        Written(root, d, LastSlots(t, d), PushDepths(t, d), fp, ModeOf(isUnique, unique))
    }

    /** The spine node that changes when a full tail is pushed, if one does: the deepest of those written. */
    ghost function ConjPivot(v: Vec, fp: set<Node>, isUnique: bool, unique: set<Node>): (p: Option<Place>)
      requires Canonical(v) && Represents(v, fp)
      reads this, fp
      ensures p.Some? ==> root != null
    {
      if root == null then None
      else
        var t, d := v.root.value, v.shift / 5;
        Pivot(root, d, LastSlots(t, d), PushDepths(t, d), fp, ModeOf(isUnique, unique))
    }

    method Conj(other: Val, isUnique: bool, unique: set<Node>, ghost v: Vec, ghost fp: set<Node>)
      returns (r: Vector, ghost added: set<Node>)
      requires Canonical(v) && Represents(v, fp)
      modifies if Reusable(isUnique) then {this} else {}, ConjWrites(v, fp, isUnique, unique)
      ensures fresh(added) && (if (isUnique || old(transientID) != 0) then r == this else fresh(r))
      ensures r.transientID == old(transientID)
      ensures r.Represents(Ops.Conj(v, other), fp + added)
      ensures (isUnique || old(transientID) != 0) && |v.tail| < BRANCHING ==> tail == old(tail) && added == {}
      ensures |v.tail| < BRANCHING ==> r.root == old(root) && forall n :: n in added ==> n.transientID == r.transientID
      ensures |v.tail| == BRANCHING ==> r.tail in added && r.tail.transientID == old(transientID)
      ensures |v.tail| == BRANCHING ==>
                var p := old(ConjPivot(v, fp, isUnique, unique));
                && OnlyPivotChanged(old(ConjWrites(v, fp, isUnique, unique)), p)
                && (p.Some? ==> r.root == old(root)) && SpineLeadsTo(r.root, v, fp, p)
    {
      added := {};
      var reusable := Reusable(isUnique);
      if |tail.vals| < BRANCHING {
        if reusable {
          if root != null { AvoidsShortLeaf(root, v.shift / 5, v.root.value, fp, tail); }
          tail.vals := tail.vals + [other];
          count := count + 1;
          if root != null { HoldsGrows(root, v.shift / 5, v.root.value, fp - {tail}, fp); }
          assert fp + added == fp;
          return this, added;
        }
        var newTail := new Node(true, tail.vals + [other], [], transientID);
        r := new Vector(count + 1, shift, root, newTail, transientID);
        added := {newTail};
        if root != null { HoldsGrows(root, v.shift / 5, v.root.value, fp, fp + added); }
        return r, added;
      }
      r, added := ConjFull(other, isUnique, unique, v, fp);
    }

    /** The tail is full and goes into the tree. */
    method ConjFull(other: Val, isUnique: bool, unique: set<Node>, ghost v: Vec, ghost fp: set<Node>)
      returns (r: Vector, ghost added: set<Node>)
      requires Canonical(v) && Represents(v, fp) && |v.tail| == BRANCHING
      modifies if Reusable(isUnique) then {this} else {}, ConjWrites(v, fp, isUnique, unique)
      ensures fresh(added) && (if (isUnique || old(transientID) != 0) then r == this else fresh(r))
      ensures r.transientID == old(transientID)
      ensures r.Represents(Ops.Conj(v, other), fp + added)
      ensures r.tail in added && r.tail.transientID == old(transientID)
      ensures var p := old(ConjPivot(v, fp, isUnique, unique));
              && OnlyPivotChanged(old(ConjWrites(v, fp, isUnique, unique)), p)
              && (p.Some? ==> r.root == old(root)) && SpineLeadsTo(r.root, v, fp, p)
    {
      hide Canonical, SpineLeadsTo, Pivot, Written, Ops.Conj, Holds, ConjWrites, ConjPivot, LastSlots, PushDepths;
      var reusable := Reusable(isUnique);
      var newRoot, newShift, more := PushRoot(isUnique, unique, v, other, fp);
      var newTail := new Node(true, [other], [], transientID);
      added := more + {newTail};
      HoldsGrows(newRoot, newShift / 5, Ops.Conj(v, other).root.value, fp + more, fp + added);
      TailHolds(newTail, other, fp + added);
      if reusable {
        count, shift, root, tail := count + 1, newShift, newRoot, newTail;
        r := this;
      } else {
        r := new Vector(count + 1, newShift, newRoot, newTail, transientID);
      }
    }

    /** pushTail from the root; the shift grows when an existing root was not copied. */
    method PushRoot(isUnique: bool, unique: set<Node>, ghost v: Vec, ghost other: Val, ghost fp: set<Node>)
      returns (newRoot: Node, newShift: nat, ghost added: set<Node>)
      requires Canonical(v) && Represents(v, fp) && |v.tail| == BRANCHING
      modifies ConjWrites(v, fp, isUnique, unique)
      ensures fresh(added)
      ensures var w := Ops.Conj(v, other);
              && w.count == v.count + 1 && w.tail == [other] && w.root.Some? && newShift == w.shift
              && Holds(newRoot, newShift / 5, w.root.value, fp + added)
      ensures var p := old(ConjPivot(v, fp, isUnique, unique));
              && OnlyPivotChanged(old(ConjWrites(v, fp, isUnique, unique)), p)
              && (p.Some? ==> newRoot == old(root)) && SpineLeadsTo(newRoot, v, fp, p)
    {
      ghost var w, copied := ConjWrites(v, fp, isUnique, unique), false;
      if root == null {
        newRoot, copied, added := PushTail(null, null, tail, shift, ModeOf(isUnique, unique), 0, Leaf([]), Leaf(v.tail),
          [], {}, fp, {});
        HoldsGrows(newRoot, 0, Leaf(v.tail), fp - {}, fp + added);
        return newRoot, shift, added;
      }
      newRoot, newShift, added := PushOldRoot(isUnique, unique, v, other, fp);
    }

    method PushOldRoot(isUnique: bool, unique: set<Node>, ghost v: Vec, ghost other: Val, ghost fp: set<Node>)
      returns (newRoot: Node, newShift: nat, ghost added: set<Node>)
      requires Canonical(v) && Represents(v, fp) && |v.tail| == BRANCHING && root != null
      modifies ConjWrites(v, fp, isUnique, unique)
      ensures fresh(added)
      ensures var w := Ops.Conj(v, other);
              && w.count == v.count + 1 && w.tail == [other] && w.root.Some? && newShift == w.shift
              && Holds(newRoot, newShift / 5, w.root.value, fp + added)
      ensures var p := old(ConjPivot(v, fp, isUnique, unique));
              && OnlyPivotChanged(old(ConjWrites(v, fp, isUnique, unique)), p)
              && (p.Some? ==> newRoot == old(root)) && SpineLeadsTo(newRoot, v, fp, p)
    {
      ghost var d, t, w := v.shift / 5, v.root.value, ConjWrites(v, fp, isUnique, unique);
      ConjReady(this, v, other, fp, isUnique, unique);
      ghost var path, hot := LastSlots(t, d), PushDepths(t, d);
      hide Spine, LastPath, PushWrites, Route, Ops.PushTail, Ops.Conj, Canonical, Walk, Pivot, Written, Holds, Full;
      var copied;
      newRoot, copied, added := PushTail(null, root, tail, shift, ModeOf(isUnique, unique), d, t, Leaf(v.tail),
        path, hot, fp, w);
      newShift := if !copied && root != null then shift + 5 else shift;
    }

    // -------------------------------------------------------------- assoc

    /** The ownership assoc asks for; at index `count` it is that of conj. */
    ghost predicate OwnsForAssoc(v: Vec, index: nat, fp: set<Node>, w: set<Node>, isUnique: bool, unique: set<Node>)
      requires Canonical(v) && Represents(v, fp)
      reads this, fp
    {
      if v.count < index then w == {}
      else if index == v.count then w == ConjWrites(v, fp, isUnique, unique)
      else if v.count - |v.tail| <= index then
        if TailReusable(isUnique, unique)
        then w == {tail} && (root != null ==> Holds(root, v.shift / 5, v.root.value, fp - w))
        else w == {}
      else if !Reusable(isUnique) then w == {}
      else
        var d := v.shift / 5;
        && tail !in w && v.root.Some?
        && Route(root, d, v.root.value, IndexSlots(d, index), Depths(0, d), fp, w, ModeOf(isUnique, unique), false)
    }

    /** Null is the index error. */
    method Assoc(index: nat, other: Val, isUnique: bool, unique: set<Node>, ghost v: Vec, ghost fp: set<Node>,
                 ghost w: set<Node>)
      returns (r: Vector?, ghost added: set<Node>)
      requires Canonical(v) && Represents(v, fp) && OwnsForAssoc(v, index, fp, w, isUnique, unique)
      modifies if Reusable(isUnique) then {this} else {}, w
      ensures fresh(added)
      ensures r == null <==> Ops.Assoc(v, index, other).None?
      ensures index < v.count - |v.tail| ==> r != null && r.tail == old(tail)
      ensures v.count - |v.tail| <= index < v.count ==> r != null && r.root == old(root)
      ensures r != null ==> r.Represents(Ops.Assoc(v, index, other).value, fp + added)
      ensures r != null ==> if (isUnique || old(transientID) != 0) then r == this else fresh(r)
      ensures r != null ==> r.transientID == old(transientID)
      ensures r == null ==> unchanged(this)
    {
      added := {};
      if count < index {
        return null, added;
      }
      if index == count {
        r, added := Conj(other, isUnique, unique, v, fp);
        return r, added;
      }
      var tailOffset := count - |tail.vals|;
      if tailOffset <= index {
        r, added := AssocTail(index, other, isUnique, unique, v, fp, w);
      } else {
        r, added := AssocTree(index, other, isUnique, unique, v, fp, w);
      }
    }

    method AssocTail(index: nat, other: Val, isUnique: bool, unique: set<Node>, ghost v: Vec, ghost fp: set<Node>,
                     ghost w: set<Node>)
      returns (r: Vector, ghost added: set<Node>)
      requires Canonical(v) && Represents(v, fp) && OwnsForAssoc(v, index, fp, w, isUnique, unique)
      requires v.count - |v.tail| <= index < v.count
      modifies if Reusable(isUnique) then {this} else {}, w
      ensures fresh(added) && (if (isUnique || old(transientID) != 0) then r == this else fresh(r))
      ensures r.transientID == old(transientID)
      ensures r.Represents(Ops.Assoc(v, index, other).value, fp + added)
      ensures r.root == old(root)
      ensures if w != {} then w == {r.tail} && r.tail == old(tail) && added == {} && tail.kids == old(tail.kids)
              else r.tail in added && r.tail.transientID == old(transientID)
    {
      hide Spine;
      var reusable := Reusable(isUnique);
      var tailOffset := count - |tail.vals|;
      var newTail := tail;
      added := {};
      if TailReusable(isUnique, unique) {
        newTail.vals := newTail.vals[index - tailOffset := other];
        if root != null { HoldsGrows(root, v.shift / 5, v.root.value, fp - w, fp + added); }
      } else {
        newTail := new Node(true, tail.vals[index - tailOffset := other], [], transientID);
        added := {newTail};
        if root != null { HoldsGrows(root, v.shift / 5, v.root.value, fp, fp + added); }
      }
      if reusable {
        tail := newTail;
        r := this;
      } else {
        r := new Vector(count, shift, root, newTail, transientID);
      }
    }

    /** The node that changes when an element of the tree is replaced, if one does: the deepest that passes
        the reuse test. */
    ghost function AssocPivot(v: Vec, index: nat, fp: set<Node>, isUnique: bool, unique: set<Node>): (p: Option<Place>)
      requires Canonical(v) && Represents(v, fp) && index < v.count - |v.tail|
      reads this, fp
    {
      Ops.InTree(v, index);
      var d := v.shift / 5;
      Pivot(root, d, IndexSlots(d, index), Depths(0, d), fp, ModeOf(isUnique, unique))
    }

    method AssocTree(index: nat, other: Val, isUnique: bool, unique: set<Node>, ghost v: Vec, ghost fp: set<Node>,
                     ghost w: set<Node>)
      returns (r: Vector, ghost added: set<Node>)
      requires Canonical(v) && Represents(v, fp) && OwnsForAssoc(v, index, fp, w, isUnique, unique)
      requires index < v.count - |v.tail|
      modifies if Reusable(isUnique) then {this} else {}, w
      ensures fresh(added) && (if (isUnique || old(transientID) != 0) then r == this else fresh(r))
      ensures r.transientID == old(transientID)
      ensures r.Represents(Ops.Assoc(v, index, other).value, fp + added)
      ensures r.tail == old(tail) && r.root != null
      ensures var p := old(AssocPivot(v, index, fp, isUnique, unique));
              && OnlyPivotChanged(w, p)
              && (p.Some? ==> r.root == old(root)
                              && Walk(r.root, v.shift / 5, IndexSlots(v.shift / 5, index),
                                      p.value.depth, p.value.node, fp))
    {
      AssocReady(this, v, index, other, fp, w, isUnique, unique);
      hide Spine, Route, Canonical, Ops.Assoc, Ops.ReplacePath, Power, Walk, Slot, Pivot, Holds, IndexPath;
      ghost var d, t := v.shift / 5, v.root.value;
      var reusable := Reusable(isUnique);
      var newRoot, more := ReplacePath(root, shift, index, other, ModeOf(isUnique, unique), d, t,
        IndexSlots(d, index), Depths(0, d), fp, w);
      added := more;
      HoldsGrows(tail, 0, Leaf(v.tail), fp - w, fp + added);
      if reusable {
        root := newRoot;
        r := this;
      } else {
        r := new Vector(count, shift, newRoot, tail, transientID);
      }
    }

    // -------------------------------------------------------------- pop

    ghost predicate OwnsForPop(v: Vec, fp: set<Node>, w: set<Node>, isUnique: bool, unique: set<Node>)
      requires Canonical(v) && Represents(v, fp)
      reads this, fp
    {
      if 1 < |v.tail| then
        if TailReusable(isUnique, unique)
        then w == {tail} && (root != null ==> Holds(root, v.shift / 5, v.root.value, fp - w))
        else w == {}
      else if !Reusable(isUnique) || root == null then w == {}
      else
        var t, d := v.root.value, v.shift / 5;
        Route(root, d, t, LastSlots(t, d), Depths(1, d), fp, w, ModeOf(isUnique, unique), true)
    }

    /** The nodes of the right spine, from the root down. */
    ghost function SpineNodes(v: Vec, fp: set<Node>): (ns: seq<Node>)
      requires Canonical(v) && Represents(v, fp)
      reads this, fp
      ensures |ns| <= v.shift / 5 + 1
    {
      if root == null then []
      else PathNodes(root, v.shift / 5, LastSlots(v.root.value, v.shift / 5), fp)
    }

    /** Null is the error of popping the empty vector. */
    method Pop(isUnique: bool, unique: set<Node>, ghost v: Vec, ghost fp: set<Node>, ghost w: set<Node>)
      returns (r: Vector?, ghost added: set<Node>)
      requires Canonical(v) && Represents(v, fp) && OwnsForPop(v, fp, w, isUnique, unique)
      modifies if Reusable(isUnique) then {this} else {}, w
      ensures fresh(added)
      ensures r == null <==> Ops.Pop(v).None?
      ensures r != null ==> r.Represents(Ops.Pop(v).value, fp + added)
      ensures r != null ==> if (isUnique || old(transientID) != 0) then r == this else fresh(r)
      ensures r != null ==> r.transientID == old(transientID)
      ensures r == null ==> unchanged(this)
      ensures r != null && 1 < |v.tail| ==>
                if w != {} then w == {r.tail} && r.tail == old(tail) else r.tail in added
      ensures r != null && |v.tail| <= 1 && v.root.Some? ==>
                TreePopped(v, old(SpineNodes(v, fp)), w, fp + added)
    {
      hide TreePopped, LastSlots, AllPopped;
      if count == 0 {
        return null, {};
      }
      if 1 < |tail.vals| {
        r, added := PopFromTail(isUnique, unique, v, fp, w);
        return r, added;
      }
      var newRoot, newShift, newTail, more := PopFromTree(isUnique, unique, v, fp, w);
      added := more;
      hide Canonical, Route, Ops.Pop;
      if Reusable(isUnique) {
        count, shift, root, tail := count - 1, newShift, newRoot, newTail;
        r := this;
      } else {
        r := new Vector(count - 1, newShift, newRoot, newTail, transientID);
      }
    }

    method PopFromTail(isUnique: bool, unique: set<Node>, ghost v: Vec, ghost fp: set<Node>, ghost w: set<Node>)
      returns (r: Vector, ghost added: set<Node>)
      requires Canonical(v) && Represents(v, fp) && OwnsForPop(v, fp, w, isUnique, unique) && 1 < |v.tail|
      modifies if Reusable(isUnique) then {this} else {}, w
      ensures fresh(added) && (if (isUnique || old(transientID) != 0) then r == this else fresh(r))
      ensures r.transientID == old(transientID)
      ensures Ops.Pop(v).Some? && r.Represents(Ops.Pop(v).value, fp + added)
      ensures r.root == old(root) && r.tail.transientID == old(transientID)
      ensures if w != {} then w == {r.tail} && r.tail == old(tail) && added == {} else r.tail in added
    {
      hide Spine;
      var newCount := |tail.vals| - 1;
      var newTail := tail;
      added := {};
      if TailReusable(isUnique, unique) {
        newTail.vals := newTail.vals[..newCount];
        newTail.transientID := transientID;
        if root != null { HoldsGrows(root, v.shift / 5, v.root.value, fp - w, fp + added); }
      } else {
        newTail := new Node(true, tail.vals[..newCount], [], transientID);
        added := {newTail};
        if root != null { HoldsGrows(root, v.shift / 5, v.root.value, fp, fp + added); }
      }
      if Reusable(isUnique) {
        count, tail := count - 1, newTail;
        r := this;
      } else {
        r := new Vector(count - 1, shift, root, newTail, transientID);
      }
    }

    /** The last leaf of the tree becomes the tail; a root left with one child gives way to it. */
    method PopFromTree(isUnique: bool, unique: set<Node>, ghost v: Vec, ghost fp: set<Node>, ghost w: set<Node>)
      returns (newRoot: Node?, newShift: nat, newTail: Node, ghost added: set<Node>)
      requires Canonical(v) && Represents(v, fp) && OwnsForPop(v, fp, w, isUnique, unique)
      requires 0 < v.count && |v.tail| <= 1
      modifies w
      ensures fresh(added) && Ops.Pop(v).Some?
      ensures var p := Ops.Pop(v).value;
              && p.count == v.count - 1 && p.shift == newShift && (newRoot == null <==> p.root.None?)
              && (newRoot != null ==> Holds(newRoot, newShift / 5, p.root.value, fp + added))
              && Holds(newTail, 0, Leaf(p.tail), fp + added)
      ensures root == old(root)
      ensures root != null ==> TreePopped(v, old(SpineNodes(v, fp)), w, fp + added)
    {
      if root == null {
        newTail := new Node(true, [], [], transientID);
        return null, shift, newTail, {newTail};
      }
      ghost var d, t := v.shift / 5, v.root.value;
      ghost var path, hot := LastSlots(t, d), Depths(1, d);
      if !Reusable(isUnique) { CopyingNeedsNoOwnership(root, d, t, path, hot, fp, ModeOf(isUnique, unique), true); }
      Ops.PopOfTree(v);
      ghost var p := Ops.Pop(v).value;
      hide Spine, Route, Canonical, Ops.Pop, Ops.PopTail, LastPath;
      newRoot, newTail, added := PopTail(root, ModeOf(isUnique, unique), d, t, path, hot, fp, w);
      newShift := shift;
      HoldsGrows(newTail, 0, Leaf(p.tail), fp - w, fp + added);
      if newRoot != null && 0 < newShift && |newRoot.kids| == 1 {
        newRoot, newShift := newRoot.kids[0], newShift - 5;
      }
    }
  }

  /** Of the right spine `ns` of a tree, the written nodes have lost the last leaf. */
  ghost predicate TreePopped(v: Vec, ns: seq<Node>, w: set<Node>, all: set<Node>)
    reads w, all
  {
    && v.root.Some? && Spine(v.root.value, v.shift / 5) && |ns| <= v.shift / 5 + 1
    && AllPopped(ns, v.shift / 5, v.root.value, LastSlots(v.root.value, v.shift / 5), w, all)
  }

  /** PersistentVector_createMany: up to 32 elements straight into the tail, the rest by conj on the unshared
      vector, in place. The result is the one canonical vector with these elements. */
  method CreateMany(objs: seq<Val>)
    returns (p: Vector, ghost v: Vec, ghost fp: set<Node>)
    ensures fresh(p) && fresh(fp) && p.transientID == 0
    ensures Canonical(v) && p.Represents(v, fp) && Contents(v) == objs
    ensures forall u :: Canonical(u) && Contents(u) == objs ==> u == v
  {
    hide Canonical, Holds, Contents, Ops.Conj, OnlyPivotChanged, SpineLeadsTo;
    var initial := if |objs| < BRANCHING then |objs| else BRANCHING;
    var tail := new Node(true, objs[..initial], [], 0);
    p := new Vector(initial, 0, null, tail, 0);
    v, fp := Vec(initial, 0, None, objs[..initial]), {tail};
    JustATail(tail, v.tail, fp);
    for i := initial to |objs|
      invariant fresh(p) && fresh(fp) && p.transientID == 0
      invariant Canonical(v) && p.Represents(v, fp) && Contents(v) == objs[..i]
    {
      Ops.ConjAppends(v, objs[i]);
      ghost var added;
      p, added := p.Conj(objs[i], true, {}, v, fp);
      v, fp := Ops.Conj(v, objs[i]), fp + added;
    }
    forall u | Canonical(u) && Contents(u) == objs ensures u == v { CanonicalIsUnique(u, v); }
  }

  lemma JustATail(n: Node, vals: seq<Val>, fp: set<Node>)
    requires n in fp && n.leaf && n.vals == vals && |vals| <= BRANCHING
    ensures var v := Vec(|vals|, 0, None, vals); Canonical(v) && Contents(v) == vals && Holds(n, 0, Leaf(vals), fp)
  {
  }

  lemma AssocReady(p: Vector, v: Vec, index: nat, x: Val, fp: set<Node>, w: set<Node>, isUnique: bool,
                   unique: set<Node>)
    requires Canonical(v) && p.Represents(v, fp) && p.OwnsForAssoc(v, index, fp, w, isUnique, unique)
    requires index < v.count - |v.tail|
    ensures v.root.Some? && p.root != null
    ensures var (t, d) := (v.root.value, v.shift / 5);
            && Spine(t, d) && v.shift == 5 * d && index % Power(d + 1) < |Elems(t)|
            && Route(p.root, d, t, IndexSlots(d, index), Depths(0, d), fp, w, p.ModeOf(isUnique, unique), false)
            && Holds(p.tail, 0, Leaf(v.tail), fp - w)
            && Ops.Assoc(v, index, x) == Some(v.(root := Some(Ops.ReplacePath(t, d, index, x))))
            && p.AssocPivot(v, index, fp, isUnique, unique)
               == Pivot(p.root, d, IndexSlots(d, index), Depths(0, d), fp, p.ModeOf(isUnique, unique))
  {
    Ops.InTree(v, index);
    var t, d := v.root.value, v.shift / 5;
    if !p.Reusable(isUnique) {
      CopyingNeedsNoOwnership(p.root, d, t, IndexSlots(d, index), Depths(0, d), fp, p.ModeOf(isUnique, unique), false);
    }
  }

  lemma TailHolds(n: Node, x: Val, fp: set<Node>)
    requires n in fp && n.leaf && n.vals == [x]
    ensures Holds(n, 0, Leaf([x]), fp)
  {
  }

  /** What pushing the tail of a vector with a root relies on. */
  lemma ConjReady(p: Vector, v: Vec, x: Val, fp: set<Node>, isUnique: bool, unique: set<Node>)
    requires Canonical(v) && p.Represents(v, fp) && |v.tail| == BRANCHING && p.root != null
    ensures var (t, d, w) := (v.root.value, v.shift / 5, p.ConjWrites(v, fp, isUnique, unique));
            && Spine(t, d) && v.shift == 5 * d && (v.shift + 5) / 5 == d + 1
            && w == Written(p.root, d, LastSlots(t, d), PushDepths(t, d), fp, p.ModeOf(isUnique, unique))
            && Route(p.root, d, t, LastSlots(t, d), PushDepths(t, d), fp, w, p.ModeOf(isUnique, unique), false)
            && Holds(p.tail, 0, Leaf(v.tail), fp - w)
            && var (rt, yes) := Ops.PushTail(t, Leaf(v.tail), d, true);
               Ops.Conj(v, x) == Vec(v.count + 1, if yes then v.shift else v.shift + 5, Some(rt), [x])
  {
    var t, d := v.root.value, v.shift / 5;
    PushRoute(p.root, d, t, LastSlots(t, d), PushDepths(t, d), fp, p.ModeOf(isUnique, unique));
    WrittenHaveRoom(p.root, d, t, LastSlots(t, d), PushDepths(t, d), fp, p.ModeOf(isUnique, unique));
  }

  /** A node with room is no leaf of the tree. */
  lemma {:induction false} AvoidsShortLeaf(n: Node, d: nat, t: Tree, fp: set<Node>, leaf: Node)
    requires Spine(t, d) && Holds(n, d, t, fp) && leaf.leaf && |leaf.vals| < BRANCHING
    ensures Holds(n, d, t, fp - {leaf})
    decreases d
  {
    if d != 0 {
      forall i | 0 <= i < |n.kids| ensures Holds(n.kids[i], d - 1, t.kids[i], fp - {leaf}) {
        Ops.ChildIsSpine(t, d, i);
        AvoidsShortLeaf(n.kids[i], d - 1, t.kids[i], fp, leaf);
      }
    }
  }
}
