/** What an operation on one vector does to the others that share its nodes. Copying never disturbs them.
    Writing in place does, in two situations the code allows; both are pinned down exactly. */
module VectorSharing {
  import opened Options
  import opened Shifts
  import opened VectorTree
  import opened VectorNodes
  import opened PersistentVector
  import Ops = VectorOps

  // ---------------------------------------------------------------- copying: every version survives

  datatype Op = Conj(x: Val) | Assoc(index: nat, x: Val) | Pop

  /** An operation applied to an earlier version. */
  datatype Edit = Edit(version: nat, op: Op)

  function Apply(v: Vec, op: Op): (r: Option<Vec>)
    requires Canonical(v)
    ensures r.Some? ==> Canonical(r.value)
  {
    match op
    case Conj(x) => Ops.ConjAppends(v, x); Some(Ops.Conj(v, x))
    case Assoc(index, x) => Ops.AssocUpdates(v, index, x); Ops.ConjAppends(v, x); Ops.Assoc(v, index, x)
    case Pop => Ops.PopDropsLast(v); Ops.Pop(v)
  }

  ghost predicate AllCanonical(vs: seq<Vec>) {
    forall k :: 0 <= k < |vs| ==> Canonical(vs[k])
  }

  /** The versions after some edits: each successful edit adds one, a failing one adds none. */
  function Versions(v: Vec, edits: seq<Edit>): (vs: seq<Vec>)
    requires Canonical(v)
    ensures AllCanonical(vs) && 0 < |vs| && vs[0] == v
  {
    if edits == [] then [v]
    else
      var vs, e := Versions(v, edits[..|edits| - 1]), edits[|edits| - 1];
      if |vs| <= e.version then vs
      else match Apply(vs[e.version], e.op)
        case None => vs
        case Some(w) => vs + [w]
  }

  /** One copying operation. It modifies nothing. */
  method Copying(p: Vector, op: Op, ghost v: Vec, ghost fp: set<Node>)
    returns (r: Vector?, ghost added: set<Node>)
    requires Canonical(v) && p.Represents(v, fp) && p.transientID == 0
    ensures fresh(added)
    ensures r == null <==> Apply(v, op).None?
    ensures r != null ==> r.Represents(Apply(v, op).value, fp + added) && fresh(r) && r.transientID == 0
  {
    hide Ops.Conj, Ops.Assoc, Ops.Pop, Canonical;
    match op
    case Conj(x) => r, added := p.Conj(x, false, {}, v, fp);
    case Assoc(index, x) => r, added := p.Assoc(index, x, false, {}, v, fp, {});
    case Pop => r, added := p.Pop(false, {}, v, fp, {});
  }

  /** All versions are represented at the same time, sharing nodes as they may. */
  ghost predicate AllLive(ps: seq<Vector>, vs: seq<Vec>, fp: set<Node>)
    reads set k | 0 <= k < |ps| :: ps[k], fp
  {
    |ps| == |vs| && forall k :: 0 <= k < |ps| ==> ps[k].Represents(vs[k], fp) && ps[k].transientID == 0
  }

  /** Any run of copying operations, each on any earlier version: at the end every version still has the
      contents it was made with. */
  method History(p: Vector, edits: seq<Edit>, ghost v: Vec, ghost start: set<Node>)
    returns (ps: seq<Vector>, ghost fp: set<Node>)
    requires Canonical(v) && p.Represents(v, start) && p.transientID == 0
    ensures AllLive(ps, Versions(v, edits), fp) && ps[0] == p
  {
    ps, fp := [p], start;
    ghost var vs := [v];
    for i := 0 to |edits|
      invariant vs == Versions(v, edits[..i]) && AllLive(ps, vs, fp) && ps[0] == p
    {
      var e := edits[i];
      assert edits[..i + 1][..i] == edits[..i];
      if e.version < |ps| {
        var r, added := Copying(ps[e.version], e.op, vs[e.version], fp);
        if r != null {
          LiveGrows(ps, vs, fp, fp + added);
          ps, vs, fp := ps + [r], vs + [Apply(vs[e.version], e.op).value], fp + added;
        }
      }
    }
    assert edits[..|edits|] == edits;
  }

  lemma LiveGrows(ps: seq<Vector>, vs: seq<Vec>, fp: set<Node>, more: set<Node>)
    requires AllLive(ps, vs, fp) && fp <= more
    ensures AllLive(ps, vs, more)
  {
    forall k | 0 <= k < |ps| ensures ps[k].Represents(vs[k], more) {
      HoldsGrows(ps[k].tail, 0, Leaf(vs[k].tail), fp, more);
      if ps[k].root != null { HoldsGrows(ps[k].root, vs[k].shift / 5, vs[k].root.value, fp, more); }
    }
  }

  // ---------------------------------------------------------------- conj in place on a tail with room

  /** conj on a vector whose header is reusable, because its count is one or because the vector is transient, appends
      to the tail object without asking whether it is shared. Another vector keeps its value exactly when the
      header is not reusable or the other has a different tail. */
  method ConjBeside(p: Vector, o: Vector, x: Val, isUnique: bool, unique: set<Node>, ghost v: Vec,
                    ghost fp: set<Node>, ghost ov: Vec, ghost ofp: set<Node>)
    returns (r: Vector, ghost added: set<Node>)
    requires p != o && Canonical(v) && Canonical(ov) && p.Represents(v, fp) && o.Represents(ov, ofp)
    requires |v.tail| < BRANCHING
    modifies if isUnique || p.transientID != 0 then {p, p.tail} else {}
    ensures fresh(added) && r.Represents(Ops.Conj(v, x), fp + added)
    ensures if isUnique || old(p.transientID) != 0 then r == p && r.tail == old(p.tail) && added == {} else fresh(r)
    ensures o.Represents(ov, ofp) <==> !(isUnique || old(p.transientID) != 0) || o.tail != old(p.tail)
  {
    if o.root != null { AvoidsShortLeaf(o.root, ov.shift / 5, ov.root.value, ofp, p.tail); }
    r, added := p.Conj(x, isUnique, unique, v, fp);
    if o.root != null { HoldsGrows(o.root, ov.shift / 5, ov.root.value, ofp - {old(p.tail)}, ofp); }
  }

  // ---------------------------------------------------------------- one node changes

  /** The fields of some nodes at one moment. */
  datatype Fields = Fields(leaf: bool, vals: seq<Val>, kids: seq<Node>)

  ghost function Snapshot(fp: set<Node>): map<Node, Fields>
    reads fp
  {
    map n | n in fp :: Fields(n.leaf, n.vals, n.kids)
  }

  ghost predicate HeldIn(s: map<Node, Fields>, n: Node, d: nat, t: Tree)
    decreases d
  {
    && n in s
    && (if d == 0 then t.Leaf? && s[n].leaf && s[n].vals == t.vals
        else
          && t.Inner? && !s[n].leaf && |s[n].kids| == |t.kids|
          && forall i :: 0 <= i < |t.kids| ==> HeldIn(s, s[n].kids[i], d - 1, t.kids[i]))
  }

  lemma {:induction false} HoldsBySnapshot(n: Node, d: nat, t: Tree, fp: set<Node>)
    ensures Holds(n, d, t, fp) <==> HeldIn(Snapshot(fp), n, d, t)
    decreases d
  {
    if d != 0 && n in fp && t.Inner? && |n.kids| == |t.kids| {
      forall i | 0 <= i < |t.kids|
        ensures Holds(n.kids[i], d - 1, t.kids[i], fp) <==> HeldIn(Snapshot(fp), n.kids[i], d - 1, t.kids[i])
      {
        HoldsBySnapshot(n.kids[i], d - 1, t.kids[i], fp);
      }
    }
  }

  /** At one moment a node stands for trees of one depth, hence for one tree. */
  lemma {:induction false} HeldIsUnique(s: map<Node, Fields>, n: Node, d: nat, t: Tree, e: nat, u: Tree)
    requires HeldIn(s, n, d, t) && HeldIn(s, n, e, u) && (d == e || e == 0 || Spine(u, e))
    ensures d == e && t == u
    decreases d
  {
    if d != 0 {
      if d != e {
        Ops.ChildIsSpine(u, e, 0);
        HeldIsUnique(s, s[n].kids[0], d - 1, t.kids[0], e - 1, u.kids[0]);
      }
      forall i | 0 <= i < |t.kids| ensures t.kids[i] == u.kids[i] {
        HeldIsUnique(s, s[n].kids[i], d - 1, t.kids[i], e - 1, u.kids[i]);
      }
    }
  }

  /** From `s` to `s'` no node but `m` changed; there may be new ones. */
  ghost predicate OnlyChanged(s: map<Node, Fields>, s': map<Node, Fields>, m: Node) {
    forall n :: n in s ==> n in s' && (n != m ==> s'[n] == s[n])
  }

  /** Node `m` turns from standing for `u` to standing for `u'`: a tree survives exactly when it makes do without
      `m`, or the two are the same. */
  lemma {:induction false} AfterChange(s: map<Node, Fields>, s': map<Node, Fields>, m: Node, k: nat, u: Tree, u': Tree,
                                       n: Node, d: nat, t: Tree)
    requires OnlyChanged(s, s', m) && HeldIn(s, m, k, u) && Spine(u, k) && HeldIn(s', m, k, u') && HeldIn(s, n, d, t)
    ensures HeldIn(s', n, d, t) <==> HeldIn(s - {m}, n, d, t) || u' == u
    decreases d
  {
    if n == m {
      HeldIsUnique(s, n, d, t, k, u);
      if HeldIn(s', n, d, t) { HeldIsUnique(s', n, d, t, k, u'); }
    } else if d != 0 {
      forall i | 0 <= i < |t.kids|
        ensures HeldIn(s', s[n].kids[i], d - 1, t.kids[i]) <==>
                HeldIn(s - {m}, s[n].kids[i], d - 1, t.kids[i]) || u' == u
      {
        AfterChange(s, s', m, k, u, u', s[n].kids[i], d - 1, t.kids[i]);
      }
    }
  }

  lemma {:induction false} HeldGrows(s: map<Node, Fields>, s': map<Node, Fields>, n: Node, d: nat, t: Tree)
    requires HeldIn(s, n, d, t) && forall m :: m in s ==> m in s' && s'[m] == s[m]
    ensures HeldIn(s', n, d, t)
    decreases d
  {
    if d != 0 {
      forall i | 0 <= i < |t.kids| ensures HeldIn(s', s[n].kids[i], d - 1, t.kids[i]) {
        HeldGrows(s, s', s[n].kids[i], d - 1, t.kids[i]);
      }
    }
  }

  ghost predicate VectorHeldIn(s: map<Node, Fields>, o: Vector, v: Vec)
    reads o
  {
    && o.count == v.count && o.shift == v.shift
    && (o.root == null <==> v.root.None?)
    && (o.root != null ==> HeldIn(s, o.root, v.shift / 5, v.root.value))
    && HeldIn(s, o.tail, 0, Leaf(v.tail))
  }

  lemma RepresentsBySnapshot(o: Vector, v: Vec, fp: set<Node>)
    ensures o.Represents(v, fp) <==> VectorHeldIn(Snapshot(fp), o, v)
  {
    HoldsBySnapshot(o.tail, 0, Leaf(v.tail), fp);
    if o.root != null && v.root.Some? { HoldsBySnapshot(o.root, v.shift / 5, v.root.value, fp); }
  }

  /** What one changed node, or none, does to a vector. */
  lemma VectorAfterChange(s: map<Node, Fields>, s': map<Node, Fields>, p: Option<Place>, u: Tree, u': Tree, o: Vector,
                          v: Vec)
    requires VectorHeldIn(s, o, v)
    requires p.None? ==> forall n :: n in s ==> n in s' && s'[n] == s[n]
    requires p.Some? ==>
               && OnlyChanged(s, s', p.value.node) && Spine(u, p.value.depth)
               && HeldIn(s, p.value.node, p.value.depth, u) && HeldIn(s', p.value.node, p.value.depth, u')
    ensures VectorHeldIn(s', o, v) <==> p.None? || VectorHeldIn(s - {p.value.node}, o, v) || u' == u
  {
    if p.None? {
      HeldGrows(s, s', o.tail, 0, Leaf(v.tail));
      if o.root != null { HeldGrows(s, s', o.root, v.shift / 5, v.root.value); }
    } else {
      AfterChange(s, s', p.value.node, p.value.depth, u, u', o.tail, 0, Leaf(v.tail));
      if o.root != null {
        AfterChange(s, s', p.value.node, p.value.depth, u, u', o.root, v.shift / 5, v.root.value);
      }
    }
  }

  /** Nodes beyond those a vector uses make no difference to whether it makes do without one. */
  lemma {:induction false} HoldsMeets(n: Node, d: nat, t: Tree, a: set<Node>, b: set<Node>)
    requires Holds(n, d, t, a) && Holds(n, d, t, b)
    ensures Holds(n, d, t, a * b)
    decreases d
  {
    if d != 0 {
      forall i | 0 <= i < |n.kids| ensures Holds(n.kids[i], d - 1, t.kids[i], a * b) {
        HoldsMeets(n.kids[i], d - 1, t.kids[i], a, b);
      }
    }
  }

  lemma Grows(o: Vector, v: Vec, fp: set<Node>, more: set<Node>)
    requires o.Represents(v, fp) && fp <= more
    ensures o.Represents(v, more)
  {
    HoldsGrows(o.tail, 0, Leaf(v.tail), fp, more);
    if o.root != null { HoldsGrows(o.root, v.shift / 5, v.root.value, fp, more); }
  }

  lemma WithoutNode(o: Vector, v: Vec, fp: set<Node>, more: set<Node>, m: Node)
    requires o.Represents(v, fp) && fp <= more
    ensures o.Represents(v, more - {m}) <==> o.Represents(v, fp - {m})
  {
    if o.Represents(v, more - {m}) {
      HoldsMeets(o.tail, 0, Leaf(v.tail), fp, more - {m});
      if o.root != null { HoldsMeets(o.root, v.shift / 5, v.root.value, fp, more - {m}); }
      assert fp * (more - {m}) == fp - {m};
    }
    if o.Represents(v, fp - {m}) { Grows(o, v, fp - {m}, more - {m}); }
  }

  /** The state of another vector before a call that changes at most the node `p`. */
  lemma Before(o: Vector, ov: Vec, ofp: set<Node>, all: set<Node>, p: Option<Place>)
    requires o.Represents(ov, ofp) && ofp <= all
    ensures VectorHeldIn(Snapshot(all), o, ov)
    ensures p.Some? ==> (VectorHeldIn(Snapshot(all) - {p.value.node}, o, ov) <==>
            o.Represents(ov, ofp - {p.value.node}))
  {
    Grows(o, ov, ofp, all);
    RepresentsBySnapshot(o, ov, all);
    if p.Some? {
      RepresentsBySnapshot(o, ov, all - {p.value.node});
      assert Snapshot(all - {p.value.node}) == Snapshot(all) - {p.value.node};
      WithoutNode(o, ov, ofp, all, p.value.node);
    }
  }

  // ---------------------------------------------------------------- conj of a full tail

  /** The subtree at the pivot, and that pushing enlarges it. */
  lemma ConjPivotHolds(p: Vector, v: Vec, x: Val, fp: set<Node>, isUnique: bool, unique: set<Node>)
    requires Canonical(v) && p.Represents(v, fp) && |v.tail| == BRANCHING && p.ConjPivot(v, fp, isUnique, unique).Some?
    ensures v.root.Some? && Spine(v.root.value, v.shift / 5)
    ensures var (q, t, d) := (p.ConjPivot(v, fp, isUnique, unique).value, v.root.value, v.shift / 5);
            var (path, w) := (LastSlots(t, d), Ops.Conj(v, x));
            && Spine(Sub(t, d, path, q.depth), q.depth) && Holds(q.node, q.depth, Sub(t, d, path, q.depth), fp)
            && w.shift == v.shift && w.root.Some?
            && Sub(w.root.value, d, path, q.depth) != Sub(t, d, path, q.depth)
  {
    var t, d := v.root.value, v.shift / 5;
    var path, hot := LastSlots(t, d), PushDepths(t, d);
    var q := p.ConjPivot(v, fp, isUnique, unique).value;
    assert Full(Leaf(v.tail), 0);
    PivotWalk(p.root, d, path, hot, fp, p.ModeOf(isUnique, unique));
    WalkHolds(p.root, d, t, path, q.depth, q.node, fp);
    PushSub(t, Leaf(v.tail), d, true, path, hot, q.depth);
  }

  /** conj on a vector with a full tail whose header is reusable pushes the tail into the reused part of the right
      spine, shared or not; the id zero of persistent vectors counts as the vector's own. Another vector keeps its
      value exactly when it makes do without the reused nodes. */
  method ConjFullBeside(p: Vector, o: Vector, x: Val, isUnique: bool, unique: set<Node>, ghost v: Vec,
                        ghost fp: set<Node>, ghost ov: Vec, ghost ofp: set<Node>)
    returns (r: Vector, ghost added: set<Node>)
    requires p != o && Canonical(v) && Canonical(ov) && p.Represents(v, fp) && o.Represents(ov, ofp)
    requires |v.tail| == BRANCHING
    modifies if isUnique || p.transientID != 0 then {p} else {}, ReusedSpine(p, v, fp, isUnique, unique)
    ensures r.Represents(Ops.Conj(v, x), fp + added)
    ensures o.Represents(ov, ofp + fp + added) <==>
            old(o.Represents(ov, ofp - ReusedSpine(p, v, fp, isUnique, unique)))
  {
    hide Canonical, Holds, HeldIn, VectorHeldIn, Spine, Pivot, Written, Walk, LastSlots, PushDepths, Ops.Conj,
      Reused, ReusedSpine;
    ghost var q, before := p.ConjPivot(v, fp, isUnique, unique), Snapshot(ofp + fp);
    ghost var u, u' := Leaf([]), Leaf([]);
    SharesNoSpine(p, v, fp, o, ov, ofp, isUnique, unique);
    Before(o, ov, ofp, ofp + fp, q);
    if q.Some? {
      ConjPivotHolds(p, v, x, fp, isUnique, unique);
      u := Sub(v.root.value, v.shift / 5, LastSlots(v.root.value, v.shift / 5), q.value.depth);
      u' := Sub(Ops.Conj(v, x).root.value, v.shift / 5, LastSlots(v.root.value, v.shift / 5), q.value.depth);
      InSnapshot(q.value.node, q.value.depth, u, fp, ofp + fp);
    }
    r, added := p.Conj(x, isUnique, unique, v, fp);
    if q.Some? {
      assert r.root != null && Holds(r.root, v.shift / 5, Ops.Conj(v, x).root.value, fp + added);
      FromRoot(r.root, v, Ops.Conj(v, x), q, fp, fp + added);
      InSnapshot(q.value.node, q.value.depth, u', fp + added, ofp + fp + added);
    }
    RepresentsBySnapshot(o, ov, ofp + fp + added);
    VectorAfterChange(before, Snapshot(ofp + fp + added), q, u, u', o, ov);
  }

  lemma InSnapshot(n: Node, d: nat, t: Tree, fp: set<Node>, all: set<Node>)
    requires Holds(n, d, t, fp) && fp <= all
    ensures HeldIn(Snapshot(all), n, d, t)
  {
    HoldsGrows(n, d, t, fp, all);
    HoldsBySnapshot(n, d, t, all);
  }

  lemma FromRoot(root: Node, v: Vec, w: Vec, q: Option<Place>, fp: set<Node>, all: set<Node>)
    requires q.Some? && SpineLeadsTo(root, v, fp, q) && fp <= all && w.root.Some?
             && Holds(root, v.shift / 5, w.root.value, all)
    ensures var path := LastSlots(v.root.value, v.shift / 5);
            Holds(q.value.node, q.value.depth, Sub(w.root.value, v.shift / 5, path, q.value.depth), all)
  {
    var path := LastSlots(v.root.value, v.shift / 5);
    WalkGrows(root, v.shift / 5, path, q.value.depth, q.value.node, fp, all);
    WalkHolds(root, v.shift / 5, w.root.value, path, q.value.depth, q.value.node, all);
  }

  /** The nodes conj of a full tail writes: from the root down the right spine, those whose reference count is one or
      that carry the vector's id, as far as there is room below. */
  ghost function ReusedSpine(p: Vector, v: Vec, fp: set<Node>, isUnique: bool, unique: set<Node>): set<Node>
    requires Canonical(v) && p.Represents(v, fp)
    reads p, fp
  {
    if !(isUnique || p.transientID != 0) || p.root == null then {}
    else
      var t, d := v.root.value, v.shift / 5;
      Reused(p.root, d, LastSlots(t, d), PushFloor(t, d), fp, unique, p.transientID, true)
  }

  /** They all lead to the one that changes: a vector makes do without that one exactly when it makes do without
      all of them. */
  lemma SharesNoSpine(p: Vector, v: Vec, fp: set<Node>, o: Vector, ov: Vec, ofp: set<Node>, isUnique: bool,
                      unique: set<Node>)
    requires Canonical(v) && Canonical(ov) && p.Represents(v, fp) && o.Represents(ov, ofp) && |v.tail| == BRANCHING
    ensures var (q, w) := (p.ConjPivot(v, fp, isUnique, unique), ReusedSpine(p, v, fp, isUnique, unique));
            && w == p.ConjWrites(v, fp, isUnique, unique)
            && (o.Represents(ov, ofp - w) <==> q.None? || o.Represents(ov, ofp - {q.value.node}))
  {
    var w := ReusedSpine(p, v, fp, isUnique, unique);
    assert ofp - {} == ofp;
    if p.root != null {
      var t, d := v.root.value, v.shift / 5;
      var q := p.ConjPivot(v, fp, isUnique, unique);
      FloorOfPush(t, d, PushDepths(t, d));
      WrittenIsReused(p.root, d, LastSlots(t, d), PushDepths(t, d), PushFloor(t, d), fp, p.ModeOf(isUnique, unique));
      WrittenLeadToPivot(p.root, d, t, LastSlots(t, d), PushDepths(t, d), fp, p.ModeOf(isUnique, unique));
      if q.Some? { MakesDo(o, ov, ofp, w, LastSlots(t, d), fp, q.value); }
    }
  }

  lemma MakesDo(o: Vector, ov: Vec, ofp: set<Node>, w: set<Node>, path: seq<nat>, fp: set<Node>, q: Place)
    requires Canonical(ov) && o.Represents(ov, ofp)
    requires q.node in w && forall m :: m in w ==> LeadsToPivot(m, path, fp, q)
    ensures o.Represents(ov, ofp - {q.node}) <==> o.Represents(ov, ofp - w)
  {
    if o.Represents(ov, ofp - {q.node}) {
      NeedsPivot(o.tail, 0, Leaf(ov.tail), ofp, w, path, fp, q);
      if o.root != null { NeedsPivot(o.root, ov.shift / 5, ov.root.value, ofp, w, path, fp, q); }
    }
    if o.Represents(ov, ofp - w) { Grows(o, ov, ofp - w, ofp - {q.node}); }
  }

  // ---------------------------------------------------------------- assoc in the tree

  /** The nodes assoc in the tree writes: from the root down the path to the element, those whose reference count is one
      or that carry the vector's id. */
  ghost function ReusedPath(p: Vector, v: Vec, index: nat, fp: set<Node>, isUnique: bool, unique: set<Node>): set<Node>
    requires Canonical(v) && p.Represents(v, fp) && index < v.count - |v.tail|
    reads p, fp
  {
    Ops.InTree(v, index);
    if !(isUnique || p.transientID != 0) then {}
    else Reused(p.root, v.shift / 5, IndexSlots(v.shift / 5, index), 0, fp, unique, p.transientID, true)
  }

  lemma SharesNoPath(p: Vector, v: Vec, index: nat, fp: set<Node>, o: Vector, ov: Vec, ofp: set<Node>, isUnique: bool,
                     unique: set<Node>)
    requires Canonical(v) && Canonical(ov) && p.Represents(v, fp) && o.Represents(ov, ofp) && index < v.count - |v.tail|
    ensures var (q, w) := (p.AssocPivot(v, index, fp, isUnique, unique), ReusedPath(p, v, index, fp, isUnique, unique));
            o.Represents(ov, ofp - w) <==> q.None? || o.Represents(ov, ofp - {q.value.node})
  {
    Ops.InTree(v, index);
    var t, d := v.root.value, v.shift / 5;
    var q, w := p.AssocPivot(v, index, fp, isUnique, unique), ReusedPath(p, v, index, fp, isUnique, unique);
    assert ofp - {} == ofp;
    WrittenIsReused(p.root, d, IndexSlots(d, index), Depths(0, d), 0, fp, p.ModeOf(isUnique, unique));
    WrittenLeadToPivot(p.root, d, t, IndexSlots(d, index), Depths(0, d), fp, p.ModeOf(isUnique, unique));
    if q.Some? { MakesDo(o, ov, ofp, w, IndexSlots(d, index), fp, q.value); }
  }

  /** The subtree at the pivot, and when replacing the element leaves it as it was. */
  lemma AssocPivotHolds(p: Vector, v: Vec, index: nat, x: Val, fp: set<Node>, isUnique: bool, unique: set<Node>)
    requires Canonical(v) && p.Represents(v, fp) && index < v.count - |v.tail|
    requires p.AssocPivot(v, index, fp, isUnique, unique).Some?
    ensures v.root.Some? && Ops.Assoc(v, index, x).Some? && Ops.Assoc(v, index, x).value.root.Some?
    ensures var (q, t, d) := (p.AssocPivot(v, index, fp, isUnique, unique).value, v.root.value, v.shift / 5);
            var (path, w) := (IndexSlots(d, index), Ops.Assoc(v, index, x).value);
            && Spine(Sub(t, d, path, q.depth), q.depth) && Holds(q.node, q.depth, Sub(t, d, path, q.depth), fp)
            && w.shift == v.shift
            && (Sub(w.root.value, d, path, q.depth) == Sub(t, d, path, q.depth) <==> Contents(v)[index] == x)
  {
    Ops.InTree(v, index);
    var t, d := v.root.value, v.shift / 5;
    var path := IndexSlots(d, index);
    var q := p.AssocPivot(v, index, fp, isUnique, unique).value;
    PivotWalk(p.root, d, path, Depths(0, d), fp, p.ModeOf(isUnique, unique));
    hide Pivot, Walk, Power, Slot, Holds, Elems;
    WalkHolds(p.root, d, t, path, q.depth, q.node, fp);
    ReplaceSub(t, d, index, x, path, q.depth);
    ReplaceIsIdentity(Sub(t, d, path, q.depth), q.depth, index, x);
  }

  lemma FromPath(root: Node, v: Vec, index: nat, w: Vec, q: Place, fp: set<Node>, all: set<Node>)
    requires q.depth <= v.shift / 5 && Walk(root, v.shift / 5, IndexSlots(v.shift / 5, index), q.depth, q.node, fp)
    requires fp <= all && w.root.Some? && Holds(root, v.shift / 5, w.root.value, all)
    ensures Holds(q.node, q.depth, Sub(w.root.value, v.shift / 5, IndexSlots(v.shift / 5, index), q.depth), all)
  {
    var path := IndexSlots(v.shift / 5, index);
    WalkGrows(root, v.shift / 5, path, q.depth, q.node, fp, all);
    WalkHolds(root, v.shift / 5, w.root.value, path, q.depth, q.node, all);
  }

  /** What assoc writes occurs nowhere else in the vector itself. */
  ghost predicate OwnsPath(p: Vector, v: Vec, index: nat, fp: set<Node>, w: set<Node>)
    requires Canonical(v) && p.Represents(v, fp) && index < v.count - |v.tail|
    reads p, fp
  {
    Ops.InTree(v, index);
    p.tail !in w && Exclusive(p.root, v.shift / 5, v.root.value, IndexSlots(v.shift / 5, index), fp, w)
  }

  lemma OwnsAssoc(p: Vector, v: Vec, index: nat, fp: set<Node>, isUnique: bool, unique: set<Node>)
    requires Canonical(v) && p.Represents(v, fp) && index < v.count - |v.tail|
    requires OwnsPath(p, v, index, fp, ReusedPath(p, v, index, fp, isUnique, unique))
    ensures p.OwnsForAssoc(v, index, fp, ReusedPath(p, v, index, fp, isUnique, unique), isUnique, unique)
  {
    Ops.InTree(v, index);
    var t, d := v.root.value, v.shift / 5;
    ExclusiveRoute(p.root, d, t, IndexSlots(d, index), Depths(0, d), 0, fp,
      ReusedPath(p, v, index, fp, isUnique, unique), p.ModeOf(isUnique, unique), false);
  }

  /** assoc on a vector whose header is reusable writes into the reused nodes of the path, shared or not; the id zero of
      persistent vectors counts as the vector's own. Another vector keeps its value exactly when it makes do
      without these nodes, or the element was there already. */
  method AssocBeside(p: Vector, o: Vector, index: nat, x: Val, isUnique: bool, unique: set<Node>, ghost v: Vec,
                     ghost fp: set<Node>, ghost ov: Vec, ghost ofp: set<Node>)
    returns (r: Vector, ghost added: set<Node>)
    requires p != o && Canonical(v) && Canonical(ov) && p.Represents(v, fp) && o.Represents(ov, ofp)
    requires index < v.count - |v.tail| && OwnsPath(p, v, index, fp, ReusedPath(p, v, index, fp, isUnique, unique))
    modifies if isUnique || p.transientID != 0 then {p} else {}, ReusedPath(p, v, index, fp, isUnique, unique)
    ensures r.Represents(Ops.Assoc(v, index, x).value, fp + added)
    ensures o.Represents(ov, ofp + fp + added) <==>
            old(o.Represents(ov, ofp - ReusedPath(p, v, index, fp, isUnique, unique))) || Contents(v)[index] == x
  {
    hide Canonical, Holds, HeldIn, VectorHeldIn, Spine, Pivot, Walk, IndexSlots, Ops.Assoc, Contents, Reused,
      ReusedPath;
    ghost var q, before := p.AssocPivot(v, index, fp, isUnique, unique), Snapshot(ofp + fp);
    ghost var u, u' := Leaf([]), Leaf([]);
    ghost var w := ReusedPath(p, v, index, fp, isUnique, unique);
    OwnsAssoc(p, v, index, fp, isUnique, unique);
    SharesNoPath(p, v, index, fp, o, ov, ofp, isUnique, unique);
    Before(o, ov, ofp, ofp + fp, q);
    if q.Some? {
      AssocPivotHolds(p, v, index, x, fp, isUnique, unique);
      u := Sub(v.root.value, v.shift / 5, IndexSlots(v.shift / 5, index), q.value.depth);
      u' := Sub(Ops.Assoc(v, index, x).value.root.value, v.shift / 5, IndexSlots(v.shift / 5, index), q.value.depth);
      InSnapshot(q.value.node, q.value.depth, u, fp, ofp + fp);
    }
    r, added := p.AssocTree(index, x, isUnique, unique, v, fp, w);
    if q.Some? {
      FromPath(r.root, v, index, Ops.Assoc(v, index, x).value, q.value, fp, fp + added);
      InSnapshot(q.value.node, q.value.depth, u', fp + added, ofp + fp + added);
    }
    RepresentsBySnapshot(o, ov, ofp + fp + added);
    VectorAfterChange(before, Snapshot(ofp + fp + added), q, u, u', o, ov);
  }

  // ---------------------------------------------------------------- several nodes change

  /** From `s` to `s'` each node in `c` stops standing for what it stood for, and nothing else changes: a tree survives
      exactly when it makes do without the nodes in `c`. */
  lemma {:induction false} AfterChanges(s: map<Node, Fields>, s': map<Node, Fields>, c: set<Node>, n: Node, d: nat,
                                        t: Tree)
    requires AllLost(s, s', c) && HeldIn(s, n, d, t)
    ensures HeldIn(s', n, d, t) <==> HeldIn(s - c, n, d, t)
    decreases d
  {
    if n in c {
      var k: nat, u :| (k == 0 || Spine(u, k)) && HeldIn(s, n, k, u) && !HeldIn(s', n, k, u);
      HeldIsUnique(s, n, d, t, k, u);
    } else if d != 0 {
      forall i | 0 <= i < |t.kids|
        ensures HeldIn(s', s[n].kids[i], d - 1, t.kids[i]) <==> HeldIn(s - c, s[n].kids[i], d - 1, t.kids[i])
      {
        AfterChanges(s, s', c, s[n].kids[i], d - 1, t.kids[i]);
      }
    }
  }

  ghost predicate Lost(s: map<Node, Fields>, s': map<Node, Fields>, n: Node) {
    exists k: nat, u :: (k == 0 || Spine(u, k)) && HeldIn(s, n, k, u) && !HeldIn(s', n, k, u)
  }

  ghost predicate AllLost(s: map<Node, Fields>, s': map<Node, Fields>, c: set<Node>) {
    && (forall n :: n in s ==> n in s' && (n !in c ==> s'[n] == s[n]))
    && (forall n :: n in c ==> Lost(s, s', n))
  }

  /** The other vector, before and after. */
  lemma BesideChanges(o: Vector, ov: Vec, ofp: set<Node>, all: set<Node>, c: set<Node>)
    requires o.Represents(ov, ofp) && ofp <= all
    ensures VectorHeldIn(Snapshot(all), o, ov)
    ensures VectorHeldIn(Snapshot(all) - c, o, ov) <==> o.Represents(ov, ofp - c)
  {
    Grows(o, ov, ofp, all);
    RepresentsBySnapshot(o, ov, all);
    RepresentsBySnapshot(o, ov, all - c);
    assert Snapshot(all - c) == Snapshot(all) - c;
    if o.Represents(ov, all - c) {
      HoldsMeets(o.tail, 0, Leaf(ov.tail), ofp, all - c);
      if o.root != null { HoldsMeets(o.root, ov.shift / 5, ov.root.value, ofp, all - c); }
      assert ofp * (all - c) == ofp - c;
    }
    if o.Represents(ov, ofp - c) { Grows(o, ov, ofp - c, all - c); }
  }

  lemma VectorAfterChanges(s: map<Node, Fields>, s': map<Node, Fields>, c: set<Node>, o: Vector, ov: Vec)
    requires AllLost(s, s', c) && VectorHeldIn(s, o, ov)
    ensures VectorHeldIn(s', o, ov) <==> VectorHeldIn(s - c, o, ov)
  {
    AfterChanges(s, s', c, o.tail, 0, Leaf(ov.tail));
    if o.root != null { AfterChanges(s, s', c, o.root, ov.shift / 5, ov.root.value); }
  }

  // ---------------------------------------------------------------- assoc and pop in the tail

  /** The tail, when assoc and pop write it in place: both it and the header have a reference count of one, or it
      carries the id of a transient vector. */
  ghost function ReusedTail(p: Vector, isUnique: bool, unique: set<Node>): set<Node>
    reads p, p.tail
  {
    var id := p.transientID;
    if ((isUnique || id != 0) && p.tail in unique) || (id != 0 && id == p.tail.transientID) then {p.tail} else {}
  }

  /** A leaf with other elements has lost its value. */
  lemma LeafIsLost(s: map<Node, Fields>, s': map<Node, Fields>, n: Node, vals: seq<Val>)
    requires HeldIn(s, n, 0, Leaf(vals)) && n in s' && s'[n].vals != vals
    ensures Lost(s, s', n)
  {
    assert !HeldIn(s', n, 0, Leaf(vals));
  }

  /** assoc in the tail. Another vector keeps its value exactly when it makes do without a reused tail, or the element
      was there already. */
  method AssocTailBeside(p: Vector, o: Vector, index: nat, x: Val, isUnique: bool, unique: set<Node>, ghost v: Vec,
                         ghost fp: set<Node>, ghost ov: Vec, ghost ofp: set<Node>)
    returns (r: Vector, ghost added: set<Node>)
    requires p != o && Canonical(v) && Canonical(ov) && p.Represents(v, fp) && o.Represents(ov, ofp)
    requires v.count - |v.tail| <= index < v.count
    requires p.root != null ==> Holds(p.root, v.shift / 5, v.root.value, fp - ReusedTail(p, isUnique, unique))
    modifies if isUnique || p.transientID != 0 then {p} else {}, ReusedTail(p, isUnique, unique)
    ensures r.Represents(Ops.Assoc(v, index, x).value, fp + added)
    ensures o.Represents(ov, ofp + fp + added) <==>
            old(o.Represents(ov, ofp - ReusedTail(p, isUnique, unique))) || Contents(v)[index] == x
  {
    ghost var w, before := ReusedTail(p, isUnique, unique), Snapshot(ofp + fp);
    BesideChanges(o, ov, ofp, ofp + fp, w);
    InSnapshot(p.tail, 0, Leaf(v.tail), fp, ofp + fp);
    TailElement(v, index, x);
    hide Canonical, Holds, HeldIn, VectorHeldIn, Ops.Assoc, Lost, Spine, Contents;
    r, added := p.AssocTail(index, x, isUnique, unique, v, fp, w);
    ghost var all := ofp + fp + added;
    RepresentsBySnapshot(o, ov, all);
    TailHas(r, Ops.Assoc(v, index, x).value, fp + added);
    assert before - {} == before;
    if w == {} || Contents(v)[index] == x {
      assert w != {} ==> Snapshot(all)[r.tail] == before[r.tail];
      VectorAfterChanges(before, Snapshot(all), {}, o, ov);
    } else {
      LeafIsLost(before, Snapshot(all), r.tail, v.tail);
      VectorAfterChanges(before, Snapshot(all), w, o, ov);
    }
  }

  lemma TailHas(r: Vector, v: Vec, fp: set<Node>)
    requires r.Represents(v, fp)
    ensures r.tail in fp && r.tail.vals == v.tail
  {
  }

  lemma TailElement(v: Vec, index: nat, x: Val)
    requires Canonical(v) && v.count - |v.tail| <= index < v.count
    ensures var i := index - (v.count - |v.tail|);
            && Contents(v)[index] == v.tail[i] && Ops.Assoc(v, index, x).Some?
            && Ops.Assoc(v, index, x).value.tail == v.tail[i := x]
  {
  }

  // ---------------------------------------------------------------- pop

  /** The nodes pop writes: a reused tail of several elements, or else, from the root down the right spine, the inner
      nodes whose reference count is one or that carry the id of a transient vector. The id zero does not count. */
  ghost function ReusedByPop(p: Vector, v: Vec, fp: set<Node>, isUnique: bool, unique: set<Node>): set<Node>
    requires Canonical(v) && p.Represents(v, fp)
    reads p, p.tail, fp
  {
    if 1 < |v.tail| then ReusedTail(p, isUnique, unique)
    else if !(isUnique || p.transientID != 0) || p.root == null then {}
    else
      var t, d := v.root.value, v.shift / 5;
      Reused(p.root, d, LastSlots(t, d), 1, fp, unique, p.transientID, false)
  }

  /** What pop writes occurs nowhere else in the vector itself. */
  ghost predicate OwnsReused(p: Vector, v: Vec, fp: set<Node>, w: set<Node>)
    requires Canonical(v) && p.Represents(v, fp)
    reads p, fp
  {
    p.root != null ==>
      if 1 < |v.tail| then Holds(p.root, v.shift / 5, v.root.value, fp - w)
      else Exclusive(p.root, v.shift / 5, v.root.value, LastSlots(v.root.value, v.shift / 5), fp, w)
  }

  lemma OwnsPop(p: Vector, v: Vec, fp: set<Node>, isUnique: bool, unique: set<Node>)
    requires Canonical(v) && p.Represents(v, fp) && OwnsReused(p, v, fp, ReusedByPop(p, v, fp, isUnique, unique))
    ensures p.OwnsForPop(v, fp, ReusedByPop(p, v, fp, isUnique, unique), isUnique, unique)
  {
    if |v.tail| <= 1 && p.root != null {
      var t, d := v.root.value, v.shift / 5;
      ExclusiveRoute(p.root, d, t, LastSlots(t, d), Depths(1, d), 1, fp, ReusedByPop(p, v, fp, isUnique, unique),
        p.ModeOf(isUnique, unique), true);
    }
  }

  /** pop. Another vector keeps its value exactly when it makes do without the nodes pop writes. In particular, beside a
      persistent vector all those survive that use no node with a reference count of one. */
  method PopBeside(p: Vector, o: Vector, isUnique: bool, unique: set<Node>, ghost v: Vec, ghost fp: set<Node>,
                   ghost ov: Vec, ghost ofp: set<Node>)
    returns (r: Vector, ghost added: set<Node>)
    requires p != o && Canonical(v) && Canonical(ov) && p.Represents(v, fp) && o.Represents(ov, ofp) && 0 < v.count
    requires OwnsReused(p, v, fp, ReusedByPop(p, v, fp, isUnique, unique))
    modifies if isUnique || p.transientID != 0 then {p} else {}, ReusedByPop(p, v, fp, isUnique, unique)
    ensures Ops.Pop(v).Some? && r.Represents(Ops.Pop(v).value, fp + added)
    ensures o.Represents(ov, ofp + fp + added) <==>
            old(o.Represents(ov, ofp - ReusedByPop(p, v, fp, isUnique, unique)))
    ensures old(p.transientID == 0 && o.Represents(ov, ofp - unique)) ==> o.Represents(ov, ofp + fp + added)
  {
    ghost var w, before := ReusedByPop(p, v, fp, isUnique, unique), Snapshot(ofp + fp);
    ghost var ns, tail := p.SpineNodes(v, fp), p.tail;
    PopIsSome(v);
    BesideChanges(o, ov, ofp, ofp + fp, w);
    HeldBeforePop(p, v, fp, ofp + fp, isUnique, unique);
    OwnsPop(p, v, fp, isUnique, unique);
    if p.transientID == 0 && o.Represents(ov, ofp - unique) { PopWritesUnique(p, v, fp, o, ov, ofp, isUnique, unique); }
    hide Canonical, Holds, HeldIn, VectorHeldIn, Ops.Pop, Reused, Lost, TreePopped, LastSlots, Spine, AllPopped,
      SpineNodeHeld, ReusedByPop, Vector.OwnsForPop, Vector.SpineNodes, OnlyChanged, WrittenAreHeld;
    assert p.OwnsForPop(v, fp, w, isUnique, unique);
    r, added := p.Pop(isUnique, unique, v, fp, w);
    ghost var all := ofp + fp + added;
    RepresentsBySnapshot(o, ov, all);
    WrittenAreLost(before, tail, v, ns, w, r, fp + added, all);
    VectorAfterChanges(before, Snapshot(all), w, o, ov);
  }

  lemma PopIsSome(v: Vec)
    requires Canonical(v) && 0 < v.count
    ensures Ops.Pop(v).Some?
    ensures 1 < |v.tail| ==> Ops.Pop(v).value.tail == v.tail[..|v.tail| - 1]
  {
  }

  /** Node `i` of the right spine stands for its subtree. */
  ghost predicate SpineNodeHeld(s: map<Node, Fields>, v: Vec, ns: seq<Node>, i: nat) {
    && v.root.Some? && Spine(v.root.value, v.shift / 5) && i < |ns| && i < v.shift / 5
    && HeldIn(s, ns[i], v.shift / 5 - i,
              Sub(v.root.value, v.shift / 5, LastSlots(v.root.value, v.shift / 5), v.shift / 5 - i))
  }

  ghost predicate WrittenAreHeld(s: map<Node, Fields>, tail: Node, v: Vec, ns: seq<Node>, w: set<Node>) {
    if 1 < |v.tail| then HeldIn(s, tail, 0, Leaf(v.tail)) && forall n :: n in w ==> n == tail
    else forall n :: n in w ==> exists i :: 0 <= i < |ns| && ns[i] == n && SpineNodeHeld(s, v, ns, i)
  }

  /** Before the call every node that pop will write stands for something. */
  lemma HeldBeforePop(p: Vector, v: Vec, fp: set<Node>, all: set<Node>, isUnique: bool, unique: set<Node>)
    requires Canonical(v) && p.Represents(v, fp) && fp <= all
    ensures WrittenAreHeld(Snapshot(all), p.tail, v, p.SpineNodes(v, fp), ReusedByPop(p, v, fp, isUnique, unique))
  {
    var w, ns := ReusedByPop(p, v, fp, isUnique, unique), p.SpineNodes(v, fp);
    if 1 < |v.tail| {
      InSnapshot(p.tail, 0, Leaf(v.tail), fp, all);
    } else if p.root != null {
      var t, d := v.root.value, v.shift / 5;
      var path := LastSlots(t, d);
      PathHolds(p.root, d, t, path, fp);
      hide Reused, LastSlots, Holds, HeldIn, PathNodes, Canonical, Sub;
      forall n | n in w ensures exists i :: 0 <= i < |ns| && ns[i] == n && SpineNodeHeld(Snapshot(all), v, ns, i) {
        ReusedIsOnPath(p.root, d, path, 1, fp, unique, p.transientID, false, n);
        var i :| 0 <= i < |ns| && 1 <= d - i && ns[i] == n;
        InSnapshot(n, d - i, Sub(t, d, path, d - i), fp, all);
        assert SpineNodeHeld(Snapshot(all), v, ns, i);
      }
    }
  }

  /** Afterwards it does not. */
  lemma SpineNodeIsLost(s: map<Node, Fields>, v: Vec, ns: seq<Node>, w: set<Node>, part: set<Node>, all: set<Node>,
                        i: nat)
    requires SpineNodeHeld(s, v, ns, i) && ns[i] in w && TreePopped(v, ns, w, part) && part <= all
    ensures Lost(s, Snapshot(all), ns[i])
  {
    var t, d := v.root.value, v.shift / 5;
    var e, u := d - i, Sub(t, d, LastSlots(t, d), d - i);
    hide LastSlots, Sub;
    assert Popped(ns[i], e, u, part);
    PoppedGrows(ns[i], e, u, part, all);
    PoppedIsLess(ns[i], e, u, all);
    HoldsBySnapshot(ns[i], e, u, all);
  }

  lemma TailIsLost(s: map<Node, Fields>, r: Vector, v: Vec, all: set<Node>)
    requires Canonical(v) && 1 < |v.tail| && Ops.Pop(v).Some? && r.Represents(Ops.Pop(v).value, all)
    requires HeldIn(s, r.tail, 0, Leaf(v.tail))
    ensures Lost(s, Snapshot(all), r.tail)
  {
    assert |r.tail.vals| == |v.tail| - 1;
    LeafIsLost(s, Snapshot(all), r.tail, v.tail);
  }

  lemma WrittenAreLost(s: map<Node, Fields>, tail: Node, v: Vec, ns: seq<Node>, w: set<Node>, r: Vector,
                       part: set<Node>, all: set<Node>)
    requires Canonical(v) && Ops.Pop(v).Some? && r.Represents(Ops.Pop(v).value, part) && part <= all
    requires WrittenAreHeld(s, tail, v, ns, w)
    requires if 1 < |v.tail| then w == {} || tail == r.tail else w == {} || TreePopped(v, ns, w, part)
    ensures forall n :: n in w ==> Lost(s, Snapshot(all), n)
  {
    hide Canonical, HeldIn, Ops.Pop, Lost, TreePopped, SpineNodeHeld;
    forall n | n in w ensures Lost(s, Snapshot(all), n) {
      if 1 < |v.tail| {
        Grows(r, Ops.Pop(v).value, part, all);
        TailIsLost(s, r, v, all);
      } else {
        var i :| 0 <= i < |ns| && ns[i] == n && SpineNodeHeld(s, v, ns, i);
        SpineNodeIsLost(s, v, ns, w, part, all, i);
      }
    }
  }

  lemma {:induction false} ReusedAreUnique(n: Node, d: nat, path: seq<nat>, low: nat, fp: set<Node>, unique: set<Node>)
    requires d < |path|
    ensures Reused(n, d, path, low, fp, unique, 0, false) <= unique
    decreases d
  {
    if n in fp && 0 < d && path[d] < |n.kids| { ReusedAreUnique(n.kids[path[d]], d - 1, path, low, fp, unique); }
  }

  lemma PopWritesUnique(p: Vector, v: Vec, fp: set<Node>, o: Vector, ov: Vec, ofp: set<Node>, isUnique: bool,
                        unique: set<Node>)
    requires Canonical(v) && p.Represents(v, fp) && p.transientID == 0 && o.Represents(ov, ofp - unique)
    ensures o.Represents(ov, ofp - ReusedByPop(p, v, fp, isUnique, unique))
  {
    if p.root != null {
      ReusedAreUnique(p.root, v.shift / 5, LastSlots(v.root.value, v.shift / 5), 1, fp, unique);
    }
    Grows(o, ov, ofp - unique, ofp - ReusedByPop(p, v, fp, isUnique, unique));
  }

  // ---------------------------------------------------------------- both happen

  /** A vector of 33 elements: one leaf and a tail of one. */
  method Sample()
    returns (p: Vector, ghost v: Vec, ghost fp: set<Node>)
    ensures fresh(p) && fresh(fp) && Canonical(v) && p.Represents(v, fp) && p.transientID == 0
    ensures v == Vec(33, 0, Some(Leaf(Zeros(BRANCHING))), [1]) && p.root.transientID == 0
    ensures forall n :: n in fp ==> n.transientID == 0
  {
    var root := new Node(true, Zeros(BRANCHING), [], 0);
    var tail := new Node(true, [1], [], 0);
    p := new Vector(33, 0, root, tail, 0);
    v, fp := Vec(33, 0, Some(Leaf(Zeros(BRANCHING))), [1]), {root, tail};
  }

  /** p stays referenced; q = assoc(p, 0, 7) is a copy that shares p's tail; conj(q, 9) then writes that tail.
      p still counts 33 elements but its tail has two: its value is lost. */
  method ConjSpoilsTailSharer()
    returns (p: Vector, ghost v: Vec, ghost fp: set<Node>)
    ensures Canonical(v) && p.count == v.count == 33 && p.tail.vals == [1, 9] && !p.Represents(v, fp)
  {
    p, v, fp := Sample();
    Ops.AssocUpdates(v, 0, 7);
    var q, more := p.Assoc(0, 7, false, {}, v, fp, {});
    var _, _ := ConjBeside(q, p, 9, true, {}, Ops.Assoc(v, 0, 7).value, fp + more, v, fp);
  }

  /** p stays referenced; q = conj(p, 9) is a copy that shares p's root; assoc(q, 0, 7) then writes that root,
      although the root's reference count is two. */
  method AssocSpoilsRootSharer()
    returns (p: Vector, ghost v: Vec, ghost fp: set<Node>)
    ensures Canonical(v) && v == Vec(33, 0, Some(Leaf(Zeros(BRANCHING))), [1]) && !p.Represents(v, fp)
  {
    ghost var own, more, added;
    p, v, own := Sample();
    Ops.ConjAppends(v, 9);
    var q;
    q, more := p.Conj(9, false, {}, v, own);
    ghost var w := Ops.Conj(v, 9);
    assert q.AssocPivot(w, 0, own + more, true, {}) == Some(Place(p.root, 0));
    assert !p.Represents(v, own - {p.root}) && Contents(w)[0] == 0;
    RootIsReused(q, w, own + more);
    q, added := AssocBeside(q, p, 0, 7, true, {}, w, own + more, v, own);
    fp := own + (own + more) + added;
  }

  lemma RootIsReused(q: Vector, w: Vec, fp: set<Node>)
    requires Canonical(w) && q.Represents(w, fp) && w.shift == 0 && w.root.Some? && q.root != null && q.root != q.tail
    requires q.transientID == 0 && q.root.transientID == 0 && 0 < w.count - |w.tail|
    ensures ReusedPath(q, w, 0, fp, true, {}) == {q.root} && OwnsPath(q, w, 0, fp, {q.root})
  {
  }

  /** 1056 elements in a tree of depth two, whose last inner node has one leaf, and a full tail. */
  ghost function Big(): Vec {
    var z := Leaf(Zeros(BRANCHING));
    Vec(1088, 10, Some(Inner([Inner(seq(BRANCHING, _ => z)), Inner([z])])), Zeros(BRANCHING))
  }

  lemma BigIsCanonical()
    ensures Canonical(Big())
    ensures var t := Big().root.value; Spine(t, 2) && Spine(t.kids[1], 1) && !Full(t.kids[1], 1)
  {
    var z, t := Leaf(Zeros(BRANCHING)), Big().root.value;
    assert Full(z, 0) && Full(t.kids[0], 1);
    assert t.kids[..1] == [t.kids[0]] && t.kids[1].kids[..0] == [];
    FullSize(t.kids[0], 1);
    assert Power(2) == 1024 by { assert Power(1) == 32; }
    Ops.FlattenPair(t.kids[0], t.kids[1]);
    Ops.FlattenOne(z);
  }

  ghost predicate AllZeroIds(fp: set<Node>)
    reads fp
  {
    forall n :: n in fp ==> n.transientID == 0
  }

  method Leaves(n: nat)
    returns (leaves: seq<Node>, ghost fp: set<Node>)
    ensures fresh(fp) && AllZeroIds(fp) && |leaves| == n
    ensures forall i :: 0 <= i < n ==> Holds(leaves[i], 0, Leaf(Zeros(BRANCHING)), fp)
  {
    leaves, fp := [], {};
    for i := 0 to n
      invariant fresh(fp) && AllZeroIds(fp) && |leaves| == i
      invariant forall j :: 0 <= j < i ==> Holds(leaves[j], 0, Leaf(Zeros(BRANCHING)), fp)
    {
      var leaf := new Node(true, Zeros(BRANCHING), [], 0);
      leaves, fp := leaves + [leaf], fp + {leaf};
    }
  }

  method Parent(kids: seq<Node>, ghost d: nat, ghost ts: seq<Tree>, ghost fp: set<Node>)
    returns (n: Node, ghost all: set<Node>)
    requires AllZeroIds(fp) && |kids| == |ts| && 0 < d
    requires forall i :: 0 <= i < |ts| ==> Holds(kids[i], d - 1, ts[i], fp)
    ensures fresh(n) && all == fp + {n} && AllZeroIds(all) && Holds(n, d, Inner(ts), all)
  {
    n := new Node(false, [], kids, 0);
    all := fp + {n};
    Gathered(n, d, ts, fp, all);
  }

  method BigRoot()
    returns (root: Node, ghost fp: set<Node>)
    ensures fresh(root) && fresh(fp) && AllZeroIds(fp) && Holds(root, 2, Big().root.value, fp)
  {
    ghost var z, ones, part, more := Leaf(Zeros(BRANCHING)), seq(BRANCHING, _ => Leaf(Zeros(BRANCHING))), {}, {};
    var leaves, first, last;
    leaves, part := Leaves(33);
    hide Holds, AllZeroIds, Zeros;
    first, more := Parent(leaves[..32], 1, ones, part);
    HoldsGrows(leaves[32], 0, z, part, more);
    part := more;
    last, more := Parent([leaves[32]], 1, [z], part);
    HoldsGrows(first, 1, Inner(ones), part, more);
    root, fp := Parent([first, last], 2, [Inner(ones), Inner([z])], more);
  }

  method BigSample()
    returns (p: Vector, ghost fp: set<Node>)
    ensures fresh(p) && fresh(fp) && p.Represents(Big(), fp) && p.transientID == 0
    ensures p.root != null && AllZeroIds(fp)
  {
    ghost var part;
    var root;
    root, part := BigRoot();
    var tail := new Node(true, Zeros(BRANCHING), [], 0);
    p := new Vector(1088, 10, root, tail, 0);
    fp := part + {tail};
    hide Holds, Zeros;
    HoldsGrows(root, 2, Big().root.value, part, fp);
    ZeroTail(tail, fp);
  }

  lemma ZeroTail(n: Node, fp: set<Node>)
    requires n in fp && n.leaf && n.vals == Zeros(BRANCHING)
    ensures Holds(n, 0, Leaf(Zeros(BRANCHING)), fp)
  {
  }

  /** p stays referenced; q = assoc(p, 1056, 5) is a copy that shares p's root; conj(q, 9) then hangs q's tail into that
      root, so that p reaches elements that are not its own. */
  method ConjSpoilsSpineSharer()
    returns (p: Vector, ghost v: Vec, ghost fp: set<Node>)
    ensures Canonical(v) && v == Big() && !p.Represents(v, fp)
  {
    ghost var own, more, added;
    p, own := BigSample();
    BigIsCanonical();
    v := Big();
    Ops.AssocUpdates(v, 1056, 5);
    var q;
    q, more := p.Assoc(1056, 5, false, {}, v, own, {});
    ghost var w := Ops.Assoc(v, 1056, 5).value;
    assert w.root == v.root && q.root == p.root;
    BigPivot(q, w, own + more);
    assert !p.Represents(v, own - {p.root});
    q, added := ConjFullBeside(q, p, 9, true, {}, w, own + more, v, own);
    fp := own + (own + more) + added;
  }

  lemma BigPivot(q: Vector, w: Vec, fp: set<Node>)
    requires Canonical(w) && q.Represents(w, fp) && w.root == Big().root && w.shift == 10 && q.transientID == 0
    requires q.root != null && q.root.transientID == 0
    ensures q.ConjPivot(w, fp, true, {}) == Some(Place(q.root, 2))
  {
    BigIsCanonical();
    var t := w.root.value;
    var path, hot := LastSlots(t, 2), PushDepths(t, 2);
    var p := Pivot(q.root, 2, path, hot, fp, q.ModeOf(true, {}));
    assert PushWrites(t, 2, hot) && 2 in hot;
    assert PushWrites(t.kids[1], 1, hot) && 1 !in hot;
    HotIsNotZero(t.kids[1].kids[0], hot);
    assert p.Some?;
    assert p.value.depth == 2;
    PivotWalk(q.root, 2, path, hot, fp, q.ModeOf(true, {}));
  }

  /** 65 elements: a root of two leaves, and a tail of one. */
  ghost function TwoLeaves(): Vec {
    var z := Leaf(Zeros(BRANCHING));
    Vec(65, 5, Some(Inner([z, z])), [1])
  }

  lemma TwoLeavesIsCanonical()
    ensures Canonical(TwoLeaves()) && Spine(TwoLeaves().root.value, 1)
  {
    var z := Leaf(Zeros(BRANCHING));
    assert Full(z, 0) && [z, z][..1] == [z];
    Ops.FlattenPair(z, z);
  }

  method TwoLeavesSample()
    returns (p: Vector, ghost fp: set<Node>)
    ensures fresh(p) && fresh(fp) && p.Represents(TwoLeaves(), fp) && p.transientID == 0
    ensures p.root != null && AllZeroIds(fp)
  {
    ghost var z, part := Leaf(Zeros(BRANCHING)), {};
    var leaves, root;
    leaves, part := Leaves(2);
    hide Holds, AllZeroIds, Zeros;
    root, part := Parent(leaves, 1, [z, z], part);
    var tail := new Node(true, [1], [], 0);
    p := new Vector(65, 5, root, tail, 0);
    fp := part + {tail};
    HoldsGrows(root, 1, TwoLeaves().root.value, part, fp);
    OneElement(tail, fp);
    StillZero(part, tail);
  }

  lemma StillZero(fp: set<Node>, n: Node)
    requires AllZeroIds(fp) && n.transientID == 0
    ensures AllZeroIds(fp + {n})
  {
  }

  lemma OneElement(n: Node, fp: set<Node>)
    requires n in fp && n.leaf && n.vals == [1]
    ensures Holds(n, 0, Leaf([1]), fp)
  {
  }

  /** p stays referenced; q = assoc(p, 64, 7) is a copy that shares p's root; pop(q) takes the last leaf out of the
      tree, but copies the root, since the id zero does not match. p keeps its value. */
  method PopSparesRootSharer()
    returns (p: Vector, r: Vector, ghost v: Vec, ghost fp: set<Node>)
    ensures Canonical(v) && v == TwoLeaves() && p.Represents(v, fp)
    ensures r.Represents(Vec(64, 0, Some(Leaf(Zeros(BRANCHING))), Zeros(BRANCHING)), fp)
  {
    ghost var own, all, added;
    var q;
    p, q, own, all := SharedRoot();
    v := TwoLeaves();
    ghost var w := v.(tail := [7]);
    AssocTwoLeaves(v, w);
    hide Holds, Canonical, Ops.Pop, Ops.Assoc, ReusedByPop, TwoLeaves, Zeros, OwnsReused;
    NothingReused(q, w, all);
    PopTwoLeaves(w);
    r, added := PopBeside(q, p, true, {}, w, all, v, own);
    assert own - {} == own;
    fp := own + all + added;
    Grows(r, Ops.Pop(w).value, all + added, fp);
  }

  method SharedRoot()
    returns (p: Vector, q: Vector, ghost own: set<Node>, ghost all: set<Node>)
    ensures fresh(p) && fresh(q) && fresh(all) && own <= all && p != q
    ensures p.Represents(TwoLeaves(), own) && q.Represents(TwoLeaves().(tail := [7]), all)
    ensures q.transientID == 0 && q.root != null && q.root.transientID == 0
  {
    ghost var more;
    p, own := TwoLeavesSample();
    ghost var v := TwoLeaves();
    AssocTwoLeaves(v, v.(tail := [7]));
    assert p.OwnsForAssoc(v, 64, own, {}, false, {});
    assert p.root in own;
    hide Holds, Canonical, Ops.Assoc, TwoLeaves, Zeros, Vector.OwnsForAssoc;
    q, more := p.Assoc(64, 7, false, {}, v, own, {});
    all := own + more;
  }

  lemma NothingReused(q: Vector, w: Vec, fp: set<Node>)
    requires Canonical(w) && q.Represents(w, fp) && w == TwoLeaves().(tail := [7]) && q.transientID == 0
             && q.root != null
             && q.root.transientID == 0
    ensures ReusedByPop(q, w, fp, true, {}) == {} && OwnsReused(q, w, fp, {})
  {
    NothingIsExclusive(q.root, w.shift / 5, w.root.value, LastSlots(w.root.value, w.shift / 5), fp);
  }

  lemma AssocTwoLeaves(v: Vec, w: Vec)
    requires v == TwoLeaves() && w == v.(tail := [7])
    ensures Canonical(v) && Canonical(w) && Ops.Assoc(v, 64, 7) == Some(w) && v.count == 65 && |v.tail| == 1
  {
    TwoLeavesIsCanonical();
    Ops.AssocUpdates(v, 64, 7);
    assert [1][0 := 7] == [7];
  }

  lemma PopTwoLeaves(w: Vec)
    requires Canonical(w) && w == TwoLeaves().(tail := [7])
    ensures Ops.Pop(w) == Some(Vec(64, 0, Some(Leaf(Zeros(BRANCHING))), Zeros(BRANCHING)))
  {
    var z := Leaf(Zeros(BRANCHING));
    assert [z, z][..1] == [z];
  }
}
