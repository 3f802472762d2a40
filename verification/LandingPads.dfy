/** The compile-time cleanup chain (MemoryManagement.cpp). Emitted basic blocks are data that only ever grows;
    executing a landing pad means following its branches and collecting what is retained and released. */
module LandingPads {
  import opened Options

  /** A value with its type's answer to `needsProtection`: scalars are never released. */
  datatype Resource = Resource(id: int, managed: bool)

  datatype Action = Release(r: Resource) | Retain(r: Resource)

  /** Blocks are numbered in the order of emission. */
  datatype Block =
    | Resume
    | Link(r: Resource, next: nat)
    | Pad(actions: seq<Action>, next: nat)

  /** Unwind guidance: a variable and the change its reference count needs. */
  datatype Guidance = Guidance(name: string, change: int)

  // ---------------------------------------------------------------- executing blocks

  /** Every branch leads to an earlier block. */
  ghost predicate WellFormed(blocks: seq<Block>) {
    forall b :: 0 <= b < |blocks| && !blocks[b].Resume? ==> blocks[b].next < b
  }

  /** What is executed from block `b` until the exception is resumed. */
  ghost function Trace(blocks: seq<Block>, b: nat): seq<Action>
    requires WellFormed(blocks) && b < |blocks|
    decreases b
  {
    match blocks[b]
    case Resume => []
    case Link(r, next) => [Release(r)] + Trace(blocks, next)
    case Pad(actions, next) => actions + Trace(blocks, next)
  }

  /** Emitting more blocks changes nothing about the old ones. */
  lemma {:induction false} TraceIsStable(blocks: seq<Block>, more: seq<Block>, b: nat)
    requires WellFormed(blocks) && WellFormed(more) && blocks <= more && b < |blocks|
    ensures Trace(more, b) == Trace(blocks, b)
    decreases b
  {
    assert more[b] == blocks[b];
    if !blocks[b].Resume? { TraceIsStable(blocks, more, blocks[b].next); }
  }

  // ---------------------------------------------------------------- what a pad has to do

  function Managed(rs: seq<Resource>): (m: seq<Resource>)
    ensures |m| <= |rs| && forall r :: r in m ==> r.managed
  {
    if rs == [] then []
    else
      var n := |rs| - 1;
      Managed(rs[..n]) + if rs[n].managed then [rs[n]] else []
  }

  /** Release in reverse push order. */
  function Unwind(rs: seq<Resource>): seq<Action> {
    if rs == [] then [] else [Release(rs[|rs| - 1])] + Unwind(rs[..|rs| - 1])
  }

  /** Each resource exactly once, the last pushed first. */
  lemma {:induction false} UnwindReverses(rs: seq<Resource>)
    ensures |Unwind(rs)| == |rs| && forall i :: 0 <= i < |rs| ==> Unwind(rs)[i] == Release(rs[|rs| - 1 - i])
  {
    if rs != [] { UnwindReverses(rs[..|rs| - 1]); }
  }

  lemma UnwindIsInjective(a: seq<Resource>, b: seq<Resource>)
    requires Unwind(a) == Unwind(b)
    ensures a == b
  {
    UnwindReverses(a);
    UnwindReverses(b);
    forall i | 0 <= i < |a| ensures a[i] == b[i] {
      assert Unwind(a)[|a| - 1 - i] == Release(a[i]) && Unwind(b)[|a| - 1 - i] == Release(b[i]);
    }
  }

  lemma {:induction false} ManagedPrefix(rs: seq<Resource>, i: nat, j: nat)
    requires i <= j <= |rs|
    ensures Managed(rs[..i]) <= Managed(rs[..j])
    decreases j
  {
    hide Managed;
    if i < j {
      ManagedPrefix(rs, i, j - 1);
      ManagedNext(rs, j - 1);
    }
  }

  lemma ManagedNext(rs: seq<Resource>, n: nat)
    requires n < |rs|
    ensures Managed(rs[..n + 1]) == if rs[n].managed then Managed(rs[..n]) + [rs[n]] else Managed(rs[..n])
  {
    assert rs[..n + 1][..n] == rs[..n];
  }

  /** All but the top `skip`; none if there are fewer. */
  function Survivors(active: seq<Resource>, skip: nat): seq<Resource> {
    active[..if skip <= |active| then |active| - skip else 0]
  }

  function Least(m: nat, n: nat): nat {
    if m <= n then m else n
  }

  /** The positions of the managed resources below `n`, the highest first. */
  ghost predicate ManagedBelow(active: seq<Resource>, n: nat, positions: seq<nat>) {
    && (forall i :: 0 <= i < |positions| ==>
          positions[i] < n && positions[i] < |active| && active[positions[i]].managed)
    && (forall i, j :: 0 <= i < j < |positions| ==> positions[j] < positions[i])
    && (forall p: nat :: p < n && p < |active| && active[p].managed ==> p in positions)
  }

  /** The actions release exactly the managed resources below position `n`, each once, the highest position first. */
  ghost predicate UnwindsBelow(active: seq<Resource>, n: nat, actions: seq<Action>) {
    exists positions :: IsUnwinding(active, n, actions, positions)
  }

  /** First these actions, and then the releases below position `n`. */
  ghost predicate Does(trace: seq<Action>, first: seq<Action>, active: seq<Resource>, n: nat) {
    exists rest :: trace == first + rest && UnwindsBelow(active, n, rest)
  }

  ghost predicate IsUnwinding(active: seq<Resource>, n: nat, actions: seq<Action>, positions: seq<nat>) {
    && ManagedBelow(active, n, positions) && |actions| == |positions|
    && forall i :: 0 <= i < |positions| && positions[i] < |active| ==> actions[i] == Release(active[positions[i]])
  }

  /** Unwinding the managed resources of a prefix does that. */
  lemma {:induction false} UnwindIsBelow(active: seq<Resource>, n: nat)
    requires n <= |active|
    ensures UnwindsBelow(active, n, Unwind(Managed(active[..n])))
  {
    hide IsUnwinding, Managed, Unwind;
    if n == 0 {
      UnwindNothing(active);
    } else {
      UnwindIsBelow(active, n - 1);
      ManagedNext(active, n - 1);
      var rs := Managed(active[..n - 1]);
      var ps :| IsUnwinding(active, n - 1, Unwind(rs), ps);
      if active[n - 1].managed {
        UnwindLast(rs, active[n - 1]);
        UnwindMore(active, n - 1, Unwind(rs), ps);
      } else {
        UnwindSame(active, n - 1, Unwind(rs), ps);
      }
    }
  }

  lemma UnwindNothing(active: seq<Resource>)
    ensures IsUnwinding(active, 0, Unwind(Managed(active[..0])), [])
  {
  }

  lemma UnwindLast(rs: seq<Resource>, r: Resource)
    ensures Unwind(rs + [r]) == [Release(r)] + Unwind(rs)
  {
    assert (rs + [r])[..|rs|] == rs;
  }

  lemma UnwindSame(active: seq<Resource>, p: nat, actions: seq<Action>, positions: seq<nat>)
    requires p < |active| && !active[p].managed && IsUnwinding(active, p, actions, positions)
    ensures IsUnwinding(active, p + 1, actions, positions)
  {
  }

  lemma UnwindMore(active: seq<Resource>, p: nat, actions: seq<Action>, positions: seq<nat>)
    requires p < |active| && active[p].managed && IsUnwinding(active, p, actions, positions)
    ensures IsUnwinding(active, p + 1, [Release(active[p])] + actions, [p] + positions)
  {
  }

  lemma SurvivorsUnwind(active: seq<Resource>, skip: nat)
    ensures UnwindsBelow(active, |active| - Least(skip, |active|), Unwind(Managed(Survivors(active, skip))))
  {
    UnwindIsBelow(active, |active| - Least(skip, |active|));
  }

  function Releases(rs: seq<Resource>): seq<Action> {
    if rs == [] then []
    else Releases(rs[..|rs| - 1]) + if rs[|rs| - 1].managed then [Release(rs[|rs| - 1])] else []
  }

  function Repeat(a: Action, n: nat): seq<Action> {
    if n == 0 then [] else Repeat(a, n - 1) + [a]
  }

  lemma {:induction false} RepeatIs(a: Action, n: nat)
    ensures |Repeat(a, n)| == n && forall x :: x in Repeat(a, n) ==> x == a
  {
    if n != 0 { RepeatIs(a, n - 1); }
  }

  /** The retains or releases one piece of guidance asks for; none for an unbound or unmanaged variable. */
  function Guided(g: Guidance, find: string -> Option<Resource>): seq<Action> {
    match find(g.name)
    case None => []
    case Some(r) =>
      if !r.managed then []
      else if 0 < g.change then Repeat(Retain(r), g.change) else Repeat(Release(r), -g.change)
  }

  /** As many actions as the change, all retains or all releases of the managed resource the variable is bound to. */
  lemma GuidedIs(g: Guidance, find: string -> Option<Resource>)
    ensures forall a :: a in Guided(g, find) ==>
                        find(g.name) == Some(a.r) && a.r.managed && (a.Retain? <==> 0 < g.change)
    ensures find(g.name).Some? && find(g.name).value.managed ==>
              |Guided(g, find)| == if g.change < 0 then -g.change else g.change
  {
    if find(g.name).Some? {
      RepeatIs(Retain(find(g.name).value), if 0 < g.change then g.change else 0);
      RepeatIs(Release(find(g.name).value), if g.change < 0 then -g.change else 0);
    }
  }

  function AllGuided(gs: seq<Guidance>, find: string -> Option<Resource>): seq<Action> {
    if gs == [] then [] else AllGuided(gs[..|gs| - 1], find) + Guided(gs[|gs| - 1], find)
  }

  /** Retains less releases of one resource. */
  function Net(actions: seq<Action>, r: Resource): int {
    if actions == [] then 0
    else
      var last := actions[|actions| - 1];
      Net(actions[..|actions| - 1], r) + if last == Retain(r) then 1 else if last == Release(r) then -1 else 0
  }

  /** The changes that guidance asks for of the variables bound to one resource. */
  function Asked(gs: seq<Guidance>, find: string -> Option<Resource>, r: Resource): int {
    if gs == [] then 0
    else
      var g := gs[|gs| - 1];
      Asked(gs[..|gs| - 1], find, r) + if find(g.name) == Some(r) then g.change else 0
  }

  /** How often a resource occurs. */
  function Occurrences(rs: seq<Resource>, r: Resource): nat {
    if rs == [] then 0 else Occurrences(rs[..|rs| - 1], r) + if rs[|rs| - 1] == r then 1 else 0
  }

  lemma {:induction false} NetConcat(a: seq<Action>, b: seq<Action>, r: Resource)
    ensures Net(a + b, r) == Net(a, r) + Net(b, r)
    decreases |b|
  {
    if b == [] {
      assert a + b == a;
    } else {
      NetConcat(a, b[..|b| - 1], r);
      assert (a + b)[..|a + b| - 1] == a + b[..|b| - 1];
    }
  }

  lemma {:induction false} NetRepeat(a: Action, n: nat, r: Resource)
    ensures |Repeat(a, n)| == n
    ensures Net(Repeat(a, n), r) == if a == Retain(r) then n else if a == Release(r) then 0 - n else 0
  {
    if n != 0 { NetRepeat(a, n - 1, r); }
  }

  /** The guidance is carried out to the letter: a managed resource gains what is asked for the variables bound to
      it, no more and no less. */
  lemma {:induction false} GuidanceIsMet(gs: seq<Guidance>, find: string -> Option<Resource>, r: Resource)
    requires r.managed
    ensures Net(AllGuided(gs, find), r) == Asked(gs, find, r)
  {
    if gs != [] {
      var g := gs[|gs| - 1];
      GuidanceIsMet(gs[..|gs| - 1], find, r);
      NetConcat(AllGuided(gs[..|gs| - 1], find), Guided(g, find), r);
      if find(g.name).Some? {
        var v := find(g.name).value;
        NetRepeat(Retain(v), if 0 < g.change then g.change else 0, r);
        NetRepeat(Release(v), if g.change < 0 then -g.change else 0, r);
      }
    }
  }

  /** Extra cleanup releases a managed resource as often as it is listed. */
  lemma {:induction false} CleanupIsMet(rs: seq<Resource>, r: Resource)
    requires r.managed
    ensures Net(Releases(rs), r) == 0 - Occurrences(rs, r)
    ensures forall a :: a in Releases(rs) ==> a.Release? && a.r.managed
  {
    if rs != [] {
      CleanupIsMet(rs[..|rs| - 1], r);
      var last: seq<Action> := if rs[|rs| - 1].managed then [Release(rs[|rs| - 1])] else [];
      NetConcat(Releases(rs[..|rs| - 1]), last, r);
      assert last != [] ==> last[..0] == [];
    }
  }

  /** What a pad was requested for: extra cleanup, the guidance with the bindings of its variables, and the managed
      survivors. */
  datatype Request = Request(extra: seq<Resource>, guidance: seq<Guidance>, find: string -> Option<Resource>,
                             survivors: seq<Resource>)

  ghost function Before(q: Request): seq<Action> {
    Releases(q.extra) + AllGuided(q.guidance, q.find)
  }

  ghost function Required(q: Request): seq<Action> {
    Before(q) + Unwind(q.survivors)
  }

  /** A request for the survivors of a skip asks for the releases below it. */
  lemma RequestDoes(q: Request, active: seq<Resource>, skip: nat)
    requires q.survivors == Managed(Survivors(active, skip))
    ensures Does(Required(q), Releases(q.extra) + AllGuided(q.guidance, q.find), active,
                 |active| - Least(skip, |active|))
  {
    SurvivorsUnwind(active, skip);
  }

  /** The two lookups agree on the variables that guidance names. */
  ghost predicate Agree(gs: seq<Guidance>, f: string -> Option<Resource>, g: string -> Option<Resource>) {
    forall i :: 0 <= i < |gs| ==> f(gs[i].name) == g(gs[i].name)
  }

  lemma {:induction false} AllGuidedAgrees(gs: seq<Guidance>, f: string -> Option<Resource>,
                                           g: string -> Option<Resource>)
    requires Agree(gs, f, g)
    ensures AllGuided(gs, f) == AllGuided(gs, g)
  {
    if gs != [] { AllGuidedAgrees(gs[..|gs| - 1], f, g); }
  }

  /** The requests differ at most by releases that one makes before its chain and the other at the top of it. */
  ghost predicate Interchangeable(q: Request, q': Request) {
    exists c ::
      || (Before(q') == Before(q) + Unwind(c) && q.survivors == q'.survivors + c)
      || (Before(q) == Before(q') + Unwind(c) && q'.survivors == q.survivors + c)
  }

  // ---------------------------------------------------------------- state of one function under compilation

  datatype FunctionState = FunctionState(
    terminalResume: Option<nat>, cleanupStack: seq<nat>, active: seq<Resource>,
    withCleanup: nat, cache: map<nat, nat>, guidance: seq<Guidance>)

  const FRESH := FunctionState(None, [], [], 0, map[], [])

  /** Entry `k` of the stack releases the first k + 1 resources of `rs`. */
  ghost predicate Chain(blocks: seq<Block>, stack: seq<nat>, rs: seq<Resource>) {
    && WellFormed(blocks)
    && |stack| == |rs|
    && forall k :: 0 <= k < |stack| ==> stack[k] < |blocks| && Trace(blocks, stack[k]) == Unwind(rs[..k + 1])
  }

  ghost predicate Good(blocks: seq<Block>, f: FunctionState, origin: map<nat, Request>) {
    && f.withCleanup <= |f.active|
    && (match f.terminalResume
        case None => f.withCleanup == 0 && f.cache == map[]
        case Some(b) => b < |blocks| && blocks[b].Resume?)
    && Chain(blocks, f.cleanupStack, Managed(f.active[..f.withCleanup]))
    && forall k :: k in f.cache ==> CachedFor(f.guidance, f.cache[k], origin)
  }

  /** A pad in the cache was requested under the guidance now in force, and without extra cleanup. */
  ghost predicate CachedFor(guidance: seq<Guidance>, pad: nat, origin: map<nat, Request>) {
    pad in origin && origin[pad].extra == [] && origin[pad].guidance == guidance
  }

  ghost predicate Extends(origin: map<nat, Request>, origin': map<nat, Request>) {
    forall pad :: pad in origin ==> pad in origin' && origin'[pad] == origin[pad]
  }

  ghost predicate AllGood(blocks: seq<Block>, fs: seq<FunctionState>, origin: map<nat, Request>) {
    forall i :: 0 <= i < |fs| ==> Good(blocks, fs[i], origin)
  }

  /** Every pad emitted does what it was requested for. */
  ghost predicate PadsHold(blocks: seq<Block>, origin: map<nat, Request>) {
    && WellFormed(blocks)
    && forall pad :: pad in origin ==> pad < |blocks| && Trace(blocks, pad) == Required(origin[pad])
  }

  lemma ChainIsStable(blocks: seq<Block>, more: seq<Block>, stack: seq<nat>, rs: seq<Resource>)
    requires Chain(blocks, stack, rs) && WellFormed(more) && blocks <= more
    ensures Chain(more, stack, rs)
  {
    forall k | 0 <= k < |stack| ensures Trace(more, stack[k]) == Unwind(rs[..k + 1]) {
      TraceIsStable(blocks, more, stack[k]);
    }
  }

  lemma PadDoes(blocks: seq<Block>, origin: map<nat, Request>, pad: nat)
    requires PadsHold(blocks, origin) && pad in origin
    ensures WellFormed(blocks) && pad < |blocks| && Trace(blocks, pad) == Required(origin[pad])
  {
  }

  lemma CachedIsFor(blocks: seq<Block>, f: FunctionState, origin: map<nat, Request>, skip: nat)
    requires PadsHold(blocks, origin) && Good(blocks, f, origin) && skip in f.cache
    ensures var pad := f.cache[skip];
            && CachedFor(f.guidance, pad, origin)
            && WellFormed(blocks) && pad < |blocks| && Trace(blocks, pad) == Required(origin[pad])
  {
    PadDoes(blocks, origin, f.cache[skip]);
  }

  lemma OriginsAreBlocks(blocks: seq<Block>, origin: map<nat, Request>)
    requires PadsHold(blocks, origin)
    ensures WellFormed(blocks) && forall pad :: pad in origin ==> pad < |blocks|
  {
  }

  lemma PadsAreStable(blocks: seq<Block>, more: seq<Block>, origin: map<nat, Request>)
    requires PadsHold(blocks, origin) && WellFormed(more) && blocks <= more
    ensures PadsHold(more, origin)
  {
    forall pad | pad in origin ensures Trace(more, pad) == Required(origin[pad]) { TraceIsStable(blocks, more, pad); }
  }

  lemma GoodIsStable(blocks: seq<Block>, more: seq<Block>, f: FunctionState, origin: map<nat, Request>,
                     origin': map<nat, Request>)
    requires Good(blocks, f, origin) && WellFormed(more) && blocks <= more && Extends(origin, origin')
    ensures Good(more, f, origin')
  {
    ChainIsStable(blocks, more, f.cleanupStack, Managed(f.active[..f.withCleanup]));
    if f.terminalResume.Some? { assert more[f.terminalResume.value] == blocks[f.terminalResume.value]; }
  }

  lemma AllGoodIsStable(blocks: seq<Block>, more: seq<Block>, fs: seq<FunctionState>, origin: map<nat, Request>,
                        origin': map<nat, Request>)
    requires AllGood(blocks, fs, origin) && WellFormed(more) && blocks <= more && Extends(origin, origin')
    ensures AllGood(more, fs, origin')
  {
    forall i | 0 <= i < |fs| ensures Good(more, fs[i], origin') { GoodIsStable(blocks, more, fs[i], origin, origin'); }
  }

  /** One more link on top of a chain. */
  lemma ChainGrows(blocks: seq<Block>, stack: seq<nat>, rs: seq<Resource>, r: Resource, bottom: nat)
    requires Chain(blocks, stack, rs) && bottom < |blocks| && blocks[bottom].Resume?
    ensures var prev := if stack == [] then bottom else stack[|stack| - 1];
            var more := blocks + [Link(r, prev)];
            Chain(more, stack + [|blocks|], rs + [r])
  {
    var prev := if stack == [] then bottom else stack[|stack| - 1];
    var more, stack', rs' := blocks + [Link(r, prev)], stack + [|blocks|], rs + [r];
    assert WellFormed(more);
    assert Trace(more, |blocks|) == Unwind(rs') by {
      TraceIsStable(blocks, more, prev);
      assert rs'[..|rs'| - 1] == rs == rs[..|rs|];
    }
    forall k | 0 <= k < |stack'| ensures stack'[k] < |more| && Trace(more, stack'[k]) == Unwind(rs'[..k + 1]) {
      hide Trace, Unwind, WellFormed;
      if k < |stack| {
        TraceIsStable(blocks, more, stack[k]);
        assert rs'[..k + 1] == rs[..k + 1];
      } else {
        assert rs'[..k + 1] == rs';
      }
    }
  }

  lemma ChainShrinks(blocks: seq<Block>, stack: seq<nat>, rs: seq<Resource>)
    requires Chain(blocks, stack, rs) && 0 < |stack|
    ensures Chain(blocks, stack[..|stack| - 1], rs[..|rs| - 1])
  {
    forall k | 0 <= k < |stack| - 1 ensures Trace(blocks, stack[k]) == Unwind(rs[..|rs| - 1][..k + 1]) {
      assert rs[..|rs| - 1][..k + 1] == rs[..k + 1];
    }
  }

  /** The state after popResource. */
  ghost function Popped(f: FunctionState): FunctionState
    requires f.active != [] && f.withCleanup <= |f.active| && |Managed(f.active[..f.withCleanup])| == |f.cleanupStack|
  {
    var n := |f.active| - 1;
    if |f.active| != f.withCleanup then f.(active := f.active[..n])
    else
      f.(active := f.active[..n], withCleanup := n,
         cleanupStack := if f.active[n].managed
                         then assert f.active[..n + 1] == f.active; f.cleanupStack[..|f.cleanupStack| - 1]
                         else f.cleanupStack)
  }

  lemma PopKeepsGood(blocks: seq<Block>, f: FunctionState, origin: map<nat, Request>)
    requires Good(blocks, f, origin) && f.active != []
    ensures f.withCleanup <= |f.active| && |Managed(f.active[..f.withCleanup])| == |f.cleanupStack|
    ensures |f.active| == f.withCleanup && f.active[|f.active| - 1].managed ==> f.cleanupStack != []
    ensures Good(blocks, Popped(f), origin)
  {
    hide Managed, Trace, Unwind, WellFormed;
    var n := |f.active| - 1;
    ManagedNext(f.active, n);
    assert Popped(f).active[..Popped(f).withCleanup] == f.active[..Popped(f).withCleanup];
    if |f.active| == f.withCleanup && f.active[n].managed {
      var all := Managed(f.active[..n + 1]);
      ChainShrinks(blocks, f.cleanupStack, all);
      assert all[..|all| - 1] == Managed(f.active[..n]);
    }
  }

  /** The block a new link or pad branches to when `n` managed resources are below it. */
  function Below(f: FunctionState, n: nat): nat
    requires f.terminalResume.Some? && n <= |f.cleanupStack|
  {
    if n == 0 then f.terminalResume.value else f.cleanupStack[n - 1]
  }

  lemma LinkKeepsGood(blocks: seq<Block>, f: FunctionState, origin: map<nat, Request>)
    requires Good(blocks, f, origin) && f.terminalResume.Some? && f.withCleanup < |f.active|
    ensures var prev := Below(f, |f.cleanupStack|);
            prev == (if f.cleanupStack == [] then f.terminalResume.value else f.cleanupStack[|f.cleanupStack| - 1])
                && prev < |blocks|
    ensures var val := f.active[f.withCleanup];
            if val.managed
            then Good(blocks + [Link(val, Below(f, |f.cleanupStack|))],
                   f.(cleanupStack := f.cleanupStack + [|blocks|], withCleanup := f.withCleanup + 1), origin)
            else Good(blocks, f.(withCleanup := f.withCleanup + 1), origin)
  {
    var n, bottom := f.withCleanup, f.terminalResume.value;
    ManagedNext(f.active, n);
    ChainGrows(blocks, f.cleanupStack, Managed(f.active[..n]), f.active[n], bottom);
    hide Managed, Chain;
    var more := blocks + [Link(f.active[n], Below(f, |f.cleanupStack|))];
    assert more[bottom] == blocks[bottom];
  }

  /** From there, the first `n` managed resources are released. */
  lemma BelowReleases(blocks: seq<Block>, f: FunctionState, origin: map<nat, Request>, count: nat)
    requires Good(blocks, f, origin) && f.terminalResume.Some? && count <= f.withCleanup
    ensures var rs := Managed(f.active[..count]);
            && |rs| <= |f.cleanupStack| && Below(f, |rs|) < |blocks|
            && Trace(blocks, Below(f, |rs|)) == Unwind(rs)
  {
    ManagedPrefix(f.active, count, f.withCleanup);
    var rs, all := Managed(f.active[..count]), Managed(f.active[..f.withCleanup]);
    assert all[..|rs|] == rs;
  }

  class MemoryManagement {
    var blocks: seq<Block>
    var terminalResume: Option<nat>
    var cleanupStack: seq<nat>
    var active: seq<Resource>
    var withCleanup: nat
    var cache: map<nat, nat>
    var guidance: seq<Guidance>
    var stateStack: seq<FunctionState>
    /** For each pad, what it was requested for; the compiler keeps no such record. */
    ghost var origin: map<nat, Request>

    ghost function Current(): FunctionState
      reads this
    {
      FunctionState(terminalResume, cleanupStack, active, withCleanup, cache, guidance)
    }

    ghost predicate Valid()
      reads this
    {
      PadsHold(blocks, origin) && Good(blocks, Current(), origin) && AllGood(blocks, stateStack, origin)
    }

    constructor ()
      ensures Valid() && Current() == FRESH && stateStack == [] && blocks == [] && origin == map[]
    {
      blocks, terminalResume, cleanupStack, active, withCleanup, cache, guidance, stateStack, origin :=
        [], None, [], [], 0, map[], [], [], map[];
    }

    method PushResource(val: Resource)
      requires Valid()
      modifies this
      ensures Valid() && blocks == old(blocks) && origin == old(origin) && stateStack == old(stateStack)
      ensures Current() == old(Current()).(active := old(active) + [val])
    {
      active := active + [val];
      assert active[..withCleanup] == old(active)[..withCleanup];
    }

    /** False is the exception for an empty stack. */
    method PopResource() returns (ok: bool)
      requires Valid()
      modifies this
      ensures Valid() && blocks == old(blocks) && origin == old(origin) && stateStack == old(stateStack)
      ensures ok == (old(active) != []) && (!ok ==> Current() == old(Current()))
      ensures ok ==> active == old(active)[..|old(active)| - 1]
      ensures terminalResume == old(terminalResume) && cache == old(cache) && guidance == old(guidance)
    {
      if active == [] {
        return false;
      }
      PopKeepsGood(blocks, Current(), origin);
      hide Good, PadsHold, AllGood;
      if |active| == withCleanup {
        if active[|active| - 1].managed {
          cleanupStack := cleanupStack[..|cleanupStack| - 1];
        }
        withCleanup := withCleanup - 1;
      }
      active := active[..|active| - 1];
      assert Current() == Popped(old(Current()));
      return true;
    }

    method Clear()
      requires Valid()
      modifies this
      ensures Valid() && blocks == old(blocks) && origin == old(origin) && stateStack == old(stateStack)
      ensures Current() == FRESH
    {
      terminalResume, cleanupStack, active, withCleanup, cache, guidance := None, [], [], 0, map[], [];
    }

    method SuspendForNestedFunction()
      requires Valid()
      modifies this
      ensures Valid() && blocks == old(blocks) && origin == old(origin)
      ensures stateStack == old(stateStack) + [old(Current())] && Current() == FRESH
    {
      stateStack := stateStack + [FunctionState(terminalResume, cleanupStack, active, withCleanup, cache, guidance)];
      Clear();
    }

    /** The outer function continues exactly where it was suspended. False is the exception. */
    method RestoreFromNestedFunction() returns (ok: bool)
      requires Valid()
      modifies this
      ensures Valid() && blocks == old(blocks) && origin == old(origin)
      ensures ok == (old(stateStack) != [])
      ensures ok ==> old(stateStack) == stateStack + [Current()]
      ensures !ok ==> Current() == old(Current()) && stateStack == old(stateStack)
    {
      if stateStack == [] {
        return false;
      }
      var s := stateStack[|stateStack| - 1];
      terminalResume, cleanupStack, active, withCleanup, cache, guidance :=
        s.terminalResume, s.cleanupStack, s.active, s.withCleanup, s.cache, s.guidance;
      stateStack := stateStack[..|stateStack| - 1];
      return true;
    }

    method SetActiveUnwindGuidance(gs: seq<Guidance>)
      requires Valid()
      modifies this
      ensures Valid() && blocks == old(blocks) && origin == old(origin) && stateStack == old(stateStack)
      ensures Current() == old(Current()).(guidance := gs, cache := map[])
    {
      guidance, cache := gs, map[];
    }

    method Emit(b: Block)
      requires Valid() && (!b.Resume? ==> b.next < |blocks|)
      modifies this`blocks
      ensures Valid() && blocks == old(blocks) + [b]
    {
      blocks := blocks + [b];
      PadsAreStable(old(blocks), blocks, origin);
      GoodIsStable(old(blocks), blocks, Current(), origin, origin);
      AllGoodIsStable(old(blocks), blocks, stateStack, origin, origin);
    }

    /** The terminal resume block is created on first use. */
    method EnsureExceptionInfrastructure()
      requires Valid()
      modifies this`blocks, this`terminalResume
      ensures Valid() && old(blocks) <= blocks && terminalResume.Some?
      ensures Current() == old(Current()).(terminalResume := terminalResume)
    {
      if terminalResume.None? {
        Emit(Resume);
        terminalResume := Some(|blocks| - 1);
      }
    }

    /** Links are added, lazily, for the survivors that have none yet. */
    method FillCleanupStack(survivorCount: nat)
      requires Valid() && terminalResume.Some? && survivorCount <= |active|
      modifies this`blocks, this`cleanupStack, this`withCleanup
      ensures Valid() && old(blocks) <= blocks
      ensures withCleanup == if old(withCleanup) < survivorCount then survivorCount else old(withCleanup)
      ensures old(cleanupStack) <= cleanupStack
      ensures |blocks| - |old(blocks)| == |cleanupStack| - |old(cleanupStack)|
      ensures Current() == old(Current()).(cleanupStack := cleanupStack, withCleanup := withCleanup)
    {
      while withCleanup < survivorCount
        invariant Valid() && old(blocks) <= blocks && withCleanup <= |active|
        invariant old(withCleanup) <= withCleanup
        invariant withCleanup <= if old(withCleanup) < survivorCount then survivorCount else old(withCleanup)
        invariant old(cleanupStack) <= cleanupStack
        invariant |blocks| - |old(blocks)| == |cleanupStack| - |old(cleanupStack)|
        decreases survivorCount - withCleanup
      {
        AddCleanup();
      }
    }

    method AddCleanup()
      requires Valid() && terminalResume.Some? && withCleanup < |active|
      modifies this`blocks, this`cleanupStack, this`withCleanup
      ensures Valid() && old(blocks) <= blocks && withCleanup == old(withCleanup) + 1
      ensures old(cleanupStack) <= cleanupStack
      ensures |blocks| - |old(blocks)| == |cleanupStack| - |old(cleanupStack)|
    {
      hide Good, PadsHold, AllGood, Below, WellFormed, Trace;
      var val := active[withCleanup];
      LinkKeepsGood(blocks, Current(), origin);
      if val.managed {
        var prev := if cleanupStack == [] then terminalResume.value else cleanupStack[|cleanupStack| - 1];
        Emit(Link(val, prev));
        cleanupStack := cleanupStack + [|blocks| - 1];
      }
      withCleanup := withCleanup + 1;
      assert Current() == old(Current()).(cleanupStack := cleanupStack, withCleanup := withCleanup);
    }

    /** What the pad does before it joins the chain. */
    method Prelude(extraCleanup: seq<Resource>, find: string -> Option<Resource>) returns (actions: seq<Action>)
      ensures actions == Releases(extraCleanup) + AllGuided(guidance, find)
    {
      hide Guided;
      actions := [];
      for i := 0 to |extraCleanup|
        invariant actions == Releases(extraCleanup[..i])
      {
        assert extraCleanup[..i + 1][..i] == extraCleanup[..i];
        actions := actions + if extraCleanup[i].managed then [Release(extraCleanup[i])] else [];
      }
      assert extraCleanup[..|extraCleanup|] == extraCleanup;
      ghost var first := actions;
      for i := 0 to |guidance|
        invariant actions == first + AllGuided(guidance[..i], find)
      {
        assert guidance[..i + 1][..i] == guidance[..i];
        var more := Guide(guidance[i], find);
        actions := actions + more;
      }
      assert guidance[..|guidance|] == guidance;
    }

    method Guide(g: Guidance, find: string -> Option<Resource>) returns (actions: seq<Action>)
      ensures actions == Guided(g, find)
    {
      actions := [];
      var val := find(g.name);
      if val.Some? {
        var n := if 0 < g.change then g.change else -g.change;
        var a := if 0 < g.change then Retain(val.value) else Release(val.value);
        for i := 0 to n
          invariant actions == if val.value.managed then Repeat(a, i) else []
        {
          if val.value.managed { actions := actions + [a]; }
        }
      }
    }

    /** A pad built now releases every managed survivor once, the last pushed first, after the extra cleanup and
        the guidance; a pad from the cache does what it was once built for, under the same guidance. That is right,
        with the guided variables bound as they were, exactly when the managed survivors are the same, and, with the
        same survivors, exactly when the guided actions are. (When both differ: exactly when the requests are
        interchangeable.) No earlier block changes. */
    method GetLandingPad(skipCount: nat, extraCleanup: seq<Resource>, find: string -> Option<Resource>)
      returns (pad: nat)
      requires Valid()
      modifies this
      ensures Valid() && old(blocks) <= blocks && stateStack == old(stateStack)
      ensures active == old(active) && guidance == old(guidance) && Extends(old(origin), origin)
      ensures pad in origin && pad < |blocks| && Trace(blocks, pad) == Required(origin[pad])
      ensures extraCleanup == [] && skipCount in old(cache) ==>
                && pad == old(cache)[skipCount] && Current() == old(Current())
                && blocks == old(blocks) && origin == old(origin) && CachedFor(guidance, pad, origin)
      ensures extraCleanup == [] && skipCount in old(cache) ==>
                var (was, now) := (origin[pad], Request([], guidance, find, Managed(Survivors(active, skipCount))));
                && (Agree(guidance, was.find, find) ==>
                      (Trace(blocks, pad) == Required(now) <==> was.survivors == now.survivors))
                && (was.survivors == now.survivors ==>
                      (Trace(blocks, pad) == Required(now) <==>
                          AllGuided(guidance, was.find) == AllGuided(guidance, find)))
                && (Trace(blocks, pad) == Required(now) <==> Interchangeable(was, now))
      ensures !(extraCleanup == [] && skipCount in old(cache)) ==>
                Does(Trace(blocks, pad), Releases(extraCleanup) + AllGuided(guidance, find), active,
                     |active| - Least(skipCount, |active|))
      ensures !(extraCleanup == [] && skipCount in old(cache)) ==>
                && pad == |blocks| - 1 && |old(blocks)| < |blocks|
                && origin[pad] == Request(extraCleanup, guidance, find, Managed(Survivors(active, skipCount)))
                && cache == if extraCleanup == [] then old(cache)[skipCount := pad] else old(cache)
    {
      hide Good, PadsHold, AllGood, Does, Interchangeable, AllGuided, Survivors, Managed, Agree, Releases, Required,
        Unwind;
      if extraCleanup == [] && skipCount in cache {
        pad := cache[skipCount];
        CachedIsFor(blocks, Current(), origin, skipCount);
        CachedPadIsRightIff(origin[pad], Request([], guidance, find, Managed(Survivors(active, skipCount))));
        return pad;
      }
      pad := NewLandingPad(skipCount, extraCleanup, find);
      PadDoes(blocks, origin, pad);
      RequestDoes(origin[pad], active, skipCount);
    }

    method NewLandingPad(skipCount: nat, extraCleanup: seq<Resource>, find: string -> Option<Resource>)
      returns (pad: nat)
      requires Valid()
      modifies this
      ensures Valid() && old(blocks) <= blocks && stateStack == old(stateStack)
      ensures active == old(active) && guidance == old(guidance)
      ensures pad == |blocks| - 1 && |old(blocks)| < |blocks| && pad !in old(origin)
      ensures origin == old(origin)[pad := Request(extraCleanup, guidance, find, Managed(Survivors(active, skipCount)))]
      ensures cache == if extraCleanup == [] then old(cache)[skipCount := pad] else old(cache)
    {
      hide Good, PadsHold, Trace, Managed, Releases, AllGuided, Unwind, AllGood;
      var survivorCount := if skipCount <= |active| then |active| - skipCount else 0;
      var needed := CountManaged(survivorCount);
      EnsureExceptionInfrastructure();
      FillCleanupStack(survivorCount);
      var actions := Prelude(extraCleanup, find);
      ghost var q := Request(extraCleanup, guidance, find, Managed(Survivors(active, skipCount)));
      pad := ClosePad(survivorCount, needed, actions, q);
      if extraCleanup == [] {
        Remember(skipCount, pad);
      }
    }

    method CountManaged(n: nat) returns (needed: nat)
      requires n <= |active|
      ensures needed == |Managed(active[..n])|
    {
      needed := 0;
      for i := 0 to n
        invariant needed == |Managed(active[..i])|
      {
        assert active[..i + 1][..i] == active[..i];
        if active[i].managed { needed := needed + 1; }
      }
    }

    /** The pad branches to the link of the last managed survivor. */
    method ClosePad(survivorCount: nat, needed: nat, actions: seq<Action>, ghost q: Request) returns (pad: nat)
      requires Valid() && terminalResume.Some? && survivorCount <= withCleanup
      requires actions == Before(q) && q.survivors == Managed(active[..survivorCount]) && needed == |q.survivors|
      modifies this`blocks, this`origin
      ensures Valid() && old(blocks) <= blocks && pad == |blocks| - 1 && |old(blocks)| < |blocks|
      ensures origin == old(origin)[pad := q] && pad !in old(origin)
    {
      hide Good, PadsHold, Managed, AllGood, Before, WellFormed, Unwind;
      BelowReleases(blocks, Current(), origin, survivorCount);
      OriginsAreBlocks(blocks, origin);
      var next := if 0 < needed then cleanupStack[needed - 1] else terminalResume.value;
      pad := |blocks|;
      ghost var before := blocks;
      Emit(Pad(actions, next));
      OriginsAreBlocks(blocks, origin);
      TraceIsStable(before, blocks, next);
      assert Trace(blocks, pad) == actions + Trace(blocks, next) == Required(q);
      AddOrigin(pad, q);
    }

    ghost method AddOrigin(pad: nat, q: Request)
      requires Valid() && pad < |blocks| && pad !in origin && Trace(blocks, pad) == Required(q)
      modifies this`origin
      ensures Valid() && origin == old(origin)[pad := q]
    {
      GoodIsStable(blocks, blocks, Current(), origin, origin[pad := q]);
      AllGoodIsStable(blocks, blocks, stateStack, origin, origin[pad := q]);
      origin := origin[pad := q];
    }

    method Remember(skipCount: nat, pad: nat)
      requires Valid() && CachedFor(guidance, pad, origin) && terminalResume.Some?
      modifies this`cache
      ensures Valid() && Current() == old(Current()).(cache := old(cache)[skipCount := pad])
    {
      hide PadsHold, AllGood, Chain;
      cache := cache[skipCount := pad];
    }
  }

  /** Protects the values of one expression: pushes while they are computed, popped together at the end. */
  class CleanupChainGuard {
    const mm: MemoryManagement
    var pushedCount: nat

    constructor (mm: MemoryManagement)
      ensures this.mm == mm && pushedCount == 0
    {
      this.mm := mm;
      pushedCount := 0;
    }

    method Push(val: Resource)
      requires mm.Valid() && pushedCount <= |mm.active|
      modifies this, mm
      ensures mm.Valid() && mm.blocks == old(mm.blocks) && mm.origin == old(mm.origin)
      ensures mm.active == if val.managed then old(mm.active) + [val] else old(mm.active)
      ensures pushedCount == old(pushedCount) + if val.managed then 1 else 0
    {
      if val.managed {
        mm.PushResource(val);
        pushedCount := pushedCount + 1;
      }
    }

    /** The resource stack is back to what it was below this guard's pushes; emitted pads stay as they are. */
    method PopAll()
      requires mm.Valid() && pushedCount <= |mm.active|
      modifies this, mm
      ensures mm.Valid() && mm.blocks == old(mm.blocks) && mm.origin == old(mm.origin)
      ensures mm.active == old(mm.active)[..|old(mm.active)| - old(pushedCount)] && pushedCount == 0
    {
      hide Good, PadsHold, AllGood;
      ghost var n := |mm.active|;
      while 0 < pushedCount
        invariant mm.Valid() && mm.blocks == old(mm.blocks) && mm.origin == old(mm.origin)
        invariant pushedCount <= old(pushedCount)
        invariant mm.active == old(mm.active)[..n - (old(pushedCount) - pushedCount)]
        decreases pushedCount
      {
        var _ := mm.PopResource();
        pushedCount := pushedCount - 1;
      }
    }
  }

  // ---------------------------------------------------------------- the cache

  lemma {:induction false} UnwindConcat(a: seq<Resource>, b: seq<Resource>)
    ensures Unwind(a + b) == Unwind(b) + Unwind(a)
    decreases |b|
  {
    if b == [] {
      assert a + b == a;
    } else {
      var n := |b| - 1;
      UnwindConcat(a, b[..n]);
      assert (a + b)[..|a + b| - 1] == a + b[..n];
      AddAssoc([Release(b[n])], Unwind(b[..n]), Unwind(a));
    }
  }

  /** When two sequences of actions are the same although they are cut differently. */
  lemma CutDifferently(p: seq<Action>, a: seq<Resource>, p': seq<Action>, b: seq<Resource>)
    requires p + Unwind(a) == p' + Unwind(b) && |p| <= |p'|
    ensures exists c :: p' == p + Unwind(c) && a == b + c
  {
    hide Unwind;
    UnwindReverses(a);
    UnwindReverses(b);
    var c := a[|b|..];
    UnwindReverses(c);
    UnwindConcat(a[..|b|], c);
    assert a == a[..|b|] + c;
    AddAssoc(p, Unwind(c), Unwind(a[..|b|]));
    SameCut(p + Unwind(c), Unwind(a[..|b|]), p', Unwind(b));
    UnwindIsInjective(a[..|b|], b);
  }

  lemma SameCut<T>(a: seq<T>, b: seq<T>, a': seq<T>, b': seq<T>)
    requires a + b == a' + b' && |a| == |a'|
    ensures a == a' && b == b'
  {
    assert a == (a + b)[..|a|] && b == (a + b)[|a|..];
    assert a' == (a' + b')[..|a|] && b' == (a' + b')[|a|..];
  }

  /** When a pad built for one request serves another. If the guided variables are bound as they were: exactly when the
      managed survivors are the same. If the survivors are the same: exactly when the guided actions are. In general:
      exactly when the requests are interchangeable. */
  lemma CachedPadIsRightIff(was: Request, now: Request)
    requires was.extra == now.extra == [] && was.guidance == now.guidance
    ensures Agree(now.guidance, was.find, now.find) ==>
            (Required(was) == Required(now) <==> was.survivors == now.survivors)
    ensures was.survivors == now.survivors ==>
              (Required(was) == Required(now) <==>
                  AllGuided(now.guidance, was.find) == AllGuided(now.guidance, now.find))
    ensures Required(was) == Required(now) <==> Interchangeable(was, now)
  {
    hide Required, Interchangeable, AllGuided, Before;
    ServesIff(was, now);
    if Agree(now.guidance, was.find, now.find) { SameBindings(was, now); }
    if was.survivors == now.survivors { SameSurvivors(was, now); }
  }

  lemma ServesIff(was: Request, now: Request)
    ensures Required(was) == Required(now) <==> Interchangeable(was, now)
  {
    hide Before, Unwind;
    if Required(was) == Required(now) {
      if |Before(was)| <= |Before(now)| {
        CutDifferently(Before(was), was.survivors, Before(now), now.survivors);
      } else {
        CutDifferently(Before(now), now.survivors, Before(was), was.survivors);
      }
    }
    if Interchangeable(was, now) { InterchangeableServes(was, now); }
  }

  lemma SameBindings(was: Request, now: Request)
    requires was.extra == now.extra && was.guidance == now.guidance && Agree(now.guidance, was.find, now.find)
    ensures Required(was) == Required(now) <==> was.survivors == now.survivors
  {
    hide Unwind, AllGuided, Releases;
    AllGuidedAgrees(now.guidance, was.find, now.find);
    var p := Before(now);
    if Required(was) == Required(now) {
      assert Unwind(was.survivors) == Required(was)[|p|..] && Unwind(now.survivors) == Required(now)[|p|..];
      UnwindIsInjective(was.survivors, now.survivors);
    }
  }

  lemma SameSurvivors(was: Request, now: Request)
    requires was.extra == now.extra == [] && was.guidance == now.guidance && was.survivors == now.survivors
    ensures Required(was) == Required(now) <==> AllGuided(now.guidance, was.find) == AllGuided(now.guidance, now.find)
  {
    hide Unwind, AllGuided;
    assert Before(was) == AllGuided(now.guidance, was.find) && Before(now) == AllGuided(now.guidance, now.find);
    if Required(was) == Required(now) {
      assert |Before(was)| == |Before(now)|;
      assert Before(was) == Required(was)[..|Before(was)|] && Before(now) == Required(now)[..|Before(was)|];
    }
  }

  lemma InterchangeableServes(q: Request, q': Request)
    requires Interchangeable(q, q')
    ensures Required(q) == Required(q')
  {
    var c :| || (Before(q') == Before(q) + Unwind(c) && q.survivors == q'.survivors + c)
             || (Before(q) == Before(q') + Unwind(c) && q'.survivors == q.survivors + c);
    hide Before, Unwind;
    UnwindConcat(q'.survivors, c);
    UnwindConcat(q.survivors, c);
    AddAssoc(Before(q), Unwind(c), Unwind(q'.survivors));
    AddAssoc(Before(q'), Unwind(c), Unwind(q.survivors));
  }

  lemma AddAssoc(a: seq<Action>, b: seq<Action>, c: seq<Action>)
    ensures a + (b + c) == a + b + c
  {
  }

  /** The cache knows a pad only by its skip count: after a pop and a push, the same request gets the pad of
      the resource that is gone, which releases that one and not the new one. */
  method StalePad(a: Resource, b: Resource) returns (mm: MemoryManagement, pad: nat)
    requires a != b && a.managed && b.managed
    ensures fresh(mm) && mm.Valid() && mm.active == [b] && pad < |mm.blocks|
    ensures Trace(mm.blocks, pad) == [Release(a)]
  {
    var unbound: string -> Option<Resource> := _ => None;
    OnePad(a, unbound);
    hide Good, PadsHold, AllGood, Trace, Managed, Survivors, Required, Releases, AllGuided, Interchangeable;
    mm := new MemoryManagement();
    mm.PushResource(a);
    pad := mm.GetLandingPad(0, [], unbound);
    var _ := mm.PopResource();
    mm.PushResource(b);
    pad := mm.GetLandingPad(0, [], unbound);
  }

  /** With a and b on the stack, a pad that skips one releases a alone: b has been handed over to the call. */
  method SkipOne(a: Resource, b: Resource) returns (mm: MemoryManagement, pad: nat)
    requires a.managed && b.managed
    ensures fresh(mm) && mm.Valid() && mm.active == [a, b] && pad < |mm.blocks|
    ensures Trace(mm.blocks, pad) == [Release(a)]
  {
    hide Good, PadsHold, AllGood, Trace, Managed, Survivors, Required, Releases, AllGuided, Interchangeable, Does,
      UnwindsBelow, Unwind, Before;
    var unbound: string -> Option<Resource> := _ => None;
    OnePad(a, unbound);
    SkipLast(a, b);
    mm := new MemoryManagement();
    mm.PushResource(a);
    mm.PushResource(b);
    pad := mm.GetLandingPad(1, [], unbound);
  }

  lemma SkipLast(a: Resource, b: Resource)
    ensures [] + [a] + [b] == [a, b] && Survivors([a, b], 1) == [a]
  {
    assert [a, b][..1] == [a];
  }

  lemma OnePad(a: Resource, find: string -> Option<Resource>)
    requires a.managed
    ensures Managed([a]) == [a] && Survivors([a], 0) == [a] && Required(Request([], [], find, [a])) == [Release(a)]
  {
    UnwindReverses([a]);
    assert Required(Request([], [], find, [a])) == [] + Unwind([a]);
  }

  /** Nor does it know how variables are bound: with the survivors unchanged, a variable that guidance releases is
      bound anew, and the same request gets the pad that releases the old value. */
  method StaleBinding(x: Resource, y: Resource) returns (mm: MemoryManagement, pad: nat)
    requires x != y && x.managed && y.managed
    ensures fresh(mm) && mm.Valid() && mm.guidance == [Guidance("v", -1)] && mm.active == [] && pad < |mm.blocks|
    ensures Trace(mm.blocks, pad) == [Release(x)]
    ensures AllGuided(mm.guidance, _ => Some(y)) == [Release(y)]
  {
    var gs := [Guidance("v", -1)];
    GuidedOnce(gs[0], x);
    GuidedOnce(gs[0], y);
    assert Managed([]) == [] && Survivors([], 0) == [] && Unwind([]) == [] && Releases([]) == [];
    hide Good, PadsHold, AllGood, Trace, Managed, Survivors, Releases, AllGuided, Interchangeable, Unwind;
    mm := new MemoryManagement();
    mm.SetActiveUnwindGuidance(gs);
    pad := mm.GetLandingPad(0, [], _ => Some(x));
    pad := mm.GetLandingPad(0, [], _ => Some(y));
  }

  lemma GuidedOnce(g: Guidance, x: Resource)
    requires g.change == -1 && x.managed
    ensures AllGuided([g], _ => Some(x)) == [Release(x)]
  {
    assert [g][..0] == [];
    assert Repeat(Release(x), 1) == Repeat(Release(x), 0) + [Release(x)];
  }
}
