/** A trap for the search: fields under which the search finds nothing, because it meets the one
    assertion that has a value of its own too early, although the equations pass that value on from
    assertion to assertion as far as a policy. */
module TrustTrap {
  import opened Options
  import opened TrustGraph
  import opened TrustSearch
  import opened TrustExactness
  import opened TrustOrder
  import opened FlowGraphs

  /** An assertion in `target` is worth what its target is worth, `x` is worth the most, and nothing
      else is worth anything. Of the targets only that of `y` is `x`. */
  datatype Wiring = Wiring(target: map<nat, nat>, x: nat, y: nat)

  ghost predicate Wired(g: Graph, w: Wiring) {
    && w.x < |g.nodes| && w.x !in w.target && w.y in w.target && w.y < |g.nodes|
    && (forall a :: a in w.target ==> w.target[a] < |g.nodes| && (w.target[a] == w.x ==> a == w.y))
  }

  lemma WiredAt(g: Graph, w: Wiring, a: nat)
    requires Wired(g, w)
    ensures w.x !in w.target
    ensures a in w.target ==> w.target[a] < |g.nodes| && (w.target[a] == w.x ==> a == w.y)
  {
  }

  /** The Licensees field of `a` under these values. */
  ghost predicate BehavesAt(g: Graph, hash: Key -> nat, w: Wiring, vals: seq<int>, a: nat)
    requires ValidGraph(g) && |vals| == |g.nodes| && a < |vals|
  {
    && (a in w.target ==> w.target[a] < |vals|)
    && LicenseesValue(g, hash, vals, a) ==
         if a == w.x then g.top else if a in w.target then vals[w.target[a]] else 0
  }

  /** Everything is signed and without Conditions, the Licensees fields are as wired, and a cycle leads
      from `x` to `y`. */
  ghost predicate Trap(g: Graph, hash: Key -> nat, w: Wiring, c: seq<nat>) {
    && Open(g) && IndexComplete(g, hash) && g.top > 0 && Wired(g, w)
    && (forall a :: 0 <= a < |g.nodes| ==> g.nodes[a].conditions == NoConditions && g.nodes[a].verifies)
    && (forall vals: seq<int>, a: nat :: InRange(g, vals) && a < |vals| ==> BehavesAt(g, hash, w, vals, a))
    && |c| >= 2 && Distinct(c) && c[0] == w.x && Last(c) == w.y && (forall i :: 0 <= i < |c| ==> c[i] < |g.nodes|)
    && (forall i :: 0 < i < |c| ==> c[i] in Successors(g, hash, c[i - 1]))
  }

  function Members(c: seq<nat>): (r: set<nat>)
    ensures forall a :: a in r <==> a in c
  {
    set a | a in c
  }

  lemma TrapFacts(g: Graph, hash: Key -> nat, w: Wiring, c: seq<nat>)
    requires Trap(g, hash, w, c)
    ensures Open(g) && ValidGraph(g) && IndexComplete(g, hash) && g.top > 0 && Wired(g, w)
    ensures w.x < |g.nodes| && w.y < |g.nodes| && w.x != w.y && w.x in Members(c) && w.y in Members(c)
  {
    assert c[0] in c && c[|c| - 1] in c;
  }

  // ----- the search does not see x in time -----

  /** Nothing but `x` has a value, and `y` is done before `x`. */
  ghost predicate Blind(st: State, w: Wiring) {
    && w.x < |st| && w.y < |st|
    && (forall b :: 0 <= b < |st| && b != w.x && st[b].progress.Done? ==> st[b].result == 0)
    && (st[w.x].progress.Done? ==> st[w.y].progress.Done?)
  }

  /** As long as `x` is untouched, the cycle is. */
  ghost predicate NotYet(st: State, w: Wiring, c: seq<nat>) {
    w.x < |st| && (st[w.x].progress.Untouched? ==> AllUntouched(st, Members(c)))
  }

  lemma FinishBlind(g: Graph, hash: Key -> nat, w: Wiring, c: seq<nat>, st: State, a: nat)
    requires Trap(g, hash, w, c) && ValidGraph(g) && ValidState(g, st) && Blind(st, w)
    requires a < |st| && st[a].progress.InProgress? && (a == w.x ==> st[w.y].progress.Done?)
    ensures Blind(Finish(g, hash, st, a), w)
  {
    hide LicenseesValue, IndexComplete, Distinct, ValidGraph, Wired, Open, ConditionsValue;
    TrapFacts(g, hash, w, c);
    OpenCall(g, hash, st, a);
    WiredAt(g, w, a);
    assert BehavesAt(g, hash, w, Visible(st), a);
  }

  /** All of the cycle is touched while `x` is in progress. */
  lemma {:induction false} CycleTouched(g: Graph, hash: Key -> nat, w: Wiring, c: seq<nat>, st: State, st': State,
      i: nat)
    requires Trap(g, hash, w, c) && ValidGraph(g) && |st| == |st'| == |g.nodes| && i < |c|
    requires forall j :: 0 < j < |c| ==> st[c[j]].progress.Untouched?
    requires Closed(g, hash, st, st') && Touched(st', Successors(g, hash, w.x)) && StayTouched(st, st')
    requires !st[w.x].progress.Untouched?
    ensures !st'[c[i]].progress.Untouched? && Touched(st', Successors(g, hash, c[i]))
  {
    hide Successors, IndexComplete, Wired, Open, BehavesAt;
    if i > 0 {
      CycleTouched(g, hash, w, c, st, st', i - 1);
      assert c[i] in Successors(g, hash, c[i - 1]);
    }
  }

  lemma CycleDone(g: Graph, hash: Key -> nat, w: Wiring, c: seq<nat>, st: State)
    requires Trap(g, hash, w, c) && ValidGraph(g) && ValidState(g, st)
    requires st[w.x].progress.Untouched? && AllUntouched(st, Members(c))
    ensures ValidState(g, Prepared(g, st, w.x))
    ensures Visit(g, hash, Prepared(g, st, w.x), Successors(g, hash, w.x))[w.y].progress.Done?
  {
    hide Visit, Successors, IndexComplete, Wired, Closed, Touched, BehavesAt;
    TrapFacts(g, hash, w, c);
    OpenCall(g, hash, st, w.x);
    var st2, ids := Prepared(g, st, w.x), Successors(g, hash, w.x);
    var st3 := Visit(g, hash, st2, ids);
    VisitCloses(g, hash, st2, ids);
    forall j | 0 < j < |c| ensures st2[c[j]].progress.Untouched? {
      assert c[j] in Members(c);
    }
    CycleTouched(g, hash, w, c, st2, st3, |c| - 1);
    assert w.y !in Active(st2) && w.y !in Active(st3);
  }

  lemma FinishElsewhere(g: Graph, hash: Key -> nat, st: State, a: nat)
    requires ValidGraph(g) && ValidState(g, st) && a < |st|
    ensures Finish(g, hash, st, a)[a].progress.Done?
    ensures forall b :: 0 <= b < |st| && b != a ==> Finish(g, hash, st, a)[b] == st[b]
  {
    hide LicenseesValue;
  }

  lemma {:induction false} EvaluateBlind(g: Graph, hash: Key -> nat, w: Wiring, c: seq<nat>, st: State, a: nat)
    requires Trap(g, hash, w, c) && ValidGraph(g) && ValidState(g, st) && Blind(st, w) && NotYet(st, w, c)
    requires a < |st| && (a == w.x || a == w.y ==> st[a].progress.Untouched?)
    requires st[w.x].progress.Untouched? ==>
      FirstOf(g, hash, st, a, Members(c)) == None || FirstOf(g, hash, st, a, Members(c)) == Some(w.x)
    ensures Blind(Evaluate(g, hash, st, a), w) && NotYet(Evaluate(g, hash, st, a), w, c)
    decreases Pending(Mark(st, a)), 2, 0
  {
    hide Trap, Visit, Evaluate, Finish, Successors, ConditionsValue;
    TrapFacts(g, hash, w, c);
    OpenCall(g, hash, st, a);
    var st2, ids := Prepared(g, st, a), Successors(g, hash, a);
    var st3 := Visit(g, hash, st2, ids);
    VisitBlind(g, hash, w, c, st2, ids);
    if a == w.x {
      CycleDone(g, hash, w, c, st);
    }
    assert a in Active(st2) && a in Active(st3);
    FinishBlind(g, hash, w, c, st3, a);
    FinishElsewhere(g, hash, st3, a);
  }

  lemma {:induction false} VisitBlind(g: Graph, hash: Key -> nat, w: Wiring, c: seq<nat>, st: State, ids: seq<nat>)
    requires Trap(g, hash, w, c) && ValidGraph(g) && ValidState(g, st) && Blind(st, w) && NotYet(st, w, c)
    requires forall i :: 0 <= i < |ids| ==> ids[i] < |st|
    requires st[w.x].progress.Untouched? ==>
      FirstVisit(g, hash, st, ids, Members(c)) == None || FirstVisit(g, hash, st, ids, Members(c)) == Some(w.x)
    ensures Blind(Visit(g, hash, st, ids), w) && NotYet(Visit(g, hash, st, ids), w, c)
    decreases Pending(st), 1, |ids|
  {
    hide Trap, Evaluate, FirstOf, Blind, NotYet;
    TrapFacts(g, hash, w, c);
    if ids != [] {
      if st[ids[0]].progress.Untouched? {
        assert Pending(Mark(st, ids[0])) == Pending(st) - {ids[0]};
        EvaluateBlind(g, hash, w, c, st, ids[0]);
        var next := Evaluate(g, hash, st, ids[0]);
        if FirstOf(g, hash, st, ids[0], Members(c)) == Some(w.x) {
          EvaluateFirst(g, hash, st, ids[0], Members(c), w.x);
        }
        VisitBlind(g, hash, w, c, next, ids[1..]);
      } else {
        VisitBlind(g, hash, w, c, st, ids[1..]);
      }
    }
  }

  lemma BlindResult(st: State, w: Wiring, a: nat)
    requires Blind(st, w) && a < |st| && a != w.x && st[a].progress.Done?
    ensures st[a].result == 0
  {
  }

  lemma TrapSizes(st: State, w: Wiring, c: seq<nat>)
    requires NotYet(st, w, c)
    ensures w.x < |st|
  {
  }

  lemma StayTouchedAt(g: Graph, hash: Key -> nat, st: State, a: nat, x: nat)
    requires ValidGraph(g) && ValidState(g, st) && a < |st| && x < |st|
    ensures !st[x].progress.Untouched? ==> !Evaluate(g, hash, st, a)[x].progress.Untouched?
  {
    hide Evaluate;
  }

  lemma {:induction false} QueryBlind(g: Graph, hash: Key -> nat, w: Wiring, c: seq<nat>, st: State, ids: seq<nat>,
      valid: nat -> bool, i: nat)
    requires Trap(g, hash, w, c) && ValidGraph(g) && ValidState(g, st) && Blind(st, w) && NotYet(st, w, c)
    requires forall j :: 0 <= j < |ids| ==> ids[j] < |st| && ids[j] != w.x && ids[j] != w.y
    requires st[w.x].progress.Untouched? ==>
      FirstAll(g, hash, st, ids, Members(c)) == None || FirstAll(g, hash, st, ids, Members(c)) == Some(w.x)
    ensures Query(g, hash, st, ids, 0, valid, i).1 == 0
    decreases |ids|
  {
    hide Trap, Evaluate, FirstOf, Blind, NotYet;
    TrapFacts(g, hash, w, c);
    if ids != [] {
      var next := Evaluate(g, hash, st, ids[0]);
      TrapSizes(st, w, c);
      if st[w.x].progress.Untouched? && FirstOf(g, hash, st, ids[0], Members(c)) == Some(w.x) {
        EvaluateFirst(g, hash, st, ids[0], Members(c), w.x);
      }
      StayTouchedAt(g, hash, st, ids[0], w.x);
      EvaluateBlind(g, hash, w, c, st, ids[0]);
      BlindResult(next, w, ids[0]);
      QueryBlind(g, hash, w, c, next, ids[1..], valid, i + 1);
    }
  }

  // ----- but x gives the policy its value -----

  /** The solution follows the wires. */
  lemma TruthAt(g: Graph, hash: Key -> nat, w: Wiring, c: seq<nat>, v: seq<int>, a: nat)
    requires Trap(g, hash, w, c) && IsLeastFixpoint(g, hash, v) && a < |v|
    ensures a == w.x ==> v[a] == g.top
    ensures a in w.target ==> w.target[a] < |v| && v[a] == v[w.target[a]]
  {
    hide LicenseesValue, Distinct, IndexComplete, Wired, Open;
    TrapFacts(g, hash, w, c);
    WiredAt(g, w, a);
    assert BehavesAt(g, hash, w, v, a);
    assert Equations(g, hash, v)[a] == v[a];
    if a in w.target {
      assert 0 <= v[w.target[a]] <= g.top;
    }
  }

  /** The path follows the wires. */
  ghost predicate Follows(w: Wiring, path: seq<nat>) {
    && path != [] && Last(path) == w.x
    && (forall i :: 0 <= i < |path| - 1 ==> path[i] in w.target && w.target[path[i]] == path[i + 1])
  }

  lemma {:induction false} TruthAlong(g: Graph, hash: Key -> nat, w: Wiring, c: seq<nat>, v: seq<int>, path: seq<nat>)
    requires Trap(g, hash, w, c) && IsLeastFixpoint(g, hash, v) && Follows(w, path)
    requires forall i :: 0 <= i < |path| ==> path[i] < |v|
    ensures v[path[0]] == g.top
  {
    hide Trap, IsLeastFixpoint;
    TruthAt(g, hash, w, c, v, path[0]);
    if |path| > 1 {
      assert path[0] in w.target && w.target[path[0]] == path[1];
      TruthAlong(g, hash, w, c, v, path[1..]);
    }
  }

  lemma PolicyGets(g: Graph, v: seq<int>, p: nat)
    requires InRange(g, v) && p < |v| && IsPolicy(g.nodes[p]) && v[p] == g.top
    ensures PolicyValue(g, v) == g.top
  {
    hide MaxWhere, IsPolicy;
    var policy := (a: nat) => a < |g.nodes| && IsPolicy(g.nodes[a]);
    MaxWhereBounds(v, policy, |v|);
    assert policy(p);
  }
}
