/** Why cycles must be entered at one assertion only. Who signed and who lists what decides which
    assertions the search visits in which order. If a cycle can be entered at two assertions, there
    are Licensees fields that keep this order, and whose names are the key lists, for which the search
    answers too low. So for the order of visits the condition of TrustExactness is the exact one. */
module TrustTightness {
  import opened Options
  import opened TrustGraph
  import opened TrustSearch
  import opened TrustExactness
  import opened KeyRecording
  import opened TrustOrder
  import opened TrustTrap
  import opened TrustFilling
  import opened FlowGraphs

  /** Who can be visited from whom, starting at the policies. */
  ghost function ListingFlow(g: Graph): (f: Flow)
    ensures ValidFlow(f) && f.n == |g.nodes|
  {
    Flow(|g.nodes|, set a: nat, b: nat | a < |g.nodes| && b < |g.nodes| && RestsOn(g, a, b) :: (a, b),
      set p: nat | p < |g.nodes| && IsPolicy(g.nodes[p]))
  }

  /** No cycle can be entered at two assertions. */
  ghost predicate OneEntryEach(g: Graph) {
    !HasTwoEntries(ListingFlow(g))
  }

  lemma SameFlow(g: Graph, g': Graph, hash: Key -> nat)
    requires SameOrder(g, g', hash) && IndexComplete(g, hash)
    ensures ListingFlow(g') == ListingFlow(g)
  {
    hide RestsOn, IndexComplete, Successors;
    forall a: nat, b: nat | a < |g.nodes| && b < |g.nodes| ensures RestsOn(g', a, b) == RestsOn(g, a, b) {
      SameRests(g, g', hash, a, b);
    }
    assert ListingFlow(g').edges == ListingFlow(g).edges;
    assert ListingFlow(g').roots == ListingFlow(g).roots;
  }

  // ----- one entry for every cycle gives a nesting -----

  ghost function DominatorsOf(f: Flow, a: nat): (r: set<nat>)
    ensures forall h: nat :: h in r <==> h < f.n && Dominates(f, h, a)
  {
    set h: nat | h < f.n && Dominates(f, h, a)
  }

  ghost function ReachableNodes(f: Flow): (r: set<nat>)
    ensures forall a: nat :: a in r <==> a < f.n && Reachable(f, a)
  {
    set a: nat | a < f.n && Reachable(f, a)
  }

  ghost function NestingOf(f: Flow, rank: map<nat, nat>): (l: Nesting)
    ensures |l.rank| == |l.dom| == f.n && l.reach == ReachableNodes(f)
    ensures forall a :: 0 <= a < f.n ==>
      l.rank[a] == (if a in rank then rank[a] else 0) && l.dom[a] == DominatorsOf(f, a)
  {
    Nesting(seq(f.n, a => if a in rank then rank[a] else 0),
      seq(f.n, a requires 0 <= a < f.n => DominatorsOf(f, a)), ReachableNodes(f))
  }

  lemma ReachableBound(f: Flow, a: nat)
    requires Reachable(f, a)
    ensures a < f.n
  {
  }

  lemma RankKeys(f: Flow, s: set<nat>, rank: map<nat, nat>)
    requires Ranked(f, s, rank)
    ensures rank.Keys == s
  {
  }

  lemma AllReachableBound(f: Flow)
    ensures forall x :: Reachable(f, x) ==> x in ReachableNodes(f)
  {
    hide Reachable;
    forall x | Reachable(f, x) ensures x in ReachableNodes(f) {
      ReachableBound(f, x);
    }
  }

  lemma DominatesItself(f: Flow, a: nat)
    ensures Dominates(f, a, a)
  {
  }

  lemma DominatedBy(f: Flow, rank: map<nat, nat>, a: nat)
    requires ValidFlow(f) && Ranked(f, ReachableNodes(f), rank) && a in ReachableNodes(f)
    ensures Dominated(NestingOf(f, rank), a)
  {
    hide Ranked, Reachable, Dominates;
    var l := NestingOf(f, rank);
    DominatesItself(f, a);
    AllReachableBound(f);
    forall h | h in l.dom[a] ensures h in l.reach && l.rank[h] >= l.rank[a] && l.dom[h] <= l.dom[a] {
      DominatorRank(f, l.reach, rank, h, a);
      RankKeys(f, l.reach, rank);
      forall k | k in l.dom[h] ensures k in l.dom[a] {
        DominatesTrans(f, k, h, a);
      }
    }
  }

  lemma EdgeOf(f: Flow, rank: map<nat, nat>, a: nat, b: nat)
    requires ValidFlow(f) && Ranked(f, ReachableNodes(f), rank) && a in ReachableNodes(f) && (a, b) in f.edges
    ensures a < f.n && b < f.n && Edge(NestingOf(f, rank), a, b)
  {
    hide Reachable, Dominates;
    ReachableNext(f, a, b);
    var l := NestingOf(f, rank);
    if !Dominates(f, b, a) {
      assert Forward(f, a, b);
      forall h | h in l.dom[b] && h != b ensures h in l.dom[a] {
        DominatesNext(f, h, a, b);
      }
    }
  }

  lemma RootOf(f: Flow, rank: map<nat, nat>, p: nat)
    requires ValidFlow(f) && p in f.roots
    ensures p in ReachableNodes(f) && DominatorsOf(f, p) == {p}
  {
    assert Leads(f, [p], p);
    DominatesItself(f, p);
    forall h | Dominates(f, h, p) ensures h == p {
      assert h in [p];
    }
  }

  /** If no cycle can be entered at two assertions, the dominators make a nesting. */
  lemma OneEntryNests(g: Graph)
    requires ValidGraph(g) && OneEntryEach(g)
    ensures CyclesEnteredOnce(g)
  {
    hide HasTwoEntries, Ranked, Edge, Dominated, RestsOn;
    var f := ListingFlow(g);
    forall c ensures !ForwardCycle(f, c) {
      if ForwardCycle(f, c) {
        ForwardCycleHasTwo(f, c);
      }
    }
    var rank := Rank(f, ReachableNodes(f));
    var l := NestingOf(f, rank);
    forall a | a in l.reach ensures a < |g.nodes| && Dominated(l, a) {
      DominatedBy(f, rank, a);
    }
    forall a: nat, b: nat | a in l.reach && a < |g.nodes| && b < |g.nodes| && RestsOn(g, a, b) ensures Edge(l, a, b) {
      assert (a, b) in f.edges;
      EdgeOf(f, rank, a, b);
    }
    assert Nested(g, l);
    forall p: nat | p < |g.nodes| && IsPolicy(g.nodes[p]) ensures p in l.reach && l.dom[p] == {p} {
      RootOf(f, rank, p);
    }
    assert PoliciesEnter(g, l);
  }

  // ----- planning a path -----

  /** A listed key that signed an assertion which is no policy signed nothing else. */
  ghost predicate SoleSigners(g: Graph) {
    forall a, i, b: nat, b': nat ::
      (0 <= a < |g.nodes| && 0 <= i < |g.nodes[a].keylist| && b < |g.nodes| && b' < |g.nodes|
        && !Authorized(g, g.nodes[a].keylist[i].key) && !IsPolicy(g.nodes[b])
        && SignedBy(g, b, g.nodes[a].keylist[i].key) && SignedBy(g, b', g.nodes[a].keylist[i].key)) ==> b == b'
  }

  lemma {:induction false} RecordingLength(names: seq<string>, decode: string -> Option<Key>)
    requires AllDecode(names, decode)
    ensures |Recording(names, decode, [])| == |names|
  {
    if names != [] {
      RecordingLength(names[..|names| - 1], decode);
    }
  }

  lemma {:induction false} RecordingEntry(names: seq<string>, decode: string -> Option<Key>, i: nat)
    requires AllDecode(names, decode) && i < |Recording(names, decode, [])|
    ensures |Recording(names, decode, [])| == |names|
    ensures Recording(names, decode, [])[i].key == decode(names[|names| - 1 - i]).value
  {
    RecordingLength(names, decode);
    if i > 0 {
      RecordingEntry(names[..|names| - 1], decode, i - 1);
    }
  }

  lemma EdgeWire(g: Graph, d: Words, a: nat, b: nat) returns (j: nat)
    requires SoleSigners(g) && FromFields(g, d.decode) && a < |g.nodes| && b < |g.nodes|
    requires RestsOn(g, a, b) && !IsPolicy(g.nodes[b])
    ensures Wire(g, d, a, j, b)
  {
    hide Authorized, SignedBy, Recording, IsPolicy;
    var i :| 0 <= i < |g.nodes[a].keylist|
      && !Authorized(g, g.nodes[a].keylist[i].key) && SignedBy(g, b, g.nodes[a].keylist[i].key);
    var names := NamesAt(g, d, a);
    assert g.nodes[a].keylist == Recording(names, d.decode, []);
    RecordingEntry(names, d.decode, i);
    j := |names| - 1 - i;
  }

  ghost predicate WiredTo(g: Graph, d: Words, a: nat, b: nat, target: map<nat, nat>, at: map<nat, nat>) {
    && a < |g.nodes| && b < |g.nodes| && a in target && a in at
    && target[a] == b && Wire(g, d, a, at[a], b)
  }

  ghost predicate WiredAlong(g: Graph, d: Words, path: seq<nat>, target: map<nat, nat>, at: map<nat, nat>) {
    && path != [] && target.Keys == at.Keys == Members(path[..|path| - 1])
    && (forall i :: 0 < i < |path| ==> WiredTo(g, d, path[i - 1], path[i], target, at))
  }

  lemma WiredStill(g: Graph, d: Words, a: nat, b: nat, target: map<nat, nat>, at: map<nat, nat>, a': nat, b': nat,
      j: nat)
    requires WiredTo(g, d, a, b, target, at) && a != a'
    ensures WiredTo(g, d, a, b, target[a' := b'], at[a' := j])
  {
  }

  lemma WireMore(g: Graph, d: Words, path: seq<nat>, j: nat, target: map<nat, nat>, at: map<nat, nat>)
    requires |path| > 1 && Distinct(path) && WiredAlong(g, d, path[1..], target, at)
    requires path[0] < |g.nodes| && path[1] < |g.nodes| && Wire(g, d, path[0], j, path[1])
    ensures WiredAlong(g, d, path, target[path[0] := path[1]], at[path[0] := j])
  {
    var rest, target', at' := path[1..], target[path[0] := path[1]], at[path[0] := j];
    assert path[..|path| - 1] == [path[0]] + rest[..|rest| - 1];
    forall i | 0 < i < |path| ensures WiredTo(g, d, path[i - 1], path[i], target', at') {
      if i > 1 {
        assert rest[i - 2] == path[i - 1] && rest[i - 1] == path[i];
        WiredStill(g, d, path[i - 1], path[i], target, at, path[0], path[1], j);
      }
    }
  }

  lemma {:induction false} WirePath(g: Graph, d: Words, path: seq<nat>)
    returns (target: map<nat, nat>, at: map<nat, nat>)
    requires SoleSigners(g) && FromFields(g, d.decode) && IsPath(ListingFlow(g), path) && Distinct(path)
    requires forall i :: 0 < i < |path| ==> path[i] < |g.nodes| && !IsPolicy(g.nodes[path[i]])
    ensures WiredAlong(g, d, path, target, at)
  {
    hide SoleSigners, FromFields, RestsOn, Wire, IsPolicy;
    if |path| == 1 {
      target, at := map[], map[];
    } else {
      var rest := path[1..];
      assert forall i :: 0 < i < |rest| ==> (rest[i - 1], rest[i]) == (path[i], path[i + 1]);
      var target', at' := WirePath(g, d, rest);
      assert (path[0], path[1]) in ListingFlow(g).edges;
      var j := EdgeWire(g, d, path[0], path[1]);
      target, at := target'[path[0] := path[1]], at'[path[0] := j];
      WireMore(g, d, path, j, target', at');
    }
  }

  lemma AlongIsPlanned(g: Graph, d: Words, path: seq<nat>, p: Plan)
    requires |path| > 1 && Distinct(path) && WiredAlong(g, d, path, p.w.target, p.at)
    requires p.w.x == Last(path) && p.w.y == path[|path| - 2]
    ensures Planned(g, d, p) && Follows(p.w, path)
  {
    hide Wire;
    var init := path[..|path| - 1];
    forall i | 0 <= i < |path| - 1 ensures path[i] in p.w.target && p.w.target[path[i]] == path[i + 1] {
      assert WiredTo(g, d, path[i + 1 - 1], path[i + 1], p.w.target, p.at);
    }
    forall a | a in p.w.target ensures WireAt(g, d, p, a) && (p.w.target[a] == p.w.x ==> a == p.w.y) {
      assert a in init;
      var i :| 0 <= i < |init| && init[i] == a;
      assert WiredTo(g, d, path[i + 1 - 1], path[i + 1], p.w.target, p.at);
    }
    assert init[|path| - 2] == p.w.y;
    assert p.w.x !in init;
  }

  // ----- what is met first -----

  lemma {:induction false} SamePoliciesIn(g: Graph, g': Graph, bucket: seq<nat>)
    requires SameSigners(g, g') && forall i :: 0 <= i < |bucket| ==> bucket[i] < |g.nodes|
    ensures PoliciesIn(g', bucket) == PoliciesIn(g, bucket)
  {
    if bucket != [] {
      SamePoliciesIn(g, g', bucket[1..]);
    }
  }

  lemma {:induction false} SamePolicies(g: Graph, g': Graph, h: nat)
    requires SameSigners(g, g') && ValidGraph(g) && ValidGraph(g') && h <= |g.table|
    ensures PoliciesFrom(g', h) == PoliciesFrom(g, h)
    decreases |g.table| - h
  {
    hide PoliciesIn;
    if h < |g.table| {
      SamePoliciesIn(g, g', g.table[h]);
      SamePolicies(g, g', h + 1);
    }
  }

  /** All that is reached from a policy is touched when every policy has been evaluated. */
  lemma {:induction false} PathTouched(g: Graph, hash: Key -> nat, st: State, r: State, path: seq<nat>, i: nat)
    requires IndexComplete(g, hash) && ValidGraph(g) && |st| == |r| == |g.nodes|
    requires IsPath(ListingFlow(g), path) && path[0] in ListingFlow(g).roots && i < |path|
    requires Started(st) && Closed(g, hash, st, r)
    requires forall p: nat :: p < |g.nodes| && IsPolicy(g.nodes[p]) ==>
      !r[p].progress.Untouched? && Touched(r, Successors(g, hash, p))
    ensures !r[path[i]].progress.Untouched? && Touched(r, Successors(g, hash, path[i]))
  {
    hide IndexComplete, IsPolicy, Successors, RestsOn;
    if i > 0 {
      PathTouched(g, hash, st, r, path, i - 1);
      assert (path[i - 1], path[i]) in ListingFlow(g).edges;
      RestsIsSuccessor(g, hash, path[i - 1], path[i]);
    }
  }

  lemma {:induction false} FirstAllIn(g: Graph, hash: Key -> nat, st: State, ids: seq<nat>, c: set<nat>, x: nat)
    requires Open(g) && ValidState(g, st) && (forall i :: 0 <= i < |ids| ==> ids[i] < |st|)
    requires FirstAll(g, hash, st, ids, c) == Some(x)
    ensures x in c
    decreases |ids|
  {
    hide Evaluate, FirstOf;
    if FirstOf(g, hash, st, ids[0], c) == None {
      FirstAllIn(g, hash, Evaluate(g, hash, st, ids[0]), ids[1..], c, x);
    } else {
      EvaluateFirst(g, hash, st, ids[0], c, x);
    }
  }

  /** Evaluating all policies in turn touches every cycle that can be entered. */
  lemma CycleIsMet(g: Graph, hash: Key -> nat, st: State, c: seq<nat>, p: seq<nat>) returns (x: nat)
    requires Open(g) && IndexComplete(g, hash) && ValidGraph(g) && ValidState(g, st) && Started(st)
    requires Enters(ListingFlow(g), p, c) && forall i :: 0 <= i < |c| ==> c[i] < |g.nodes|
    ensures x in c && FirstAll(g, hash, st, PoliciesFrom(g, 0), Members(c)) == Some(x)
  {
    hide IndexComplete, PoliciesFrom, FirstAll, EvaluateAll, Closed, Touched, Successors, IsPolicy, Open;
    var ids, first := PoliciesFrom(g, 0), FirstAll(g, hash, st, PoliciesFrom(g, 0), Members(c));
    assert p[|p| - 1] in Members(c);
    if first == None {
      AllLeaves(g, hash, st, ids, Members(c));
      AllCloses(g, hash, st, ids);
      var r := EvaluateAll(g, hash, st, ids);
      forall a: nat | a < |g.nodes| && IsPolicy(g.nodes[a])
        ensures !r[a].progress.Untouched? && Touched(r, Successors(g, hash, a))
      {
        AllPolicies(g, hash, a);
        var i :| 0 <= i < |ids| && ids[i] == a;
        assert !r[ids[i]].progress.Untouched? && Touched(r, Successors(g, hash, ids[i]));
      }
      PathTouched(g, hash, st, r, p, |p| - 1);
      assert false;
    }
    x := first.value;
    FirstAllIn(g, hash, st, ids, Members(c), x);
  }

  function FreshCells(n: nat): (st: State)
    ensures |st| == n && forall a :: 0 <= a < n ==> st[a] == Cell(Progress.Untouched, 0, Unchecked, false)
  {
    seq(n, _ => Cell(Progress.Untouched, 0, Unchecked, false))
  }

  ghost predicate MetFirst(g: Graph, hash: Key -> nat, c: set<nat>, x: nat) {
    var st := FreshCells(|g.nodes|);
    ValidGraph(g) && ValidState(g, st) && FirstAll(g, hash, st, PoliciesFrom(g, 0), c) == Some(x)
  }

  /** The same key lists without Conditions fields. */
  function Blank(g: Graph): (r: Graph)
    ensures |r.nodes| == |g.nodes| && r.table == g.table && r.authorizers == g.authorizers && r.top == g.top
    ensures forall a :: 0 <= a < |r.nodes| ==> r.nodes[a] == g.nodes[a].(conditions := NoConditions)
  {
    g.(nodes := seq(|g.nodes|, a requires 0 <= a < |g.nodes| => g.nodes[a].(conditions := NoConditions)))
  }

  /** Of the cycle's assertions, `x` is the one that a query meets first. */
  ghost predicate FirstOnCycle(g: Graph, hash: Key -> nat, c: seq<nat>, x: nat) {
    MetFirst(Blank(g), hash, Members(c), x)
  }

  lemma BlankOrder(g: Graph, g': Graph, hash: Key -> nat)
    requires SameOrder(g, g', hash) && g.top > 0
    ensures SameOrder(Blank(g), g', hash) && Open(Blank(g))
  {
    hide SuccessorsOf;
    var b := Blank(g);
    forall a: nat | a < |g.nodes| ensures Successors(b, hash, a) == Successors(g, hash, a) {
      SameSuccessors(g, b, hash, g.nodes[a].keylist);
    }
  }

  lemma SameItself(g: Graph, hash: Key -> nat)
    requires ValidGraph(g)
    ensures SameOrder(g, g, hash)
  {
  }

  lemma BlankIndexed(g: Graph, hash: Key -> nat)
    requires IndexComplete(g, hash) && ValidGraph(g)
    ensures ValidGraph(Blank(g)) && IndexComplete(Blank(g), hash) && ListingFlow(Blank(g)) == ListingFlow(g)
  {
    hide SuccessorsOf, IndexComplete;
    var b := Blank(g);
    SameIndex(g, b, hash);
    forall a: nat | a < |g.nodes| ensures Successors(b, hash, a) == Successors(g, hash, a) {
      SameSuccessors(g, b, hash, g.nodes[a].keylist);
    }
    SameFlow(g, b, hash);
  }

  /** Every cycle that can be entered is met somewhere first. */
  lemma MeetCycle(g: Graph, hash: Key -> nat, c: seq<nat>, p: seq<nat>) returns (x: nat)
    requires IndexComplete(g, hash) && ValidGraph(g) && g.top > 0
    requires Enters(ListingFlow(g), p, c) && forall i :: 0 <= i < |c| ==> c[i] < |g.nodes|
    ensures x in c && FirstOnCycle(g, hash, c, x)
  {
    hide IndexComplete, FirstAll, Open, ValidGraph, IsPath, PoliciesFrom, SameOrder;
    SameItself(g, hash);
    BlankOrder(g, g, hash);
    BlankIndexed(g, hash);
    x := CycleIsMet(Blank(g), hash, FreshCells(|g.nodes|), c, p);
  }

  /** Whatever is filled in, as long as the order is the same. */
  lemma MetAlike(g: Graph, g': Graph, hash: Key -> nat, c: seq<nat>, x: nat)
    requires SameOrder(g, g', hash) && Open(g') && g.top > 0 && FirstOnCycle(g, hash, c, x)
    ensures MetFirst(g', hash, Members(c), x)
  {
    hide FirstAll, PoliciesFrom, Successors;
    BlankOrder(g, g', hash);
    SamePolicies(Blank(g), g', 0);
    SameAll(Blank(g), g', hash, FreshCells(|g.nodes|), FreshCells(|g.nodes|), PoliciesFrom(Blank(g), 0), Members(c));
  }

  // ----- cycles that lose -----

  /** From a policy into the cycle, and on around it to where it began. */
  lemma JoinPaths(f: Flow, c: seq<nat>, p: seq<nat>, j: nat) returns (path: seq<nat>)
    requires IsCycle(f, c) && Enters(f, p, c) && Distinct(p) && 0 < j < |c| && c[j] == Last(p)
    ensures IsPath(f, path) && Distinct(path) && |path| > 1 && path[0] == p[0]
    ensures Last(path) == c[0] && path[|path| - 2] == Last(c)
  {
    path := p[..|p| - 1] + c[j..] + [c[0]];
    var n, m := |p| - 1, |c| - j;
    forall i | 0 < i < |path| ensures (path[i - 1], path[i]) in f.edges {
      if i <= n {
        assert path[i] == p[i] && path[i - 1] == p[i - 1];
      } else if i < n + m {
        assert path[i] == c[j + i - n] && path[i - 1] == c[j + i - n - 1];
      } else {
        assert (path[i - 1], path[i]) == (Last(c), c[0]);
      }
    }
    forall i, k | 0 <= i < k < |path| ensures path[i] != path[k] {
      if i < n {
        assert path[i] == p[i] && p[i] !in c;
        assert k < n ==> path[k] == p[k];
        assert n <= k < n + m ==> path[k] == c[j + k - n];
        assert c[0] in c;
      } else {
        assert path[i] == c[j + i - n];
        assert k < n + m ==> path[k] == c[j + k - n];
      }
    }
    forall i | 0 <= i < |path| ensures path[i] < f.n {
      assert i < n ==> path[i] == p[i];
      assert n <= i < n + m ==> path[i] == c[j + i - n];
    }
    assert path[0] == p[0];
  }

  /** The end of a path, from the last policy on it. */
  lemma FromLastPolicy(g: Graph, path: seq<nat>) returns (m: nat)
    requires |path| >= 2 && (forall i :: 0 <= i < |path| ==> path[i] < |g.nodes|) && IsPolicy(g.nodes[path[0]])
    requires !IsPolicy(g.nodes[path[|path| - 1]]) && !IsPolicy(g.nodes[path[|path| - 2]])
    ensures m + 2 < |path| && IsPolicy(g.nodes[path[m]])
    ensures forall i :: m < i < |path| ==> !IsPolicy(g.nodes[path[i]])
  {
    hide IsPolicy;
    m := |path| - 1;
    while !IsPolicy(g.nodes[path[m]])
      invariant m < |path| && forall i :: m < i < |path| ==> !IsPolicy(g.nodes[path[i]])
      decreases m
    {
      assert m > 0;
      m := m - 1;
    }
  }

  lemma PathEnd(f: Flow, path: seq<nat>, m: nat)
    requires IsPath(f, path) && Distinct(path) && m + 2 < |path|
    ensures IsPath(f, path[m..]) && Distinct(path[m..]) && Last(path[m..]) == Last(path)
    ensures path[m..][|path[m..]| - 2] == path[|path| - 2]
  {
    var end := path[m..];
    forall i | 0 < i < |end| ensures (end[i - 1], end[i]) in f.edges {
      assert (end[i - 1], end[i]) == (path[m + i - 1], path[m + i]);
    }
  }

  /** The plan for a cycle that is met at `c[0]` and entered elsewhere as well. */
  lemma MakePlan(g: Graph, d: Words, c: seq<nat>, p: seq<nat>) returns (plan: Plan, path: seq<nat>)
    requires SoleSigners(g) && FromFields(g, d.decode)
    requires IsCycle(ListingFlow(g), c) && Enters(ListingFlow(g), p, c) && Last(p) != c[0]
    requires c[0] < |g.nodes| && Last(c) < |g.nodes| && !IsPolicy(g.nodes[c[0]]) && !IsPolicy(g.nodes[Last(c)])
    ensures Planned(g, d, plan) && Follows(plan.w, path) && plan.w.x == c[0] && plan.w.y == Last(c) && |c| >= 2
    ensures IsPath(ListingFlow(g), path) && path[0] in ListingFlow(g).roots
  {
    hide SoleSigners, FromFields, Planned, Follows, IsPolicy, RestsOn;
    var f := ListingFlow(g);
    var q := EntersSimply(f, p, c);
    var j :| 0 <= j < |c| && c[j] == Last(q);
    var whole := JoinPaths(f, c, q, j);
    var m := FromLastPolicy(g, whole);
    PathEnd(f, whole, m);
    path := whole[m..];
    var target, at := WirePath(g, d, path);
    plan := Plan(Wiring(target, c[0], Last(c)), at);
    AlongIsPlanned(g, d, path, plan);
  }

  lemma SameRange(g: Graph, g': Graph, vals: seq<int>)
    requires SameSigners(g, g') && InRange(g', vals)
    ensures InRange(g, vals)
  {
  }

  lemma RangeSizes(g: Graph)
    ensures forall vals: seq<int> :: InRange(g, vals) ==> |vals| == |g.nodes|
  {
  }

  lemma TrapSet(g: Graph, hash: Key -> nat, d: Words, plan: Plan, c: seq<nat>)
    requires IndexComplete(g, hash) && ValidGraph(g) && g.top > 0 && Spare(g, d) && FromFields(g, d.decode)
    requires Planned(g, d, plan) && |c| >= 2 && c[0] == plan.w.x && Last(c) == plan.w.y && IsCycle(ListingFlow(g), c)
    ensures Trap(Fill(g, d, plan), hash, plan.w, c)
  {
    hide IndexComplete, RestsOn, WireAt, ValidGraph, Spare, FromFields, BehavesAt, SameOrder, Open, InRange;
    var g' := Fill(g, d, plan);
    FilledFrame(g, d, plan);
    FilledSameOrder(g, hash, d, plan);
    SameIndex(g, g', hash);
    SameFlow(g, g', hash);
    RangeSizes(g');
    forall vals: seq<int>, a: nat | InRange(g', vals) && a < |vals| ensures BehavesAt(g', hash, plan.w, vals, a) {
      SameRange(g, g', vals);
      FilledBehaves(g, hash, d, plan, vals, a);
    }
    forall i | 0 < i < |c| ensures c[i] in Successors(g', hash, c[i - 1]) {
      assert (c[i - 1], c[i]) in ListingFlow(g').edges;
      RestsIsSuccessor(g', hash, c[i - 1], c[i]);
    }
    assert Wired(g', plan.w);
  }

  lemma QueryTrapped(g: Graph, hash: Key -> nat, w: Wiring, c: seq<nat>, st: State, valid: nat -> bool)
    requires Trap(g, hash, w, c) && ValidGraph(g) && w.x < |g.nodes| && w.y < |g.nodes|
    requires !IsPolicy(g.nodes[w.x]) && !IsPolicy(g.nodes[w.y])
    requires MetFirst(g, hash, Members(c), w.x) && ValidState(g, st) && Started(st)
    ensures WholeQuery(g, hash, st, valid).1 == 0
  {
    hide Trap, FirstAll, PoliciesFrom, Query, IndexComplete, IsPolicy;
    TrapFacts(g, hash, w, c);
    var ids := PoliciesFrom(g, 0);
    SameItself(g, hash);
    SameAll(g, g, hash, FreshCells(|g.nodes|), st, ids, Members(c));
    forall j | 0 <= j < |ids| ensures ids[j] != w.x && ids[j] != w.y {
      AllPolicies(g, hash, ids[j]);
      assert ids[j] in ids;
    }
    assert AllUntouched(st, Members(c));
    QueryBlind(g, hash, w, c, st, ids, valid, 0);
  }

  /** Once the trap is set, every query answers 0 and the policy is worth the most. */
  lemma Trapped(g: Graph, hash: Key -> nat, w: Wiring, c: seq<nat>, path: seq<nat>)
    requires Trap(g, hash, w, c) && ValidGraph(g) && w.x < |g.nodes| && w.y < |g.nodes|
    requires !IsPolicy(g.nodes[w.x]) && !IsPolicy(g.nodes[w.y])
    requires Follows(w, path) && IsPath(ListingFlow(g), path) && path[0] in ListingFlow(g).roots
    requires MetFirst(g, hash, Members(c), w.x)
    ensures forall st, valid :: ValidState(g, st) && Started(st) ==> WholeQuery(g, hash, st, valid).1 == 0
    ensures forall v: seq<int> :: IsPlainSolution(g, v) ==> |v| == |g.nodes| && PolicyValue(g, v) == g.top
  {
    hide Trap, FirstAll, PoliciesFrom, Query, IsPlainSolution, IsLeastFixpoint, PolicyValue, IndexComplete, IsPolicy;
    TrapFacts(g, hash, w, c);
    forall st, valid | ValidState(g, st) && Started(st) ensures WholeQuery(g, hash, st, valid).1 == 0 {
      QueryTrapped(g, hash, w, c, st, valid);
    }
    forall v: seq<int> | IsPlainSolution(g, v) ensures |v| == |g.nodes| && PolicyValue(g, v) == g.top {
      SolutionsAreEqual(g, hash, v);
      LeastIsPrefixpoint(g, hash, v);
      TruthAlong(g, hash, w, c, v, path);
      PolicyGets(g, v, path[0]);
    }
  }

  /** Key lists and names: complete index, key lists read from the fields, two names to spare, and
      listed keys that signed one assertion each, the key of the policies apart. */
  ghost predicate PlainListing(g: Graph, hash: Key -> nat, d: Words) {
    IndexComplete(g, hash) && g.top > 0 && FromFields(g, d.decode) && Spare(g, d) && SoleSigners(g)
  }

  /** No query answers more than 0, although a policy is worth the most. */
  ghost predicate Loses(g: Graph, hash: Key -> nat) {
    && ValidGraph(g)
    && (forall st, valid :: ValidState(g, st) && Started(st) ==> WholeQuery(g, hash, st, valid).1 == 0)
    && (forall v: seq<int> :: IsPlainSolution(g, v) ==> |v| == |g.nodes| && PolicyValue(g, v) == g.top)
  }

  lemma SamePolicy(g: Graph, g': Graph, a: nat)
    requires SameSigners(g, g') && a < |g.nodes|
    ensures IsPolicy(g'.nodes[a]) == IsPolicy(g.nodes[a])
  {
  }

  lemma EntriesNonempty(f: Flow, p: seq<nat>, c: seq<nat>)
    requires Enters(f, p, c)
    ensures p != []
  {
  }

  lemma CycleBounds(f: Flow, c: seq<nat>)
    requires IsCycle(f, c)
    ensures c != [] && forall i :: 0 <= i < |c| ==> c[i] < f.n
  {
  }

  /** A cycle that can be entered at two assertions, be it through a policy: if neither the assertion
      that is met first nor the one before it is a policy, some fields with the same order of visits,
      whose names are the key lists, make every query answer 0 although a policy is worth the most. */
  lemma CycleLoses(g: Graph, hash: Key -> nat, d: Words, c: seq<nat>, p: seq<nat>, q: seq<nat>) returns (g': Graph)
    requires PlainListing(g, hash, d) && EnteredTwice(ListingFlow(g), c, p, q) && FirstOnCycle(g, hash, c, c[0])
    requires c[0] < |g.nodes| && Last(c) < |g.nodes| && !IsPolicy(g.nodes[c[0]]) && !IsPolicy(g.nodes[Last(c)])
    ensures SameOrder(g, g', hash) && IndexComplete(g', hash) && FromFields(g', d.decode) && Recorded(g')
    ensures Loses(g', hash)
  {
    hide IndexComplete, SoleSigners, FromFields, Spare, Planned, Follows, Trap, MetFirst, FirstOnCycle, IsPath,
      Recorded,
      IsCycle, Enters, ValidGraph, ListingFlow, SameOrder, IsPolicy, Open, WholeQuery, IsPlainSolution, PolicyValue;
    IndexValid(g, hash);
    CycleBounds(ListingFlow(g), c);
    EntriesNonempty(ListingFlow(g), p, c);
    EntriesNonempty(ListingFlow(g), q, c);
    var plan, path := MakePlan(g, d, c, if Last(p) != c[0] then p else q);
    g' := Fill(g, d, plan);
    FilledFrame(g, d, plan);
    FilledSameOrder(g, hash, d, plan);
    FilledFromFields(g, d, plan);
    FilledIsRecorded(g, d, plan);
    SameIndex(g, g', hash);
    SameFlow(g, g', hash);
    TrapSet(g, hash, d, plan, c);
    MetAlike(g, g', hash, c, c[0]);
    SamePolicy(g, g', c[0]);
    SamePolicy(g, g', Last(c));
    Trapped(g', hash, plan.w, c, path);
  }

  // ----- the theorem -----

  /** No listed key signed two assertions, policies included. */
  ghost predicate NoSharedKey(g: Graph) {
    forall a, i, b: nat, b': nat ::
      (0 <= a < |g.nodes| && 0 <= i < |g.nodes[a].keylist| && b < |g.nodes| && b' < |g.nodes|
        && !Authorized(g, g.nodes[a].keylist[i].key)
        && SignedBy(g, b, g.nodes[a].keylist[i].key) && SignedBy(g, b', g.nodes[a].keylist[i].key)) ==> b == b'
  }

  lemma SignedAlike(g: Graph, p: nat, q: nat, key: Key)
    requires p < |g.nodes| && q < |g.nodes| && IsPolicy(g.nodes[p]) && IsPolicy(g.nodes[q])
    ensures SignedBy(g, p, key) == SignedBy(g, q, key)
  {
  }

  /** If a policy is listed, it is the only one. */
  lemma ListedPolicyIsSole(g: Graph, a: nat, p: nat, q: nat)
    requires NoSharedKey(g) && a < |g.nodes| && p < |g.nodes| && q < |g.nodes| && RestsOn(g, a, p)
    requires IsPolicy(g.nodes[p]) && IsPolicy(g.nodes[q])
    ensures p == q
  {
    hide IsPolicy, SignedBy, Authorized;
    var i :| 0 <= i < |g.nodes[a].keylist|
      && !Authorized(g, g.nodes[a].keylist[i].key) && SignedBy(g, p, g.nodes[a].keylist[i].key);
    SignedAlike(g, p, q, g.nodes[a].keylist[i].key);
  }

  /** So a cycle through a policy is entered there only. */
  lemma NoPolicyOnTwo(g: Graph, c: seq<nat>, p: seq<nat>, q: seq<nat>, i: nat)
    requires NoSharedKey(g) && EnteredTwice(ListingFlow(g), c, p, q) && i < |c|
    ensures c[i] < |g.nodes| && !IsPolicy(g.nodes[c[i]])
  {
    hide RestsOn, IsPolicy, NoSharedKey;
    var u := if i == 0 then Last(c) else c[i - 1];
    assert (u, c[i]) in ListingFlow(g).edges;
    if IsPolicy(g.nodes[c[i]]) {
      ListedPolicyIsSole(g, u, c[i], p[0]);
      ListedPolicyIsSole(g, u, c[i], q[0]);
    }
  }

  /** The cycle read from `x` on. */
  lemma ReadFrom(f: Flow, c: seq<nat>, p: seq<nat>, q: seq<nat>, x: nat) returns (d: seq<nat>)
    requires EnteredTwice(f, c, p, q) && x in c
    ensures EnteredTwice(f, d, p, q) && d != [] && d[0] == x && Members(d) == Members(c)
  {
    hide IsPath, Distinct, IsCycle, Enters;
    var i :| 0 <= i < |c| && c[i] == x;
    Rotated(f, c, i);
    d := c[i..] + c[..i];
    EntersRotated(f, p, c, d);
    EntersRotated(f, q, c, d);
    EntriesNonempty(f, p, d);
    EntriesNonempty(f, q, d);
  }

  lemma TwoEntriesLose(g: Graph, hash: Key -> nat, d: Words) returns (g': Graph)
    requires PlainListing(g, hash, d) && NoSharedKey(g) && !OneEntryEach(g)
    ensures SameOrder(g, g', hash) && IndexComplete(g', hash) && FromFields(g', d.decode) && Recorded(g')
    ensures Loses(g', hash)
  {
    hide IndexComplete, SoleSigners, FromFields, Spare, NoSharedKey, IsPath, IsCycle, Enters, ListingFlow, Loses,
      SameOrder, IsPolicy, Recorded;
    IndexValid(g, hash);
    var f := ListingFlow(g);
    var c, p, q :| EnteredTwice(f, c, p, q);
    CycleBounds(f, c);
    var x := MeetCycle(g, hash, c, p);
    var e := ReadFrom(f, c, p, q, x);
    NoPolicyOnTwo(g, e, p, q, 0);
    NoPolicyOnTwo(g, e, p, q, |e| - 1);
    g' := CycleLoses(g, hash, d, e, p, q);
  }

  /** The query answers the compliance value that `v` gives. */
  ghost predicate Right(g: Graph, hash: Key -> nat, st: State, valid: nat -> bool, v: seq<int>)
    requires ValidGraph(g) && ValidState(g, st)
  {
    |v| == |g.nodes| && WholeQuery(g, hash, st, valid).1 == PolicyValue(g, v)
  }

  /** Every query answers the compliance value, as long as the delegation check passes. */
  ghost predicate AlwaysRight(g: Graph, hash: Key -> nat) {
    ValidGraph(g) && forall st, valid: nat -> bool, v: seq<int> ::
      ValidState(g, st) && Started(st) && (forall i: nat :: valid(i)) && IsPlainSolution(g, v) ==>
        Right(g, hash, st, valid, v)
  }

  lemma RightWithOneEntry(g: Graph, g': Graph, hash: Key -> nat)
    requires OneEntryEach(g) && SameOrder(g, g', hash) && IndexComplete(g, hash) && IndexComplete(g', hash)
      && Recorded(g')
    ensures AlwaysRight(g', hash)
  {
    hide IndexComplete, Recorded, HasTwoEntries, ListingFlow, SameOrder, CyclesEnteredOnce, WholeQuery, PolicyValue,
      PlainEquations;
    SameFlow(g, g', hash);
    IndexValid(g', hash);
    OneEntryNests(g');
    forall st, valid: nat -> bool, v: seq<int> |
      ValidState(g', st) && Started(st) && (forall i: nat :: valid(i)) && IsPlainSolution(g', v)
      ensures Right(g', hash, st, valid, v)
    {
      QueryComputesComplianceValue(g', hash, st, valid, v);
    }
  }

  lemma WrongAnswer(g: Graph, hash: Key -> nat)
    requires IndexComplete(g, hash) && g.top > 0 && Loses(g, hash)
    ensures !AlwaysRight(g, hash)
  {
    hide IndexComplete, WholeQuery, PolicyValue, IsPlainSolution;
    var v := PlainSolutionExists(g, hash);
    var st, valid := FreshCells(|g.nodes|), (i: nat) => true;
    assert !Right(g, hash, st, valid, v);
  }

  lemma PlainFacts(g: Graph, hash: Key -> nat, d: Words)
    requires PlainListing(g, hash, d)
    ensures IndexComplete(g, hash) && g.top > 0
  {
  }

  lemma SameTop(g: Graph, g': Graph, hash: Key -> nat)
    requires SameOrder(g, g', hash)
    ensures g'.top == g.top
  {
  }

  /** The exact condition, for the order in which assertions lead to others: whatever the fields say
      that keep this order and whose names are the key lists, every query is right, if and only if no
      cycle can be entered at two assertions. */
  lemma AlwaysRightIff(g: Graph, hash: Key -> nat, d: Words)
    requires PlainListing(g, hash, d) && NoSharedKey(g)
    ensures OneEntryEach(g) <==>
      forall g' :: SameOrder(g, g', hash) && IndexComplete(g', hash) && FromFields(g', d.decode) && Recorded(g') ==>
        AlwaysRight(g', hash)
  {
    hide PlainListing, IndexComplete, Recorded, AlwaysRight, OneEntryEach, SameOrder, FromFields, NoSharedKey, Loses;
    PlainFacts(g, hash, d);
    if OneEntryEach(g) {
      forall g' | SameOrder(g, g', hash) && IndexComplete(g', hash) && FromFields(g', d.decode) && Recorded(g')
        ensures AlwaysRight(g', hash)
      {
        RightWithOneEntry(g, g', hash);
      }
    } else {
      var g' := TwoEntriesLose(g, hash, d);
      SameTop(g, g', hash);
      WrongAnswer(g', hash);
    }
  }
}
