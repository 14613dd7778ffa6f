/** When the search is exact: on every graph in which a cycle that a policy can reach is entered at
    one assertion only. While that assertion is in progress it counts 0 for the others, whose
    memoised results may then be below the least solution; but its own result is not, and nobody
    outside the cycle ever reads the others. */
module TrustExactness {
  import opened Licensees
  import opened TrustGraph
  import opened TrustSearch

  // ----- pinning assertions at 0 -----

  function PinnedNode(n: Node, pinned: bool): Node {
    if pinned then n.(conditions := Outcome(0)) else n
  }

  /** The graph in which the given assertions are worth nothing. */
  function Pin(g: Graph, pins: set<nat>): (r: Graph)
    ensures |r.nodes| == |g.nodes| && r.table == g.table && r.authorizers == g.authorizers && r.top == g.top
    ensures forall a :: 0 <= a < |r.nodes| ==> r.nodes[a] == PinnedNode(g.nodes[a], a in pins)
    ensures ValidGraph(g) ==> ValidGraph(r)
  {
    g.(nodes := seq(|g.nodes|, a requires 0 <= a < |g.nodes| => PinnedNode(g.nodes[a], a in pins)))
  }

  lemma {:induction false} PinnedSelect(g: Graph, pins: set<nat>, bucket: seq<nat>, key: Key)
    requires forall i :: 0 <= i < |bucket| ==> bucket[i] < |g.nodes|
    ensures Select(Pin(g, pins), bucket, key) == Select(g, bucket, key)
  {
    if bucket != [] {
      PinnedSelect(g, pins, bucket[1..], key);
    }
  }

  lemma PinnedLeaf(g: Graph, hash: Key -> nat, pins: set<nat>, vals: seq<int>, a: nat, s: string)
    requires ValidGraph(g) && |vals| == |g.nodes| && a < |g.nodes|
    ensures LeafValue(Pin(g, pins), hash, vals, a, s) == LeafValue(g, hash, vals, a, s)
  {
    hide Select;
    var key := if Lookup(g.nodes[a].keylist, s).Some? then Lookup(g.nodes[a].keylist, s).value else Key(Plain, s);
    if hash(key) < |g.table| {
      PinnedSelect(g, pins, g.table[hash(key)], key);
    }
  }

  lemma PinnedEquation(g: Graph, hash: Key -> nat, pins: set<nat>, vals: seq<int>, a: nat)
    requires ValidGraph(g) && |vals| == |g.nodes| && a < |g.nodes|
    ensures Equation(Pin(g, pins), hash, vals, a) == if a in pins then 0 else Equation(g, hash, vals, a)
  {
    hide LeafValue;
    if a !in pins {
      forall s ensures LeavesOf(Pin(g, pins), hash, vals, a)(s) == LeavesOf(g, hash, vals, a)(s) {
        PinnedLeaf(g, hash, pins, vals, a, s);
      }
      FieldsAreEqual(g, a, LeavesOf(Pin(g, pins), hash, vals, a), LeavesOf(g, hash, vals, a));
    }
  }

  lemma SolutionExists(g: Graph, hash: Key -> nat)
    requires ValidGraph(g)
    ensures exists v: seq<int> :: IsLeastFixpoint(g, hash, v)
  {
    var v := LeastFixpointExists(g, hash);
  }

  /** The least solution with some assertions pinned at 0. */
  ghost function Solution(g: Graph, hash: Key -> nat, pins: set<nat>): (v: seq<int>)
    requires ValidGraph(g)
    ensures IsLeastFixpoint(Pin(g, pins), hash, v) && |v| == |g.nodes| && InRange(g, v)
  {
    SolutionExists(Pin(g, pins), hash);
    var v: seq<int> :| IsLeastFixpoint(Pin(g, pins), hash, v);
    v
  }

  lemma SolutionAt(g: Graph, hash: Key -> nat, pins: set<nat>, a: nat)
    requires ValidGraph(g) && a < |g.nodes|
    ensures Solution(g, hash, pins)[a] == if a in pins then 0 else Equation(g, hash, Solution(g, hash, pins), a)
  {
    hide Equation;
    var v := Solution(g, hash, pins);
    PinnedEquation(g, hash, pins, v, a);
    assert Equations(Pin(g, pins), hash, v)[a] == v[a];
  }

  /** What no pinned equation exceeds is at or above the solution. */
  lemma SolutionBelow(g: Graph, hash: Key -> nat, pins: set<nat>, w: seq<int>)
    requires ValidGraph(g) && InRange(g, w)
    requires forall a: nat :: a < |w| && a !in pins ==> Equation(g, hash, w, a) <= w[a]
    ensures Below(Solution(g, hash, pins), w)
  {
    hide Equation;
    forall a | 0 <= a < |w| ensures Equations(Pin(g, pins), hash, w)[a] <= w[a] {
      PinnedEquation(g, hash, pins, w, a);
    }
    assert IsPrefixpoint(Pin(g, pins), hash, w);
  }

  // ----- raising one assertion -----

  lemma {:induction false} MaxOfCapped(u: seq<int>, w: seq<int>, ids: seq<nat>, cap: nat)
    requires |u| == |w| && forall i :: 0 <= i < |ids| ==> ids[i] < |u|
    requires forall a :: 0 <= a < |u| ==> w[a] <= Max(u[a], cap)
    ensures MaxOf(w, ids) <= Max(MaxOf(u, ids), cap)
  {
    if ids != [] {
      MaxOfCapped(u, w, ids[1..], cap);
    }
  }

  /** If every assertion is raised to at most `cap`, so is every right-hand side. */
  lemma EquationCapped(g: Graph, hash: Key -> nat, u: seq<int>, w: seq<int>, a: nat, cap: nat)
    requires ValidGraph(g) && |u| == |w| == |g.nodes| && a < |u|
    requires forall b :: 0 <= b < |u| ==> w[b] <= Max(u[b], cap)
    ensures Equation(g, hash, w, a) <= Max(Equation(g, hash, u, a), cap)
  {
    hide FindAll;
    if g.nodes[a].licensees.Given? {
      forall s ensures LeavesOf(g, hash, w, a)(s) <= Max(LeavesOf(g, hash, u, a)(s), cap) {
        match Lookup(g.nodes[a].keylist, s)
        case Some(key) => MaxOfCapped(u, w, FindAll(g, hash, key), cap);
        case None => MaxOfCapped(u, w, FindAll(g, hash, Key(Plain, s)), cap);
      }
      ValueCapped(g.nodes[a].licensees.expr, LeavesOf(g, hash, u, a), LeavesOf(g, hash, w, a), g.top, cap);
    }
  }

  lemma EquationMonotone(g: Graph, hash: Key -> nat, u: seq<int>, w: seq<int>, a: nat)
    requires ValidGraph(g) && |u| == |g.nodes| && Below(u, w) && a < |u|
    ensures Equation(g, hash, u, a) <= Equation(g, hash, w, a)
  {
    EquationsMonotone(g, hash, u, w);
    assert Equations(g, hash, u)[a] <= Equations(g, hash, w)[a];
  }

  lemma EquationRange(g: Graph, hash: Key -> nat, u: seq<int>, a: nat)
    requires ValidGraph(g) && InRange(g, u) && a < |u|
    ensures 0 <= Equation(g, hash, u, a) <= g.top
  {
    EquationsRange(g, hash, u);
    assert Equations(g, hash, u)[a] == Equation(g, hash, u, a);
  }

  function Raised(u: seq<int>, pins: set<nat>, a: nat, cap: int): (w: seq<int>)
    ensures |w| == |u|
    ensures forall b :: 0 <= b < |w| ==> w[b] == if b == a then cap else if b in pins then u[b] else Max(u[b], cap)
  {
    seq(|u|, b requires 0 <= b < |u| => if b == a then cap else if b in pins then u[b] else Max(u[b], cap))
  }

  lemma PinsOrdered(g: Graph, hash: Key -> nat, few: set<nat>, many: set<nat>)
    requires ValidGraph(g) && few <= many
    ensures Below(Solution(g, hash, many), Solution(g, hash, few))
  {
    hide Equation, IsLeastFixpoint;
    var v := Solution(g, hash, few);
    forall a: nat | a < |v| && a !in many ensures Equation(g, hash, v, a) <= v[a] {
      SolutionAt(g, hash, few, a);
    }
    SolutionBelow(g, hash, many, v);
  }

  /** Computing an assertion from the solution in which it counts 0 gives its value in the solution
      in which it does not: what it adds through itself is at most what it is. */
  lemma HeadValue(g: Graph, hash: Key -> nat, pins: set<nat>, a: nat)
    requires ValidGraph(g) && a < |g.nodes| && a !in pins
    ensures Solution(g, hash, pins)[a] == Equation(g, hash, Solution(g, hash, pins + {a}), a)
  {
    hide Equation, IsLeastFixpoint;
    var u, v := Solution(g, hash, pins + {a}), Solution(g, hash, pins);
    var c := Equation(g, hash, u, a);
    EquationRange(g, hash, u, a);
    PinsOrdered(g, hash, pins, pins + {a});
    EquationMonotone(g, hash, u, v, a);
    SolutionAt(g, hash, pins, a);
    SolutionAt(g, hash, pins + {a}, a);
    var w := Raised(u, pins, a, c);
    forall b: nat | b < |w| && b !in pins ensures Equation(g, hash, w, b) <= w[b] {
      EquationCapped(g, hash, u, w, b, c);
      SolutionAt(g, hash, pins + {a}, b);
    }
    SolutionBelow(g, hash, pins, w);
  }

  // ----- what the equation of one assertion depends on -----

  /** The recording pass has listed every principal of the well-formed Licensees fields. */
  ghost predicate Recorded(g: Graph) {
    forall a, s ::
      (0 <= a < |g.nodes| && g.nodes[a].licensees.Given? && WellFormed(g.nodes[a].licensees.expr)
        && s in Names(g.nodes[a].licensees.expr)) ==> Lookup(g.nodes[a].keylist, s).Some?
  }

  lemma {:induction false} MaxOfAgree(u: seq<int>, v: seq<int>, ids: seq<nat>)
    requires |u| == |v| && forall i :: 0 <= i < |ids| ==> ids[i] < |u| && u[ids[i]] == v[ids[i]]
    ensures MaxOf(u, ids) == MaxOf(v, ids)
  {
    if ids != [] {
      MaxOfAgree(u, v, ids[1..]);
    }
  }

  /** The assertions of a listed, unauthorised key are all among the successors. */
  lemma {:induction false} ListedIsSuccessor(g: Graph, hash: Key -> nat, keylist: seq<KeyEntry>, s: string, i: nat)
    requires ValidGraph(g) && Lookup(keylist, s).Some? && !Authorized(g, Lookup(keylist, s).value)
    requires i < |FindAll(g, hash, Lookup(keylist, s).value)|
    ensures FindAll(g, hash, Lookup(keylist, s).value)[i] in SuccessorsOf(g, hash, keylist)
  {
    var found := FindAll(g, hash, Lookup(keylist, s).value);
    if keylist[0].name != s {
      ListedIsSuccessor(g, hash, keylist[1..], s, i);
    } else {
      assert SuccessorsOf(g, hash, keylist) == found + SuccessorsOf(g, hash, keylist[1..]);
      assert SuccessorsOf(g, hash, keylist)[i] == found[i];
    }
  }

  function Successors(g: Graph, hash: Key -> nat, a: nat): (r: seq<nat>)
    requires ValidGraph(g) && a < |g.nodes|
    ensures forall i :: 0 <= i < |r| ==> r[i] < |g.nodes|
  {
    SuccessorsOf(g, hash, g.nodes[a].keylist)
  }

  /** The values agree on everything that assertion `a` rests on. */
  ghost predicate Agree(g: Graph, hash: Key -> nat, u: seq<int>, w: seq<int>, a: nat)
    requires ValidGraph(g) && |u| == |w| == |g.nodes| && a < |g.nodes|
  {
    forall b :: b in Successors(g, hash, a) ==> u[b] == w[b]
  }

  lemma LeafLocal(g: Graph, hash: Key -> nat, u: seq<int>, w: seq<int>, a: nat, s: string)
    requires ValidGraph(g) && |u| == |w| == |g.nodes| && a < |g.nodes| && Agree(g, hash, u, w, a)
    requires Lookup(g.nodes[a].keylist, s).Some?
    ensures LeafValue(g, hash, u, a, s) == LeafValue(g, hash, w, a, s)
  {
    hide FindAll;
    var key := Lookup(g.nodes[a].keylist, s).value;
    if !Authorized(g, key) {
      var ids := FindAll(g, hash, key);
      forall i | 0 <= i < |ids| ensures u[ids[i]] == w[ids[i]] {
        ListedIsSuccessor(g, hash, g.nodes[a].keylist, s, i);
      }
      MaxOfAgree(u, w, ids);
    }
  }

  lemma EquationLocal(g: Graph, hash: Key -> nat, u: seq<int>, w: seq<int>, a: nat)
    requires ValidGraph(g) && Recorded(g) && |u| == |w| == |g.nodes| && a < |g.nodes| && Agree(g, hash, u, w, a)
    ensures Equation(g, hash, u, a) == Equation(g, hash, w, a)
  {
    hide LeafValue, Agree;
    if g.nodes[a].licensees.Given? && WellFormed(g.nodes[a].licensees.expr) {
      var e := g.nodes[a].licensees.expr;
      forall s | s in Names(e) ensures LeavesOf(g, hash, u, a)(s) == LeavesOf(g, hash, w, a)(s) {
        LeafLocal(g, hash, u, w, a, s);
      }
      ValueLocal(e, LeavesOf(g, hash, u, a), LeavesOf(g, hash, w, a), g.top);
    }
  }

  // ----- cycles with one entry -----

  /** Assertion `a` lists a key that is not an action authorizer and signed `b`. */
  ghost predicate RestsOn(g: Graph, a: nat, b: nat)
    requires a < |g.nodes| && b < |g.nodes|
  {
    exists i :: 0 <= i < |g.nodes[a].keylist|
      && !Authorized(g, g.nodes[a].keylist[i].key) && SignedBy(g, b, g.nodes[a].keylist[i].key)
  }

  /** A numbering of the assertions in `reach`, and for each of them the assertions without which it
      cannot be reached from a policy, itself included. */
  datatype Nesting = Nesting(rank: seq<nat>, dom: seq<set<nat>>, reach: set<nat>)

  /** Either the search goes forward, to a smaller number and through nothing new but `b`; or it
      returns to an assertion that every way to `a` passes. */
  ghost predicate Edge(l: Nesting, a: nat, b: nat)
    requires a < |l.rank| == |l.dom| && b < |l.rank|
  {
    b in l.reach && (b in l.dom[a] || (l.rank[b] < l.rank[a] && l.dom[b] <= l.dom[a] + {b}))
  }

  ghost predicate Dominated(l: Nesting, a: nat)
    requires a < |l.rank| == |l.dom|
  {
    && a in l.dom[a] && l.dom[a] <= l.reach
    && (forall h :: h in l.dom[a] ==> h < |l.rank| && l.rank[h] >= l.rank[a] && l.dom[h] <= l.dom[a])
  }

  /** Every cycle in reach is entered at one assertion only. What an assertion without a positive
      Conditions value lists does not matter. */
  ghost predicate Nested(g: Graph, l: Nesting) {
    && ValidGraph(g) && |l.rank| == |l.dom| == |g.nodes|
    && (forall a :: a in l.reach ==> a < |g.nodes| && Dominated(l, a))
    && (forall a: nat, b: nat ::
         a in l.reach && a < |g.nodes| && ConditionsValue(g, a) != 0 && b < |g.nodes| && RestsOn(g, a, b) ==>
           Edge(l, a, b))
  }

  lemma NestedFacts(g: Graph, l: Nesting, a: nat)
    requires Nested(g, l) && a in l.reach
    ensures ValidGraph(g) && |l.rank| == |l.dom| == |g.nodes| && a < |g.nodes| && Dominated(l, a)
  {
  }

  lemma {:induction false} SelectedIsSigned(g: Graph, bucket: seq<nat>, key: Key)
    requires forall i :: 0 <= i < |bucket| ==> bucket[i] < |g.nodes|
    ensures forall b :: b in Select(g, bucket, key) ==> b < |g.nodes| && SignedBy(g, b, key)
  {
    if bucket != [] {
      SelectedIsSigned(g, bucket[1..], key);
    }
  }

  lemma {:induction false} SuccessorIsSigned(g: Graph, hash: Key -> nat, keylist: seq<KeyEntry>, b: nat)
    requires ValidGraph(g) && b in SuccessorsOf(g, hash, keylist)
    ensures b < |g.nodes|
    ensures exists i :: 0 <= i < |keylist| && !Authorized(g, keylist[i].key) && SignedBy(g, b, keylist[i].key)
  {
    var key := keylist[0].key;
    if b in SuccessorsOf(g, hash, keylist[1..]) {
      SuccessorIsSigned(g, hash, keylist[1..], b);
      var i :| 0 <= i < |keylist[1..]| && !Authorized(g, keylist[1..][i].key) && SignedBy(g, b, keylist[1..][i].key);
      assert keylist[1..][i] == keylist[i + 1];
    } else {
      SelectedIsSigned(g, g.table[hash(key)], key);
    }
  }

  lemma NestedEdge(g: Graph, hash: Key -> nat, l: Nesting, a: nat, b: nat)
    requires Nested(g, l) && a in l.reach && a < |g.nodes| && ConditionsValue(g, a) != 0 && b in Successors(g, hash, a)
    ensures b < |l.rank| && Edge(l, a, b)
  {
    SuccessorIsSigned(g, hash, g.nodes[a].keylist, b);
  }

  /** The value of an assertion while those that dominate it are in progress. */
  ghost function Relative(g: Graph, hash: Key -> nat, l: Nesting, a: nat): int
    requires ValidGraph(g) && a < |g.nodes| == |l.dom|
  {
    Solution(g, hash, l.dom[a] - {a})[a]
  }

  /** The assertions on which `b` rests before anything that dominates it. */
  ghost predicate Inner(l: Nesting, b: nat, x: nat)
    requires b < |l.rank| == |l.dom|
  {
    && x in l.reach && x < |l.rank| && l.rank[x] <= l.rank[b]
    && (forall h :: h in l.dom[x] && h < |l.rank| && l.rank[h] > l.rank[b] ==> h in l.dom[b])
  }

  lemma InnerClosed(g: Graph, hash: Key -> nat, l: Nesting, b: nat, x: nat, y: nat)
    requires Nested(g, l) && b in l.reach && b < |l.rank| && Inner(l, b, x)
    requires ConditionsValue(g, x) != 0 && y in Successors(g, hash, x)
    ensures Inner(l, b, y) || (y in l.dom[b] && y != b)
  {
    NestedEdge(g, hash, l, x, y);
    assert Dominated(l, x) && Dominated(l, b);
  }

  function InnerValues(v: seq<int>, inner: set<nat>, pins: set<nat>, top: int): (u: seq<int>)
    ensures |u| == |v|
    ensures forall x :: 0 <= x < |u| ==> u[x] == if x in inner then v[x] else if x in pins then 0 else top
  {
    seq(|v|, x requires 0 <= x < |v| => if x in inner then v[x] else if x in pins then 0 else top)
  }

  ghost function InnerSet(l: Nesting, b: nat): set<nat>
    requires b < |l.rank| == |l.dom|
  {
    set x: nat | x < |l.rank| && Inner(l, b, x)
  }

  /** The equation of an inner assertion sees the same values. */
  lemma InnerEquation(g: Graph, hash: Key -> nat, l: Nesting, a: nat, b: nat, x: nat)
    requires Nested(g, l) && Recorded(g) && a in l.reach && b in l.reach && a < |g.nodes| && b < |g.nodes|
      && Inner(l, b, x)
    requires l.rank[b] < l.rank[a] && l.dom[b] <= l.dom[a] + {b}
    ensures var v := Solution(g, hash, l.dom[a]);
      var u := InnerValues(v, InnerSet(l, b), l.dom[b] - {b}, g.top);
      x !in l.dom[a] && Equation(g, hash, u, x) == v[x]
  {
    hide Equation, IsLeastFixpoint, InRange, Recorded, Successors;
    var v := Solution(g, hash, l.dom[a]);
    var u := InnerValues(v, InnerSet(l, b), l.dom[b] - {b}, g.top);
    NestedFacts(g, l, a);
    assert x !in l.dom[a];
    SolutionAt(g, hash, l.dom[a], x);
    if ConditionsValue(g, x) != 0 {
      forall y | y in Successors(g, hash, x) ensures u[y] == v[y] {
        InnerClosed(g, hash, l, b, x, y);
        if y in l.dom[b] && y != b {
          SolutionAt(g, hash, l.dom[a], y);
        }
      }
      EquationLocal(g, hash, u, v, x);
    } else {
      NoValue(g, hash, u, x);
      NoValue(g, hash, v, x);
    }
  }

  lemma NoValue(g: Graph, hash: Key -> nat, u: seq<int>, x: nat)
    requires ValidGraph(g) && |u| == |g.nodes| && x < |u| && ConditionsValue(g, x) == 0
    ensures Equation(g, hash, u, x) == 0
  {
    hide LicenseesValue;
  }

  lemma InnerBelow(g: Graph, hash: Key -> nat, l: Nesting, a: nat, b: nat)
    requires Nested(g, l) && Recorded(g) && a in l.reach && b in l.reach && a < |g.nodes| && b < |g.nodes|
    requires l.rank[b] < l.rank[a] && l.dom[b] <= l.dom[a] + {b}
    ensures Solution(g, hash, l.dom[b] - {b})[b] <= Solution(g, hash, l.dom[a])[b]
  {
    hide Equation, IsLeastFixpoint, Recorded, Nested, Inner;
    NestedFacts(g, l, a);
    NestedFacts(g, l, b);
    var pins, v := l.dom[b] - {b}, Solution(g, hash, l.dom[a]);
    var u := InnerValues(v, InnerSet(l, b), pins, g.top);
    forall x: nat | x < |u| && x !in pins ensures Equation(g, hash, u, x) <= u[x] {
      if Inner(l, b, x) {
        InnerEquation(g, hash, l, a, b, x);
      } else {
        EquationRange(g, hash, u, x);
      }
    }
    SolutionBelow(g, hash, pins, u);
    InnerItself(g, hash, l, b);
  }

  lemma InnerItself(g: Graph, hash: Key -> nat, l: Nesting, b: nat)
    requires Nested(g, l) && b in l.reach
    ensures b < |l.rank| == |l.dom| && Inner(l, b, b)
  {
  }

  /** Pinning `a` and what dominates it changes nothing for an assertion it goes forward to, beyond
      what pinning that one's own dominators does. */
  lemma ForwardValue(g: Graph, hash: Key -> nat, l: Nesting, a: nat, b: nat)
    requires Nested(g, l) && Recorded(g) && a in l.reach && b in l.reach && a < |g.nodes| && b < |g.nodes|
    requires l.rank[b] < l.rank[a] && l.dom[b] <= l.dom[a] + {b}
    ensures b !in l.dom[a] && Solution(g, hash, l.dom[a])[b] == Relative(g, hash, l, b)
  {
    hide Equation, IsLeastFixpoint, InRange, Nested, Recorded, Inner;
    NestedFacts(g, l, a);
    NestedFacts(g, l, b);
    PinsOrdered(g, hash, l.dom[b] - {b}, l.dom[a]);
    InnerBelow(g, hash, l, a, b);
  }

  /** What the search has for the successors of `a` when it computes `a`. */
  ghost predicate Seen(g: Graph, hash: Key -> nat, l: Nesting, u: seq<int>, a: nat)
    requires ValidGraph(g) && |u| == |g.nodes| == |l.dom| && a < |g.nodes|
  {
    forall b :: b in Successors(g, hash, a) ==> u[b] == if b in l.dom[a] then 0 else Relative(g, hash, l, b)
  }

  /** From these values it computes the value relative to what is in progress. */
  lemma ComputedValue(g: Graph, hash: Key -> nat, l: Nesting, u: seq<int>, a: nat)
    requires Nested(g, l) && Recorded(g) && |u| == |g.nodes| && a in l.reach && a < |g.nodes|
    requires ConditionsValue(g, a) != 0 && Seen(g, hash, l, u, a)
    ensures Equation(g, hash, u, a) == Relative(g, hash, l, a)
  {
    hide Equation, IsLeastFixpoint, InRange, Recorded, Successors;
    NestedFacts(g, l, a);
    var v := Solution(g, hash, l.dom[a]);
    forall b | b in Successors(g, hash, a) ensures u[b] == v[b] {
      NestedEdge(g, hash, l, a, b);
      if b in l.dom[a] {
        SolutionAt(g, hash, l.dom[a], b);
      } else {
        ForwardValue(g, hash, l, a, b);
      }
    }
    EquationLocal(g, hash, u, v, a);
    HeadValue(g, hash, l.dom[a] - {a}, a);
    assert l.dom[a] - {a} + {a} == l.dom[a];
  }

  // ----- the search -----

  ghost predicate Exact(g: Graph, hash: Key -> nat, l: Nesting, st: State)
    requires ValidGraph(g) && |st| == |g.nodes| == |l.dom|
  {
    forall b :: 0 <= b < |st| && b in l.reach && st[b].progress.Done? ==> st[b].result == Relative(g, hash, l, b)
  }

  /** Everything that dominates `a` is in progress, and nothing with a smaller number is. */
  ghost predicate Within(l: Nesting, active: set<nat>, a: nat)
    requires a < |l.rank| == |l.dom|
  {
    l.dom[a] <= active && forall b :: b in active && b < |l.rank| ==> l.rank[b] >= l.rank[a]
  }

  lemma SettledValue(g: Graph, hash: Key -> nat, l: Nesting, a: nat)
    requires ValidGraph(g) && a < |g.nodes| == |l.dom| && ConditionsValue(g, a) == 0
    ensures Relative(g, hash, l, a) == 0
  {
    SolutionAt(g, hash, l.dom[a] - {a}, a);
    NoValue(g, hash, Solution(g, hash, l.dom[a] - {a}), a);
  }

  lemma FinishValue(g: Graph, hash: Key -> nat, st: State, a: nat)
    requires ValidGraph(g) && ValidState(g, st) && a < |st| && ConditionsValue(g, a) != 0
    ensures Finish(g, hash, st, a)[a].result == Equation(g, hash, Visible(st), a)
    ensures forall b :: 0 <= b < |st| && b != a ==> Finish(g, hash, st, a)[b] == st[b]
  {
    hide LicenseesValue;
  }

  lemma {:induction false} EvaluateExact(g: Graph, hash: Key -> nat, l: Nesting, st: State, a: nat)
    requires Nested(g, l) && Recorded(g) && ValidState(g, st) && Exact(g, hash, l, st)
    requires a < |st| && a in l.reach && Within(l, Active(Mark(st, a)), a)
    ensures Exact(g, hash, l, Evaluate(g, hash, st, a))
    decreases Pending(Mark(st, a)), 2, 0
  {
    hide Nested, Recorded, Relative, Equation;
    NestedFacts(g, l, a);
    if g.nodes[a].conditions == BadConditions || ConditionsValue(g, a) == 0 {
      SettledValue(g, hash, l, a);
    } else {
      var st2 := Prepared(g, st, a);
      assert Pending(st2) == Pending(Mark(st, a)) && Active(st2) == Active(Mark(st, a));
      var ids := Successors(g, hash, a);
      VisitExact(g, hash, l, st2, ids, a);
      var st3 := Visit(g, hash, st2, ids);
      SeenAfterVisit(g, hash, l, st2, st3, a);
      ComputedValue(g, hash, l, Visible(st3), a);
      FinishValue(g, hash, st3, a);
      EvaluateIs(g, hash, st, a);
    }
  }

  lemma EvaluateIs(g: Graph, hash: Key -> nat, st: State, a: nat)
    requires ValidGraph(g) && ValidState(g, st) && a < |st|
    requires g.nodes[a].conditions != BadConditions && ConditionsValue(g, a) != 0
    ensures ValidState(g, Prepared(g, st, a))
    ensures Evaluate(g, hash, st, a) == Finish(g, hash, Visit(g, hash, Prepared(g, st, a), Successors(g, hash, a)), a)
  {
    hide Visit, Finish;
  }

  lemma SeenOne(g: Graph, hash: Key -> nat, l: Nesting, st: State, st': State, a: nat, b: nat)
    requires Nested(g, l) && ValidState(g, st) && a in l.reach && a < |st| == |st'| && ConditionsValue(g, a) != 0
    requires Within(l, Active(st), a) && Active(st') == Active(st) && Exact(g, hash, l, st')
    requires b in Successors(g, hash, a) && b < |st'| && !st'[b].progress.Untouched?
    ensures Visible(st')[b] == if b in l.dom[a] then 0 else Relative(g, hash, l, b)
  {
    hide Relative, Successors;
    NestedFacts(g, l, a);
    NestedEdge(g, hash, l, a, b);
    assert b in Active(st') <==> b in Active(st);
  }

  /** When the successors have been visited, each is done or dominates `a` and is in progress. */
  lemma SeenAfterVisit(g: Graph, hash: Key -> nat, l: Nesting, st: State, st': State, a: nat)
    requires Nested(g, l) && ValidState(g, st) && a in l.reach && a < |st| == |st'| && ConditionsValue(g, a) != 0
    requires Within(l, Active(st), a) && Active(st') == Active(st) && Exact(g, hash, l, st')
    requires forall i :: 0 <= i < |Successors(g, hash, a)| ==> !st'[Successors(g, hash, a)[i]].progress.Untouched?
    ensures Seen(g, hash, l, Visible(st'), a)
  {
    hide Nested, Relative, Successors, Within, Exact;
    NestedFacts(g, l, a);
    forall b | b in Successors(g, hash, a)
      ensures Visible(st')[b] == if b in l.dom[a] then 0 else Relative(g, hash, l, b)
    {
      SeenOne(g, hash, l, st, st', a, b);
    }
  }

  /** Visiting successors of `a`, which is in progress. */
  lemma {:induction false} VisitExact(g: Graph, hash: Key -> nat, l: Nesting, st: State, ids: seq<nat>, a: nat)
    requires Nested(g, l) && Recorded(g) && ValidState(g, st) && Exact(g, hash, l, st)
    requires a < |st| && a in l.reach && ConditionsValue(g, a) != 0 && Within(l, Active(st), a)
    requires forall i :: 0 <= i < |ids| ==> ids[i] < |st| && ids[i] in Successors(g, hash, a)
    ensures Exact(g, hash, l, Visit(g, hash, st, ids))
    decreases Pending(st), 1, |ids|
  {
    hide Recorded, Relative, Evaluate, Successors;
    if ids != [] {
      var b := ids[0];
      if st[b].progress.Untouched? {
        assert Pending(Mark(st, b)) == Pending(st) - {b};
        assert Active(Mark(st, b)) == Active(st) + {b};
        NestedEdge(g, hash, l, a, b);
        assert b !in Active(st);
        EvaluateExact(g, hash, l, st, b);
        assert Active(Evaluate(g, hash, st, b)) == Active(st);
        VisitExact(g, hash, l, Evaluate(g, hash, st, b), ids[1..], a);
      } else {
        VisitExact(g, hash, l, st, ids[1..], a);
      }
    }
  }

  // ----- a whole query -----

  lemma LeastIsUnique(g: Graph, hash: Key -> nat, v: seq<int>, w: seq<int>)
    requires IsLeastFixpoint(g, hash, v) && IsLeastFixpoint(g, hash, w)
    ensures v == w
  {
    hide Equations;
    assert Below(v, w) && Below(w, v);
  }

  /** A policy is dominated by itself only, so its relative value is its value. */
  lemma EntryValue(g: Graph, hash: Key -> nat, l: Nesting, p: nat, v: seq<int>)
    requires p < |g.nodes| == |l.dom| && l.dom[p] == {p} && IsLeastFixpoint(g, hash, v)
    ensures Relative(g, hash, l, p) == v[p]
  {
    assert l.dom[p] - {p} == {};
    assert Pin(g, {}).nodes == g.nodes;
    assert Pin(g, {}) == g;
    LeastIsUnique(g, hash, v, Solution(g, hash, {}));
  }

  ghost predicate Entries(l: Nesting, ids: seq<nat>) {
    forall j :: 0 <= j < |ids| ==> ids[j] in l.reach && ids[j] < |l.dom| && l.dom[ids[j]] == {ids[j]}
  }

  lemma PolicyExact(g: Graph, hash: Key -> nat, l: Nesting, st: State, p: nat, v: seq<int>)
    requires Nested(g, l) && Recorded(g) && ValidState(g, st) && Exact(g, hash, l, st) && Active(st) == {}
    requires p < |st| && Entries(l, [p]) && IsLeastFixpoint(g, hash, v)
    ensures var st' := Evaluate(g, hash, st, p);
      Exact(g, hash, l, st') && Active(st') == {} && st'[p].result == v[p]
  {
    hide Recorded, Relative, IsLeastFixpoint;
    NestedFacts(g, l, [p][0]);
    assert Active(Mark(st, p)) == {p};
    EvaluateExact(g, hash, l, st, p);
    EntryValue(g, hash, l, p, v);
  }

  /** If the delegation check never vetoes, the policy loop finds the best policy value. */
  lemma {:induction false} QueryExact(g: Graph, hash: Key -> nat, l: Nesting, st: State, ids: seq<nat>, prev: int,
      valid: nat -> bool, i: nat, v: seq<int>)
    requires Nested(g, l) && Recorded(g) && ValidState(g, st) && Exact(g, hash, l, st) && Active(st) == {}
    requires (forall j :: 0 <= j < |ids| ==> ids[j] < |st|) && Entries(l, ids)
    requires IsLeastFixpoint(g, hash, v) && (forall k: nat :: valid(k)) && 0 <= prev <= g.top
    ensures Query(g, hash, st, ids, prev, valid, i).1 == Max(prev, MaxOf(v, ids))
    decreases |ids|
  {
    hide Nested, Recorded, Exact, Evaluate;
    if ids != [] {
      var st' := Evaluate(g, hash, st, ids[0]);
      PolicyExact(g, hash, l, st, ids[0], v);
      MaxOfRange(g, v, ids[1..]);
      var best := Max(prev, st'[ids[0]].result);
      if best != g.top {
        QueryExact(g, hash, l, st', ids[1..], best, valid, i + 1, v);
      }
    }
  }

  // ----- the compliance value -----

  /** The best value of a policy assertion. */
  function PolicyValue(g: Graph, v: seq<int>): int
    requires |v| == |g.nodes|
  {
    MaxWhere(v, (a: nat) => a < |g.nodes| && IsPolicy(g.nodes[a]), |v|)
  }

  lemma {:induction false} PoliciesInMembers(g: Graph, bucket: seq<nat>, a: nat)
    requires forall i :: 0 <= i < |bucket| ==> bucket[i] < |g.nodes|
    ensures a in PoliciesIn(g, bucket) <==> a in bucket && a < |g.nodes| && IsPolicy(g.nodes[a])
  {
    if bucket != [] {
      PoliciesInMembers(g, bucket[1..], a);
      assert bucket == [bucket[0]] + bucket[1..];
    }
  }

  lemma {:induction false} PoliciesFromMembers(g: Graph, h: nat, a: nat)
    requires ValidGraph(g) && h <= |g.table|
    ensures a in PoliciesFrom(g, h) <==>
      (exists b :: h <= b < |g.table| && a in g.table[b]) && a < |g.nodes| && IsPolicy(g.nodes[a])
    decreases |g.table| - h
  {
    if h < |g.table| {
      PoliciesInMembers(g, g.table[h], a);
      PoliciesFromMembers(g, h + 1, a);
    }
  }

  lemma AllPolicies(g: Graph, hash: Key -> nat, a: nat)
    requires IndexComplete(g, hash)
    ensures a in PoliciesFrom(g, 0) <==> a < |g.nodes| && IsPolicy(g.nodes[a])
  {
    PoliciesFromMembers(g, 0, a);
    if a < |g.nodes| {
      assert Listed(g, a);
      var b, i :| 0 <= b < |g.table| && 0 <= i < |g.table[b]| && g.table[b][i] == a;
      assert a in g.table[b];
    }
  }

  lemma PolicyValueIs(g: Graph, hash: Key -> nat, v: seq<int>)
    requires IndexComplete(g, hash) && |v| == |g.nodes|
    ensures ValidGraph(g) && MaxOf(v, PoliciesFrom(g, 0)) == PolicyValue(g, v)
  {
    hide IndexComplete, PoliciesFrom, IsPolicy;
    IndexValid(g, hash);
    forall a: nat ensures a in PoliciesFrom(g, 0) <==> a < |g.nodes| && IsPolicy(g.nodes[a]) {
      AllPolicies(g, hash, a);
    }
    MaxOfIsMaxWhere(v, PoliciesFrom(g, 0), (a: nat) => a < |g.nodes| && IsPolicy(g.nodes[a]));
  }

  /** Every cycle within reach of the policies is entered at one assertion only, and every policy is
      an entry. */
  ghost predicate CyclesEnteredOnce(g: Graph) {
    exists l :: Nested(g, l) && PoliciesEnter(g, l)
  }

  ghost predicate PoliciesEnter(g: Graph, l: Nesting) {
    forall p: nat :: p < |g.nodes| && IsPolicy(g.nodes[p]) ==> p in l.reach && p < |l.dom| && l.dom[p] == {p}
  }

  /** The numbers go down along every edge, except from an assertion to itself. */
  ghost predicate OnlySelfListings(g: Graph, rank: seq<nat>) {
    && |rank| == |g.nodes|
    && (forall a: nat, b: nat :: a < |g.nodes| && b < |g.nodes| && RestsOn(g, a, b) ==> a == b || rank[b] < rank[a])
  }

  /** In particular graphs whose only cycles are assertions that list their own authorizer. */
  lemma SelfListingsAreEnteredOnce(g: Graph, rank: seq<nat>)
    requires ValidGraph(g) && OnlySelfListings(g, rank)
    ensures CyclesEnteredOnce(g)
  {
    var l := Nesting(rank, seq(|rank|, a requires 0 <= a < |rank| => {a}), set a: nat {:trigger rank[a]} | a < |rank|);
    forall a: nat | a in l.reach ensures Dominated(l, a) {
    }
    forall a: nat, b: nat | a < |g.nodes| && b < |g.nodes| && RestsOn(g, a, b) ensures Edge(l, a, b) {
    }
    assert Nested(g, l);
    assert PoliciesEnter(g, l);
  }

  /** The search never answers more than the compliance value of RFC 2704, whatever the cycles and
      whatever the delegation check answers; and it answers exactly that if every cycle is entered
      at one assertion only and the delegation check never vetoes. */
  lemma QueryComputesComplianceValue(g: Graph, hash: Key -> nat, st: State, valid: nat -> bool, v: seq<int>)
    requires IndexComplete(g, hash) && ValidState(g, st) && Started(st) && IsPlainSolution(g, v)
    ensures ValidGraph(g)
    ensures var (st', r) := WholeQuery(g, hash, st, valid);
      && r <= PolicyValue(g, v) && Active(st') == {}
      && (Recorded(g) && CyclesEnteredOnce(g) && (forall i: nat :: valid(i)) ==> r == PolicyValue(g, v))
  {
    hide IndexComplete, IsPlainSolution, IsLeastFixpoint, PolicyValue, PoliciesFrom, Query, Recorded, Nested,
      PoliciesEnter;
    IndexValid(g, hash);
    SolutionsAreEqual(g, hash, v);
    var ids := PoliciesFrom(g, 0);
    LeastIsPrefixpoint(g, hash, v);
    PolicyValueIs(g, hash, v);
    MaxOfRange(g, v, ids);
    assert Active(st) == {};
    QuerySound(g, hash, st, ids, 0, valid, 0, v);
    QueryLeavesNoneActive(g, hash, st, ids, 0, valid, 0);
    if Recorded(g) && CyclesEnteredOnce(g) && forall i: nat :: valid(i) {
      var l :| Nested(g, l) && PoliciesEnter(g, l);
      PoliciesAreEntries(g, hash, l);
      NestedSizes(g, l);
      QueryExact(g, hash, l, st, ids, 0, valid, 0, v);
    }
  }

  lemma LeastIsPrefixpoint(g: Graph, hash: Key -> nat, v: seq<int>)
    requires IsLeastFixpoint(g, hash, v)
    ensures IsPrefixpoint(g, hash, v) && InRange(g, v)
  {
  }

  lemma NestedSizes(g: Graph, l: Nesting)
    requires Nested(g, l)
    ensures |l.rank| == |l.dom| == |g.nodes|
  {
  }

  lemma PoliciesAreEntries(g: Graph, hash: Key -> nat, l: Nesting)
    requires IndexComplete(g, hash) && PoliciesEnter(g, l)
    ensures ValidGraph(g) && Entries(l, PoliciesFrom(g, 0))
  {
    hide IndexComplete, PoliciesFrom, IsPolicy;
    IndexValid(g, hash);
    var ids := PoliciesFrom(g, 0);
    forall j | 0 <= j < |ids| ensures ids[j] in l.reach && ids[j] < |l.dom| && l.dom[ids[j]] == {ids[j]} {
      AllPolicies(g, hash, ids[j]);
    }
  }

  lemma EverySolution(g: Graph, hash: Key -> nat, st: State, valid: nat -> bool)
    requires IndexComplete(g, hash) && ValidState(g, st) && Started(st)
    ensures ValidGraph(g)
    ensures forall v: seq<int> :: IsPlainSolution(g, v) ==> WholeQuery(g, hash, st, valid).1 <= PolicyValue(g, v)
    ensures Recorded(g) && CyclesEnteredOnce(g) && (forall i: nat :: valid(i)) ==>
      forall v: seq<int> :: IsPlainSolution(g, v) ==> WholeQuery(g, hash, st, valid).1 == PolicyValue(g, v)
  {
    hide IndexComplete, Recorded, CyclesEnteredOnce, WholeQuery, PolicyValue, PlainEquations;
    IndexValid(g, hash);
    forall v: seq<int> | IsPlainSolution(g, v)
      ensures WholeQuery(g, hash, st, valid).1 <= PolicyValue(g, v)
      ensures Recorded(g) && CyclesEnteredOnce(g) && (forall i: nat :: valid(i)) ==>
        WholeQuery(g, hash, st, valid).1 == PolicyValue(g, v)
    {
      QueryComputesComplianceValue(g, hash, st, valid, v);
    }
  }
}
