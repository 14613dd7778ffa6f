/** Directed graphs with entry nodes: paths, dominators, and cycles by the number of their entries.
    A graph in which no cycle is entered at two nodes has a numbering that goes down along every edge
    except those back to a dominator. */
module FlowGraphs {

  datatype Flow = Flow(n: nat, edges: set<(nat, nat)>, roots: set<nat>)

  ghost predicate ValidFlow(f: Flow) {
    && (forall e :: e in f.edges ==> e.0 < f.n && e.1 < f.n)
    && (forall r :: r in f.roots ==> r < f.n)
  }

  // ----- paths -----

  ghost predicate IsPath(f: Flow, p: seq<nat>) {
    && p != []
    && (forall i :: 0 <= i < |p| ==> p[i] < f.n)
    && (forall i :: 0 < i < |p| ==> (p[i - 1], p[i]) in f.edges)
  }

  function Last(p: seq<nat>): nat
    requires p != []
  {
    p[|p| - 1]
  }

  /** A path from a root to `a`. */
  ghost predicate Leads(f: Flow, p: seq<nat>, a: nat) {
    IsPath(f, p) && p[0] in f.roots && Last(p) == a
  }

  ghost predicate Distinct(p: seq<nat>) {
    forall i, j :: 0 <= i < j < |p| ==> p[i] != p[j]
  }

  ghost predicate Reachable(f: Flow, a: nat) {
    exists p :: Leads(f, p, a)
  }

  lemma Prefix(f: Flow, p: seq<nat>, k: nat)
    requires IsPath(f, p) && p[0] in f.roots && k < |p|
    ensures Leads(f, p[..k + 1], p[k])
  {
  }

  lemma Extended(f: Flow, p: seq<nat>, a: nat, b: nat)
    requires ValidFlow(f) && Leads(f, p, a) && (a, b) in f.edges
    ensures Leads(f, p + [b], b)
  {
  }

  /** Every path can do without its loops. */
  lemma {:induction false} Shorten(f: Flow, p: seq<nat>) returns (q: seq<nat>)
    requires IsPath(f, p)
    ensures IsPath(f, q) && Distinct(q) && q[0] == p[0] && Last(q) == Last(p)
    ensures forall i :: 0 <= i < |q| - 1 ==> exists j :: 0 <= j < |p| - 1 && p[j] == q[i]
    decreases |p|
  {
    if Distinct(p) {
      q := p;
    } else {
      var i, j :| 0 <= i < j < |p| && p[i] == p[j];
      var shorter := p[..i] + p[j..];
      assert Last(shorter) == Last(p);
      assert shorter[0] == p[0];
      q := Shorten(f, shorter);
      forall m | 0 <= m < |q| - 1 ensures exists k :: 0 <= k < |p| - 1 && p[k] == q[m] {
        var k :| 0 <= k < |shorter| - 1 && shorter[k] == q[m];
        assert p[if k < i then k else k - i + j] == q[m];
      }
    }
  }

  // ----- cycles and their entries -----

  ghost predicate IsCycle(f: Flow, c: seq<nat>) {
    IsPath(f, c) && Distinct(c) && (Last(c), c[0]) in f.edges
  }

  /** The path ends in the cycle and has no node of it before. */
  ghost predicate Enters(f: Flow, p: seq<nat>, c: seq<nat>) {
    && IsPath(f, p) && p[0] in f.roots && Last(p) in c
    && (forall i :: 0 <= i < |p| - 1 ==> p[i] !in c)
  }

  ghost predicate EnteredTwice(f: Flow, c: seq<nat>, p: seq<nat>, q: seq<nat>) {
    IsCycle(f, c) && Enters(f, p, c) && Enters(f, q, c) && Last(p) != Last(q)
  }

  ghost predicate HasTwoEntries(f: Flow) {
    exists c, p, q :: EnteredTwice(f, c, p, q)
  }

  /** A cycle may be read from any of its nodes on. */
  lemma Rotated(f: Flow, c: seq<nat>, i: nat)
    requires IsCycle(f, c) && i < |c|
    ensures IsCycle(f, c[i..] + c[..i]) && (forall a :: a in c[i..] + c[..i] <==> a in c)
    ensures |c[i..] + c[..i]| == |c| && (c[i..] + c[..i])[0] == c[i]
  {
    var d := c[i..] + c[..i];
    assert c == c[..i] + c[i..];
    forall j | 0 < j < |d| ensures (d[j - 1], d[j]) in f.edges {
      if j == |c| - i {
        assert (d[j - 1], d[j]) == (Last(c), c[0]);
      } else {
        var k := if j < |c| - i then i + j else j - (|c| - i);
        assert (d[j - 1], d[j]) == (c[k - 1], c[k]);
      }
    }
    if i > 0 {
      assert (Last(d), d[0]) == (c[i - 1], c[i]);
    }
    forall j, k | 0 <= j < k < |d| ensures d[j] != d[k] {
      assert d[j] == c[if j < |c| - i then i + j else j - (|c| - i)];
      assert d[k] == c[if k < |c| - i then i + k else k - (|c| - i)];
    }
  }

  lemma EntersRotated(f: Flow, p: seq<nat>, c: seq<nat>, d: seq<nat>)
    requires Enters(f, p, c) && forall a :: a in d <==> a in c
    ensures Enters(f, p, d)
  {
  }

  /** Following a path to a node of the cycle up to the first such node. */
  lemma {:induction false} FirstHit(f: Flow, p: seq<nat>, c: seq<nat>) returns (k: nat)
    requires IsPath(f, p) && p[0] in f.roots && Last(p) in c
    ensures k < |p| && Enters(f, p[..k + 1], c)
  {
    k := 0;
    while p[k] !in c
      invariant 0 <= k < |p| && forall i :: 0 <= i < k ==> p[i] !in c
      decreases |p| - k
    {
      k := k + 1;
    }
    Prefix(f, p, k);
  }

  /** A path that enters a cycle needs no loops to do so. */
  lemma EntersSimply(f: Flow, p: seq<nat>, c: seq<nat>) returns (q: seq<nat>)
    requires Enters(f, p, c)
    ensures Enters(f, q, c) && Distinct(q) && Last(q) == Last(p)
  {
    q := Shorten(f, p);
    forall i | 0 <= i < |q| - 1 ensures q[i] !in c {
      var j :| 0 <= j < |p| - 1 && p[j] == q[i];
    }
  }

  // ----- dominators -----

  /** Every way to `a` passes `h`. */
  ghost predicate Dominates(f: Flow, h: nat, a: nat) {
    forall p :: Leads(f, p, a) ==> h in p
  }

  /** The edge leads back to a node that dominates its source. */
  ghost predicate Back(f: Flow, a: nat, b: nat) {
    (a, b) in f.edges && Dominates(f, b, a)
  }

  ghost predicate Forward(f: Flow, a: nat, b: nat) {
    (a, b) in f.edges && Reachable(f, a) && !Back(f, a, b)
  }

  lemma DominatesTrans(f: Flow, k: nat, h: nat, a: nat)
    requires Dominates(f, k, h) && Dominates(f, h, a)
    ensures Dominates(f, k, a)
  {
    forall p | Leads(f, p, a) ensures k in p {
      var i :| 0 <= i < |p| && p[i] == h;
      Prefix(f, p, i);
      assert k in p[..i + 1];
    }
  }

  lemma DominatesNext(f: Flow, h: nat, a: nat, b: nat)
    requires ValidFlow(f) && (a, b) in f.edges && Dominates(f, h, b) && h != b
    ensures Dominates(f, h, a)
  {
    forall p | Leads(f, p, a) ensures h in p {
      Extended(f, p, a, b);
      assert h in p + [b];
    }
  }

  lemma ReachableNext(f: Flow, a: nat, b: nat)
    requires ValidFlow(f) && Reachable(f, a) && (a, b) in f.edges
    ensures Reachable(f, b)
  {
    var p :| Leads(f, p, a);
    Extended(f, p, a, b);
  }

  /** If all ways into a cycle enter it at the same node, that node dominates the others. */
  lemma EntryDominates(f: Flow, c: seq<nat>, h: nat, u: nat)
    requires IsCycle(f, c) && u in c && forall p :: Enters(f, p, c) ==> Last(p) == h
    ensures Dominates(f, h, u)
  {
    forall p | Leads(f, p, u) ensures h in p {
      var k := FirstHit(f, p, c);
      assert Last(p[..k + 1]) == h && p[k] == h;
    }
  }

  // ----- numbering -----

  /** A cycle of forward edges. */
  ghost predicate ForwardCycle(f: Flow, c: seq<nat>) {
    && c != [] && Distinct(c) && Forward(f, Last(c), c[0])
    && (forall i :: 0 < i < |c| ==> Forward(f, c[i - 1], c[i]))
  }

  lemma ForwardCycleIsCycle(f: Flow, c: seq<nat>)
    requires ValidFlow(f) && ForwardCycle(f, c)
    ensures IsCycle(f, c)
  {
    forall i | 0 <= i < |c| ensures c[i] < f.n {
      if i > 0 {
        assert Forward(f, c[i - 1], c[i]);
      }
    }
  }

  lemma EnterBy(f: Flow, p: seq<nat>, c: seq<nat>) returns (k: nat)
    requires c != [] && Leads(f, p, Last(c))
    ensures k < |p| && p[..k + 1] != [] && Enters(f, p[..k + 1], c)
  {
    k := FirstHit(f, p, c);
  }

  lemma EntryOnCycle(f: Flow, p: seq<nat>, c: seq<nat>)
    requires Enters(f, p, c)
    ensures p != [] && Last(p) in c
  {
  }

  /** If the forward edges form a cycle, some cycle has two entries: a single entry would dominate
      the cycle, and the edge into it would lead back. */
  lemma ForwardCycleHasTwo(f: Flow, c: seq<nat>)
    requires ValidFlow(f) && ForwardCycle(f, c)
    ensures HasTwoEntries(f)
  {
    hide IsPath, Distinct, Enters, IsCycle, Forward;
    ForwardCycleIsCycle(f, c);
    var p := PathTo(f, Last(c), c[0]);
    var k := EnterBy(f, p, c);
    var h := Last(p[..k + 1]);
    EntryOnCycle(f, p[..k + 1], c);
    if forall q :: Enters(f, q, c) ==> q != [] && Last(q) == h {
      var i :| 0 <= i < |c| && c[i] == h;
      var u := if i == 0 then Last(c) else c[i - 1];
      assert Forward(f, u, h);
      EntryDominates(f, c, h, u);
      ForwardIsNotBack(f, u, h);
    } else {
      var q :| Enters(f, q, c) && (q == [] || Last(q) != h);
      EntryOnCycle(f, q, c);
      assert EnteredTwice(f, c, q, p[..k + 1]);
    }
  }

  lemma PathTo(f: Flow, a: nat, b: nat) returns (p: seq<nat>)
    requires Forward(f, a, b)
    ensures Leads(f, p, a)
  {
    p :| Leads(f, p, a);
  }

  lemma ForwardIsNotBack(f: Flow, a: nat, b: nat)
    requires Forward(f, a, b)
    ensures !Dominates(f, b, a)
  {
  }

  ghost predicate Ranked(f: Flow, s: set<nat>, rank: map<nat, nat>) {
    && rank.Keys == s
    && (forall a, b :: a in s && b in s && Forward(f, a, b) ==> rank[b] < rank[a])
  }

  lemma {:induction false} DistinctFits(s: set<nat>, p: seq<nat>)
    requires Distinct(p) && forall i :: 0 <= i < |p| ==> p[i] in s
    ensures |p| <= |s|
  {
    if p != [] {
      var n := |p| - 1;
      assert forall i :: 0 <= i < n ==> p[..n][i] in s - {p[n]};
      DistinctFits(s - {p[n]}, p[..n]);
    }
  }

  /** Every node of the set has a forward edge inside it. */
  ghost predicate Alive(f: Flow, s: set<nat>) {
    forall a :: a in s ==> exists b :: b in s && Forward(f, a, b)
  }

  lemma NextAlive(f: Flow, s: set<nat>, a: nat) returns (b: nat)
    requires Alive(f, s) && a in s
    ensures b in s && Forward(f, a, b)
  {
    hide Forward;
    b :| b in s && Forward(f, a, b);
  }

  ghost predicate Walk(f: Flow, s: set<nat>, p: seq<nat>) {
    && p != [] && Distinct(p) && (forall i :: 0 <= i < |p| ==> p[i] in s)
    && (forall i :: 0 < i < |p| ==> Forward(f, p[i - 1], p[i]))
  }

  lemma WalkCloses(f: Flow, s: set<nat>, p: seq<nat>, b: nat) returns (c: seq<nat>)
    requires Walk(f, s, p) && Forward(f, Last(p), b) && b in p
    ensures ForwardCycle(f, c)
  {
    hide Forward;
    var i :| 0 <= i < |p| && p[i] == b;
    c := p[i..];
    forall j | 0 < j < |c| ensures Forward(f, c[j - 1], c[j]) {
      assert Forward(f, p[i + j - 1], p[i + j]);
    }
  }

  lemma WalkOn(f: Flow, s: set<nat>, p: seq<nat>, b: nat)
    requires Walk(f, s, p) && Forward(f, Last(p), b) && b !in p && b in s
    ensures Walk(f, s, p + [b]) && |p| < |s|
  {
    hide Forward;
    DistinctFits(s, p + [b]);
  }

  lemma WalkFacts(f: Flow, s: set<nat>, p: seq<nat>)
    requires Walk(f, s, p)
    ensures p != [] && Last(p) in s
  {
  }

  /** Walking forward inside such a set ends in a cycle. */
  lemma {:induction false} WalkIntoCycle(f: Flow, s: set<nat>, p: seq<nat>) returns (c: seq<nat>)
    requires Walk(f, s, p) && Alive(f, s)
    ensures ForwardCycle(f, c)
    decreases |s| - |p|
  {
    hide Walk, Alive, Forward, ForwardCycle;
    WalkFacts(f, s, p);
    var b := NextAlive(f, s, Last(p));
    if b in p {
      c := WalkCloses(f, s, p, b);
    } else {
      WalkOn(f, s, p, b);
      c := WalkIntoCycle(f, s, p + [b]);
    }
  }

  lemma FindSink(f: Flow, s: set<nat>) returns (sink: nat)
    requires s != {} && forall c :: !ForwardCycle(f, c)
    ensures sink in s && forall b :: b in s ==> !Forward(f, sink, b)
  {
    hide Forward, ForwardCycle;
    if Alive(f, s) {
      var a :| a in s;
      assert Walk(f, s, [a]);
      var c := WalkIntoCycle(f, s, [a]);
    }
    sink :| sink in s && forall b :: b in s ==> !Forward(f, sink, b);
  }

  /** Nodes without forward cycles can be numbered downward: those without a forward edge first. */
  lemma {:induction false} Rank(f: Flow, s: set<nat>) returns (rank: map<nat, nat>)
    requires forall c :: !ForwardCycle(f, c)
    ensures Ranked(f, s, rank)
  {
    hide ForwardCycle, Forward;
    if s == {} {
      rank := map[];
    } else {
      var sink := FindSink(f, s);
      var rest := Rank(f, s - {sink});
      rank := map x | x in s :: if x == sink then 0 else rest[x] + 1;
    }
  }

  /** Along a path without loops all edges are forward. */
  lemma SimpleIsForward(f: Flow, p: seq<nat>, i: nat)
    requires IsPath(f, p) && p[0] in f.roots && Distinct(p) && 0 < i < |p|
    ensures Forward(f, p[i - 1], p[i])
  {
    Prefix(f, p, i - 1);
    assert p[i] !in p[..i];
    assert p[..i - 1 + 1] == p[..i];
  }

  lemma {:induction false} RankDescends(f: Flow, s: set<nat>, rank: map<nat, nat>, p: seq<nat>, i: nat, j: nat)
    requires IsPath(f, p) && p[0] in f.roots && Distinct(p) && i <= j < |p| && Ranked(f, s, rank)
    requires forall k :: 0 <= k < |p| ==> p[k] in s
    ensures rank[p[j]] <= rank[p[i]]
    decreases j
  {
    if i < j {
      SimpleIsForward(f, p, j);
      RankDescends(f, s, rank, p, i, j - 1);
    }
  }

  /** A dominator has no smaller number. */
  lemma DominatorRank(f: Flow, s: set<nat>, rank: map<nat, nat>, h: nat, a: nat)
    requires Ranked(f, s, rank) && Reachable(f, a) && Dominates(f, h, a)
    requires forall x :: Reachable(f, x) ==> x in s
    ensures h in s && a in s && Reachable(f, h) && rank[h] >= rank[a]
  {
    var p :| Leads(f, p, a);
    var q := Shorten(f, p);
    assert Leads(f, q, a);
    forall k | 0 <= k < |q| ensures q[k] in s && Reachable(f, q[k]) {
      Prefix(f, q, k);
    }
    var i :| 0 <= i < |q| && q[i] == h;
    RankDescends(f, s, rank, q, i, |q| - 1);
  }
}
