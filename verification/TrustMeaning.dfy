/** What a compliance value says, without values, hash and table: at every level, which assertions
    are granted by the rules of RFC 2704. */
module TrustMeaning {
  import opened Options
  import opened Licensees
  import opened TrustGraph
  import opened TrustSearch
  import opened TrustExactness

  // ----- the rules -----

  /** The same numbers under the same algorithm; RSA keys and those of X509 certificates are of one
      kind, and three algorithms are unsupported. */
  ghost predicate SameKey(a: Key, b: Key) {
    a.material == b.material &&
    match a.alg
    case Plain => b.alg == Plain
    case Dsa => b.alg == Dsa
    case Binary => b.alg == Binary
    case Rsa => b.alg == Rsa || b.alg == X509
    case X509 => b.alg == X509 || b.alg == Rsa
    case Unspecified => false
    case ElGamal => false
    case Pgp => false
  }

  lemma MatchesMeans(a: Key, b: Key)
    ensures Matches(a, b) <==> SameKey(a, b)
  {
  }

  /** `key` is one of the action authorizers. */
  ghost predicate Requests(g: Graph, key: Key) {
    exists i :: 0 <= i < |g.authorizers| && SameKey(g.authorizers[i], key)
  }

  /** `key` signed an assertion of `granted`. */
  ghost predicate Vouches(g: Graph, granted: set<nat>, key: Key) {
    exists b :: b in granted && b < |g.nodes| &&
      g.nodes[b].authorizer.Some? && SameKey(g.nodes[b].authorizer.value, key)
  }

  /** The key recorded for a name: the first entry with that name. */
  ghost predicate RecordedAt(keylist: seq<KeyEntry>, name: string, i: nat) {
    i < |keylist| && keylist[i].name == name && forall j :: 0 <= j < i ==> keylist[j].name != name
  }

  ghost predicate Supports(g: Graph, granted: set<nat>, keylist: seq<KeyEntry>, name: string) {
    || (exists i: nat ::
         && RecordedAt(keylist, name, i)
         && (Requests(g, keylist[i].key) || Vouches(g, granted, keylist[i].key)))
    || ((forall i :: 0 <= i < |keylist| ==> keylist[i].name != name) && Vouches(g, granted, Key(Plain, name)))
  }

  /** The Licensees field read as a formula: all, one, or k of the places of a list. */
  ghost predicate Satisfied(e: Expr, supports: string -> bool) {
    match e
    case Principal(s) => supports(s)
    case And(l, r) => Satisfied(l, supports) && Satisfied(r, supports)
    case Or(l, r) => Satisfied(l, supports) || Satisfied(r, supports)
    case KOf(k, names) => |set i: nat | i < |names| && supports(names[i])| >= k
  }

  ghost predicate PartOf(part: Expr, e: Expr) {
    part == e || match e
      case Principal(_) => false
      case And(l, r) => PartOf(part, l) || PartOf(part, r)
      case Or(l, r) => PartOf(part, l) || PartOf(part, r)
      case KOf(_, _) => false
  }

  /** Assertion `a` is granted at level `x` once those of `granted` are. */
  ghost predicate Follows(g: Graph, x: nat, granted: set<nat>, a: nat) {
    a < |g.nodes| &&
    var n := g.nodes[a];
    && (n.local || n.verifies)
    && (match n.conditions case NoConditions => true case Outcome(c) => c >= x case BadConditions => false)
    && match n.licensees
       case Missing => true
       case Empty => false
       case Given(e) =>
         && (forall part :: PartOf(part, e) && part.KOf? ==> part.k <= |part.names|)
         && Satisfied(e, s => Supports(g, granted, n.keylist, s))
  }

  ghost predicate Closed(g: Graph, x: nat, granted: set<nat>) {
    forall a: nat :: Follows(g, x, granted, a) ==> a in granted
  }

  /** Assertion `a` is granted at level `x`: it is in every set that the rules do not leave. */
  ghost predicate Granted(g: Graph, x: nat, a: nat) {
    a < |g.nodes| && forall granted: set<nat> :: Closed(g, x, granted) ==> a in granted
  }

  /** Some assertion of the local POLICY is granted. */
  ghost predicate Complies(g: Graph, x: nat) {
    exists p: nat :: p < |g.nodes| &&
      g.nodes[p].authorizer == Some(Key(Plain, "POLICY")) && g.nodes[p].local && Granted(g, x, p)
  }

  // ----- the equations say the same -----

  /** The places whose value reaches `x`. */
  ghost function Reaching(vals: seq<int>, x: int): set<nat> {
    set a: nat | a < |vals| && vals[a] >= x
  }

  lemma {:induction false} CountSnoc(vals: seq<int>, x: int)
    requires vals != []
    ensures var n := |vals| - 1;
      CountAtLeast(vals, x) == CountAtLeast(vals[..n], x) + if vals[n] >= x then 1 else 0
  {
    var n := |vals| - 1;
    if n > 0 {
      CountSnoc(vals[1..], x);
      assert vals[1..][..n - 1] == vals[..n][1..];
    }
  }

  lemma {:induction false} CountPlaces(vals: seq<int>, x: int)
    ensures CountAtLeast(vals, x) == |Reaching(vals, x)|
  {
    if vals != [] {
      var n := |vals| - 1;
      CountSnoc(vals, x);
      CountPlaces(vals[..n], x);
      var before := Reaching(vals[..n], x);
      assert Reaching(vals, x) == if vals[n] >= x then before + {n} else before;
    } else {
      assert Reaching(vals, x) == {};
    }
  }

  lemma {:induction false} CountFalls(vals: seq<int>, x: nat, y: nat)
    requires x <= y
    ensures CountAtLeast(vals, y) <= CountAtLeast(vals, x)
    decreases y - x
  {
    if x < y {
      CountBounds(vals, x);
      CountFalls(vals, x + 1, y);
    }
  }

  lemma {:induction false} KthReaches(vals: seq<int>, k: int, top: nat, x: nat)
    requires 1 <= x <= top
    ensures KthUpTo(vals, k, top) >= x <==> CountAtLeast(vals, x) >= k
  {
    CountFalls(vals, x, top);
    if CountAtLeast(vals, top) < k && x < top {
      KthReaches(vals, k, top - 1, x);
    }
  }

  lemma {:induction false} ValueReaches(e: Expr, leaf: Leaves, supports: string -> bool, top: nat, x: nat)
    requires 1 <= x <= top && forall s :: supports(s) <==> leaf(s) >= x
    ensures Value(e, leaf, top) >= x <==> Satisfied(e, supports)
  {
    match e
    case Principal(_) =>
    case And(l, r) =>
      ValueReaches(l, leaf, supports, top, x);
      ValueReaches(r, leaf, supports, top, x);
    case Or(l, r) =>
      ValueReaches(l, leaf, supports, top, x);
      ValueReaches(r, leaf, supports, top, x);
    case KOf(k, names) =>
      var vals := LeafValues(names, leaf);
      KthReaches(vals, k, top, x);
      CountPlaces(vals, x);
      assert Reaching(vals, x) == (set i: nat | i < |names| && supports(names[i]));
  }

  lemma {:induction false} WellFormedMeans(e: Expr)
    ensures WellFormed(e) <==> forall part :: PartOf(part, e) && part.KOf? ==> part.k <= |part.names|
  {
    assert PartOf(e, e);
    match e
    case Principal(_) =>
    case And(l, r) =>
      WellFormedMeans(l);
      WellFormedMeans(r);
    case Or(l, r) =>
      WellFormedMeans(l);
      WellFormedMeans(r);
    case KOf(_, _) =>
  }

  /** The first entry with the name is the one that is found. */
  lemma {:induction false} LookupMeans(keylist: seq<KeyEntry>, name: string)
    ensures Lookup(keylist, name) == None <==> forall i :: 0 <= i < |keylist| ==> keylist[i].name != name
    ensures forall i: nat :: RecordedAt(keylist, name, i) ==> Lookup(keylist, name) == Some(keylist[i].key)
    ensures Lookup(keylist, name).Some? ==> exists i: nat :: RecordedAt(keylist, name, i)
  {
    if keylist != [] && keylist[0].name != name {
      LookupMeans(keylist[1..], name);
      forall i: nat | RecordedAt(keylist, name, i) ensures RecordedAt(keylist[1..], name, i - 1) {
      }
      if i: nat :| RecordedAt(keylist[1..], name, i) {
        assert RecordedAt(keylist, name, i + 1);
      }
      assert keylist == [keylist[0]] + keylist[1..];
    } else if keylist != [] {
      assert RecordedAt(keylist, name, 0);
    }
  }

  lemma SignedReaches(g: Graph, vals: seq<int>, key: Key, x: nat)
    requires |vals| == |g.nodes| && 1 <= x
    ensures PlainSigned(g, vals, key) >= x <==> Vouches(g, Reaching(vals, x), key)
  {
    hide MaxWhere, Matches, SameKey;
    forall a, b ensures Matches(a, b) == SameKey(a, b) { MatchesMeans(a, b); }
    MaxWhereBounds(vals, (a: nat) => a < |g.nodes| && SignedBy(g, a, key), |vals|);
  }

  lemma AuthorizedMeans(g: Graph, key: Key)
    ensures Authorized(g, key) <==> Requests(g, key)
  {
    hide Matches, SameKey;
    forall a, b ensures Matches(a, b) == SameKey(a, b) { MatchesMeans(a, b); }
  }

  lemma LeafReaches(g: Graph, vals: seq<int>, a: nat, s: string, x: nat)
    requires |vals| == |g.nodes| && a < |g.nodes| && 1 <= x <= g.top
    ensures PlainLeaf(g, vals, a, s) >= x <==> Supports(g, Reaching(vals, x), g.nodes[a].keylist, s)
  {
    hide PlainSigned, Vouches, Requests, Authorized, Lookup, Reaching;
    LookupMeans(g.nodes[a].keylist, s);
    match Lookup(g.nodes[a].keylist, s)
    case Some(key) =>
      SignedReaches(g, vals, key, x);
      AuthorizedMeans(g, key);
    case None =>
      SignedReaches(g, vals, Key(Plain, s), x);
  }

  /** The right-hand side of an equation reaches `x` exactly if the rule applies to the assertions
      that reach `x`. */
  lemma EquationReaches(g: Graph, vals: seq<int>, a: nat, x: nat)
    requires |vals| == |g.nodes| && a < |g.nodes| && 1 <= x <= g.top
    ensures PlainEquations(g, vals)[a] >= x <==> Follows(g, x, Reaching(vals, x), a)
  {
    hide PlainLeaf, Supports, Satisfied, Value, WellFormed, PartOf, Reaching;
    var n, granted := g.nodes[a], Reaching(vals, x);
    if n.licensees.Given? {
      var e := n.licensees.expr;
      forall s ensures Supports(g, granted, n.keylist, s) <==> PlainLeaf(g, vals, a, s) >= x {
        LeafReaches(g, vals, a, s, x);
      }
      WellFormedMeans(e);
      ValueReaches(e, (s: string) => PlainLeaf(g, vals, a, s), s => Supports(g, granted, n.keylist, s), g.top, x);
    }
  }

  // ----- the least solution -----

  /** What the rules grant at level `x` and nothing else reaches `x` in the least solution. */
  lemma SolutionMeans(g: Graph, vals: seq<int>, a: nat, x: nat)
    requires IsPlainSolution(g, vals) && a < |g.nodes| && 1 <= x <= g.top
    ensures vals[a] >= x <==> Granted(g, x, a)
  {
    hide PlainEquations, Follows;
    forall b: nat | Follows(g, x, Reaching(vals, x), b) ensures b in Reaching(vals, x) {
      FollowsInside(g, x, Reaching(vals, x), b);
      EquationReaches(g, vals, b, x);
    }
    assert Closed(g, x, Reaching(vals, x));
    if vals[a] >= x {
      forall granted: set<nat> | Closed(g, x, granted) ensures a in granted {
        ClosedAbove(g, vals, granted, x);
      }
    }
  }

  lemma FollowsInside(g: Graph, x: nat, granted: set<nat>, a: nat)
    requires Follows(g, x, granted, a)
    ensures a < |g.nodes|
  {
  }

  /** The values that a set allows: the largest inside, and less than `x` outside. */
  ghost function Allowed(g: Graph, granted: set<nat>, x: nat): (w: seq<int>)
    ensures |w| == |g.nodes| && forall a :: 0 <= a < |w| ==> w[a] == if a in granted then g.top else x - 1
  {
    seq(|g.nodes|, a => if a in granted then g.top else x - 1)
  }

  lemma EquationTop(g: Graph, vals: seq<int>, a: nat)
    requires InRange(g, vals) && a < |g.nodes|
    ensures PlainEquations(g, vals)[a] <= g.top
  {
    hide MaxWhere, Value, Authorized;
    forall key ensures 0 <= PlainSigned(g, vals, key) <= g.top {
      MaxWhereBounds(vals, (b: nat) => b < |g.nodes| && SignedBy(g, b, key), |vals|);
    }
    if g.nodes[a].licensees.Given? {
      ValueRange(g.nodes[a].licensees.expr, (s: string) => PlainLeaf(g, vals, a, s), g.top);
    }
  }

  lemma ClosedAbove(g: Graph, vals: seq<int>, granted: set<nat>, x: nat)
    requires IsPlainSolution(g, vals) && Closed(g, x, granted) && 1 <= x <= g.top
    ensures forall a: nat :: a < |vals| && vals[a] >= x ==> a in granted
  {
    hide PlainEquations, Follows;
    var w := Allowed(g, granted, x);
    forall a: nat | a < |w| ensures PlainEquations(g, w)[a] <= w[a] {
      EquationTop(g, w, a);
      EquationReaches(g, w, a, x);
      FollowsSame(g, x, Reaching(w, x), granted, a);
    }
    assert IsPlainPrefixpoint(g, w);
  }

  /** Only the assertions that there are matter. */
  lemma FollowsSame(g: Graph, x: nat, s: set<nat>, s': set<nat>, a: nat)
    requires forall b: nat :: b < |g.nodes| ==> (b in s <==> b in s')
    ensures Follows(g, x, s, a) <==> Follows(g, x, s', a)
  {
    if a < |g.nodes| && g.nodes[a].licensees.Given? {
      var keylist := g.nodes[a].keylist;
      forall name ensures Supports(g, s, keylist, name) <==> Supports(g, s', keylist, name) {
        SupportsSame(g, s, s', keylist, name);
      }
      SatisfiedSame(g.nodes[a].licensees.expr, t => Supports(g, s, keylist, t), t => Supports(g, s', keylist, t));
    }
  }

  lemma SupportsSame(g: Graph, s: set<nat>, s': set<nat>, keylist: seq<KeyEntry>, name: string)
    requires forall b: nat :: b < |g.nodes| ==> (b in s <==> b in s')
    ensures Supports(g, s, keylist, name) <==> Supports(g, s', keylist, name)
  {
    hide SameKey, Requests, RecordedAt;
    forall key ensures Vouches(g, s, key) <==> Vouches(g, s', key) {
    }
  }

  lemma {:induction false} SatisfiedSame(e: Expr, p: string -> bool, q: string -> bool)
    requires forall s :: p(s) <==> q(s)
    ensures Satisfied(e, p) <==> Satisfied(e, q)
  {
    match e
    case Principal(_) =>
    case And(l, r) =>
      SatisfiedSame(l, p, q);
      SatisfiedSame(r, p, q);
    case Or(l, r) =>
      SatisfiedSame(l, p, q);
      SatisfiedSame(r, p, q);
    case KOf(_, names) =>
      assert (set i: nat | i < |names| && p(names[i])) == (set i: nat | i < |names| && q(names[i]));
  }

  // ----- what the search visits -----

  /** The search goes on to exactly the assertions signed by a recorded key that is no action
      authorizer. */
  lemma {:induction false} VisitsMean(g: Graph, hash: Key -> nat, keylist: seq<KeyEntry>, b: nat)
    requires IndexComplete(g, hash)
    ensures ValidGraph(g)
    ensures b in SuccessorsOf(g, hash, keylist) <==>
      && b < |g.nodes| && g.nodes[b].authorizer.Some?
      && exists k ::
           && 0 <= k < |keylist| && !Requests(g, keylist[k].key)
           && SameKey(g.nodes[b].authorizer.value, keylist[k].key)
  {
    hide IndexComplete, FindAll, Authorized, Requests, SameKey;
    IndexValid(g, hash);
    if keylist != [] {
      VisitsMean(g, hash, keylist[1..], b);
      FoundMeans(g, hash, keylist[0].key, b);
      AuthorizedMeans(g, keylist[0].key);
      assert forall k :: 0 <= k < |keylist[1..]| ==> keylist[1..][k] == keylist[k + 1];
    }
  }

  lemma FoundMeans(g: Graph, hash: Key -> nat, key: Key, b: nat)
    requires IndexComplete(g, hash)
    ensures ValidGraph(g)
    ensures b in FindAll(g, hash, key) <==>
      b < |g.nodes| && g.nodes[b].authorizer.Some? && SameKey(g.nodes[b].authorizer.value, key)
  {
    IndexAgreesWithScan(g, hash, key, b);
    if b < |g.nodes| && g.nodes[b].authorizer.Some? {
      MatchesMeans(g.nodes[b].authorizer.value, key);
    }
  }

  /** An assertion whose Conditions field is in error or worth nothing is done at once, with value 0,
      and nothing else is visited; an error is noted. */
  lemma WorthlessStops(g: Graph, hash: Key -> nat, st: State, a: nat)
    requires ValidGraph(g) && ValidState(g, st) && a < |st|
    requires g.nodes[a].conditions == BadConditions || g.nodes[a].conditions == Outcome(0)
    ensures Evaluate(g, hash, st, a) ==
      st[a := Cell(Done, 0, st[a].signature, st[a].failed || g.nodes[a].conditions == BadConditions)]
  {
  }

  // ----- what a query answers -----

  lemma PolicyReaches(g: Graph, vals: seq<int>, x: nat)
    requires IsPlainSolution(g, vals) && 1 <= x <= g.top
    ensures PolicyValue(g, vals) >= x <==> Complies(g, x)
  {
    hide PlainEquations, Granted, MaxWhere;
    MaxWhereBounds(vals, (a: nat) => a < |g.nodes| && IsPolicy(g.nodes[a]), |vals|);
    forall a: nat | a < |g.nodes| ensures vals[a] >= x <==> Granted(g, x, a) {
      SolutionMeans(g, vals, a, x);
    }
  }

  /** Whatever the delegation check answers, an assertion evaluated in any state is worth what it
      would be worth if no other assertion counted. */
  lemma EvaluateAtLeast(g: Graph, hash: Key -> nat, st: State, a: nat)
    requires ValidGraph(g) && ValidState(g, st) && a < |st|
    ensures Evaluate(g, hash, st, a)[a].result >= Equation(g, hash, TrustGraph.Zeros(|g.nodes|), a)
  {
    hide Visit, LicenseesValue;
    var zeros := TrustGraph.Zeros(|g.nodes|);
    LicenseesRange(g, hash, zeros, a);
    if g.nodes[a].conditions != BadConditions && ConditionsValue(g, a) != 0 {
      var st2 := Prepared(g, st, a);
      assert Pending(st2) == Pending(Mark(st, a));
      var st3 := Visit(g, hash, st2, SuccessorsOf(g, hash, g.nodes[a].keylist));
      LicenseesMonotone(g, hash, zeros, Visible(st3), a);
    }
  }

  /** Without a veto the answer is at least what any policy is worth on its own. */
  lemma {:induction false} QueryAtLeast(g: Graph, hash: Key -> nat, st: State, ids: seq<nat>, prev: int,
      valid: nat -> bool, i: nat)
    requires ValidGraph(g) && ValidState(g, st) && forall j :: 0 <= j < |ids| ==> ids[j] < |st|
    requires 0 <= prev <= g.top && forall k: nat :: valid(k)
    ensures Query(g, hash, st, ids, prev, valid, i).1 >= prev
    ensures forall j :: 0 <= j < |ids| ==>
      Query(g, hash, st, ids, prev, valid, i).1 >= Equation(g, hash, TrustGraph.Zeros(|g.nodes|), ids[j])
    decreases |ids|
  {
    hide Evaluate, Equation;
    if ids != [] {
      var st' := Evaluate(g, hash, st, ids[0]);
      EvaluateAtLeast(g, hash, st, ids[0]);
      forall j | 0 <= j < |ids| ensures Equation(g, hash, TrustGraph.Zeros(|g.nodes|), ids[j]) <= g.top {
        EquationsRange(g, hash, TrustGraph.Zeros(|g.nodes|));
      }
      var best := Max(prev, st'[ids[0]].result);
      if best != g.top {
        QueryAtLeast(g, hash, st', ids[1..], best, valid, i + 1);
      }
    }
  }

  /** If the delegation check vetoes after every policy, the answer is 0. */
  lemma {:induction false} QueryVetoed(g: Graph, hash: Key -> nat, st: State, ids: seq<nat>, valid: nat -> bool, i: nat)
    requires ValidGraph(g) && ValidState(g, st) && forall j :: 0 <= j < |ids| ==> ids[j] < |st|
    requires forall k: nat :: !valid(k)
    ensures Query(g, hash, st, ids, 0, valid, i).1 == 0
    decreases |ids|
  {
    if ids != [] && g.top != 0 {
      QueryVetoed(g, hash, Evaluate(g, hash, st, ids[0]), ids[1..], valid, i + 1);
    }
  }

  /** A policy that the rules grant without help from any other assertion. */
  ghost predicate PolicyAlone(g: Graph, x: nat) {
    exists p: nat :: p < |g.nodes| &&
      g.nodes[p].authorizer == Some(Key(Plain, "POLICY")) && g.nodes[p].local && Follows(g, x, {}, p)
  }

  /** What the answer `r` of a query says: a level is reached only if the rules grant a policy at it;
      the answer is not less than any level that a policy reaches by itself, and it is exactly the
      highest level granted if every cycle is entered at one assertion only, as long as the
      delegation check never vetoes; if that always vetoes, the answer is 0. */
  ghost predicate AnswerMeans(g: Graph, valid: nat -> bool, r: int) {
    && 0 <= r <= g.top
    && (forall x: nat :: 1 <= x <= r ==> Complies(g, x))
    && ((forall j: nat :: valid(j)) ==>
         && (forall x: nat :: 1 <= x <= g.top && PolicyAlone(g, x) ==> x <= r)
         && (Recorded(g) && CyclesEnteredOnce(g) ==> forall x: nat :: 1 <= x <= g.top && Complies(g, x) ==> x <= r))
    && ((forall j: nat :: !valid(j)) ==> r == 0)
  }

  lemma AloneReaches(g: Graph, hash: Key -> nat, p: nat, x: nat)
    requires IndexComplete(g, hash) && p < |g.nodes| && 1 <= x <= g.top && Follows(g, x, {}, p)
    ensures ValidGraph(g) && Equation(g, hash, TrustGraph.Zeros(|g.nodes|), p) >= x
  {
    hide IndexComplete, Equation, Follows;
    IndexValid(g, hash);
    var zeros := TrustGraph.Zeros(|g.nodes|);
    EquationsAreEqual(g, hash, zeros);
    assert Reaching(zeros, x) == {};
    EquationReaches(g, zeros, p, x);
    assert Equations(g, hash, zeros)[p] == Equation(g, hash, zeros, p);
  }

  lemma QueryMeans(g: Graph, hash: Key -> nat, st: State, valid: nat -> bool)
    requires IndexComplete(g, hash) && ValidState(g, st) && Started(st)
    ensures ValidGraph(g) && AnswerMeans(g, valid, WholeQuery(g, hash, st, valid).1)
  {
    hide IndexComplete, Query, PoliciesFrom, PolicyValue, Recorded, CyclesEnteredOnce, IsPlainSolution, Complies,
      Follows, Equation;
    IndexValid(g, hash);
    var v := PlainSolutionExists(g, hash);
    var ids, r := PoliciesFrom(g, 0), WholeQuery(g, hash, st, valid).1;
    QueryComputesComplianceValue(g, hash, st, valid, v);
    QueryRange(g, hash, st, ids, 0, valid, 0);
    SolutionSize(g, v);
    forall x: nat | 1 <= x <= g.top ensures PolicyValue(g, v) >= x <==> Complies(g, x) {
      PolicyReaches(g, v, x);
    }
    if forall j: nat :: valid(j) {
      QueryAtLeast(g, hash, st, ids, 0, valid, 0);
      forall x: nat | 1 <= x <= g.top && PolicyAlone(g, x) ensures x <= r {
        var p: nat :| p < |g.nodes| && IsPolicy(g.nodes[p]) && Follows(g, x, {}, p);
        AllPolicies(g, hash, p);
        AloneReaches(g, hash, p, x);
      }
    }
    if forall j: nat :: !valid(j) {
      QueryVetoed(g, hash, st, ids, valid, 0);
    }
  }

  lemma SolutionSize(g: Graph, v: seq<int>)
    requires IsPlainSolution(g, v)
    ensures |v| == |g.nodes|
  {
  }

  /** A policy without Conditions that licenses one name, recorded with a key that is any of the
      action authorizers: without a veto the answer is the best value. */
  lemma LicensedRequester(g: Graph, valid: nat -> bool, r: int, p: nat, name: string, i: nat, k: nat)
    requires AnswerMeans(g, valid, r) && (forall j: nat :: valid(j)) && p < |g.nodes| && k < |g.authorizers|
    requires g.nodes[p].authorizer == Some(Key(Plain, "POLICY")) && g.nodes[p].local
    requires g.nodes[p].conditions == NoConditions && g.nodes[p].licensees == Given(Principal(name))
    requires RecordedAt(g.nodes[p].keylist, name, i) && SameKey(g.authorizers[k], g.nodes[p].keylist[i].key)
    ensures r == g.top
  {
    assert Requests(g, g.nodes[p].keylist[i].key);
    assert Supports(g, {}, g.nodes[p].keylist, name);
    if g.top > 0 {
      assert Follows(g, g.top, {}, p) by { WellFormedMeans(g.nodes[p].licensees.expr); }
      assert PolicyAlone(g, g.top);
    }
  }
}
