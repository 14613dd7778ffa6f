/** The delegation graph of a KeyNote query as a value, the equations that RFC 2704 (section
    5.3) sets up over it, and their least solution. */
module TrustGraph {
  import opened Options
  import opened Licensees

  // ----- keys -----

  datatype Algorithm = Unspecified | Plain | Dsa | ElGamal | Pgp | Binary | X509 | Rsa

  /** A decoded key: its algorithm and its numbers (for `Plain`, the name itself). */
  datatype Key = Key(alg: Algorithm, material: string)

  predicate SameFamily(a: Algorithm, b: Algorithm) {
    a == b || (a == Rsa && b == X509) || (a == X509 && b == Rsa)
  }

  /** `kn_keycompare` under the algorithm of the searched key; two algorithms are unsupported. */
  predicate KeyCompare(a: Key, b: Key, alg: Algorithm) {
    alg != Unspecified && alg != ElGamal && alg != Pgp && a.material == b.material
  }

  /** The test that `keynote_find_assertion` and `keynote_in_action_authorizers` make. */
  predicate Matches(candidate: Key, searched: Key) {
    SameFamily(candidate.alg, searched.alg) && KeyCompare(candidate, searched, searched.alg)
  }

  /** A hash that serves as an index for `Matches`. */
  ghost predicate HashRespectsMatches(hash: Key -> nat, size: nat) {
    && (forall k :: hash(k) < size)
    && (forall a, b :: Matches(a, b) ==> hash(a) == hash(b))
  }

  // ----- the graph -----

  /** A Conditions field: absent, evaluated to a return value, or in error. */
  datatype Conditions = NoConditions | Outcome(value: nat) | BadConditions

  datatype KeyEntry = KeyEntry(name: string, key: Key)

  datatype Node = Node(
    authorizer: Option<Key>,
    conditions: Conditions,
    licensees: Field,
    keylist: seq<KeyEntry>,   // the keys of the Licensees field, in list order
    local: bool,              // ASSERT_FLAG_LOCAL: trusted without a signature
    verifies: bool)           // what verifying the signature answers

  /** `nodes` holds every assertion by its id, `table` the ids in their hash buckets, and `top`
      is the largest return value. */
  datatype Graph = Graph(
    nodes: seq<Node>,
    table: seq<seq<nat>>,
    authorizers: seq<Key>,
    top: nat)

  ghost predicate ValidGraph(g: Graph) {
    && (forall h, i :: 0 <= h < |g.table| && 0 <= i < |g.table[h]| ==> g.table[h][i] < |g.nodes|)
    && (forall a :: 0 <= a < |g.nodes| ==>
         g.nodes[a].conditions.Outcome? ==> g.nodes[a].conditions.value <= g.top)
  }

  /** `keynote_in_action_authorizers`. */
  predicate Authorized(g: Graph, key: Key) {
    exists i :: 0 <= i < |g.authorizers| && Matches(g.authorizers[i], key)
  }

  predicate SignedBy(g: Graph, a: nat, key: Key)
    requires a < |g.nodes|
  {
    g.nodes[a].authorizer.Some? && Matches(g.nodes[a].authorizer.value, key)
  }

  function Select(g: Graph, bucket: seq<nat>, key: Key): (r: seq<nat>)
    requires forall i :: 0 <= i < |bucket| ==> bucket[i] < |g.nodes|
    ensures forall i :: 0 <= i < |r| ==> r[i] < |g.nodes|
  {
    if bucket == [] then []
    else (if SignedBy(g, bucket[0], key) then [bucket[0]] else []) + Select(g, bucket[1..], key)
  }

  /** All assertions with the given authorizer, in the order `keynote_find_assertion(key, 0..)`
      returns them: one bucket, scanned. */
  function FindAll(g: Graph, hash: Key -> nat, key: Key): (r: seq<nat>)
    requires ValidGraph(g)
    ensures forall i :: 0 <= i < |r| ==> r[i] < |g.nodes|
  {
    if hash(key) < |g.table| then Select(g, g.table[hash(key)], key) else []
  }

  /** `keynote_keylist_find`. */
  function Lookup(keylist: seq<KeyEntry>, name: string): Option<Key> {
    if keylist == [] then None
    else if keylist[0].name == name then Some(keylist[0].key)
    else Lookup(keylist[1..], name)
  }

  // ----- the equations -----

  function MaxOf(vals: seq<int>, ids: seq<nat>): int
    requires forall i :: 0 <= i < |ids| ==> ids[i] < |vals|
  {
    if ids == [] then 0 else Max(vals[ids[0]], MaxOf(vals, ids[1..]))
  }

  /** The value of one principal in the Licensees field of assertion `a`. A name that is not in
      the key list is taken as an opaque principal. */
  function LeafValue(g: Graph, hash: Key -> nat, vals: seq<int>, a: nat, name: string): int
    requires ValidGraph(g) && |vals| == |g.nodes| && a < |g.nodes|
  {
    match Lookup(g.nodes[a].keylist, name)
    case Some(key) => if Authorized(g, key) then g.top else MaxOf(vals, FindAll(g, hash, key))
    case None => MaxOf(vals, FindAll(g, hash, Key(Plain, name)))
  }

  function LeavesOf(g: Graph, hash: Key -> nat, vals: seq<int>, a: nat): Leaves
    requires ValidGraph(g) && |vals| == |g.nodes| && a < |g.nodes|
  {
    s => LeafValue(g, hash, vals, a, s)
  }

  /** The Licensees field once every principal has a value; an ill-formed field counts 0. */
  function FieldUnder(g: Graph, a: nat, leaf: Leaves): int
    requires a < |g.nodes|
  {
    match g.nodes[a].licensees
    case Missing => g.top
    case Empty => 0
    case Given(e) => if WellFormed(e) then Value(e, leaf, g.top) else 0
  }

  function LicenseesValue(g: Graph, hash: Key -> nat, vals: seq<int>, a: nat): int
    requires ValidGraph(g) && |vals| == |g.nodes| && a < |g.nodes|
  {
    FieldUnder(g, a, LeavesOf(g, hash, vals, a))
  }

  function ConditionsValue(g: Graph, a: nat): int
    requires a < |g.nodes|
  {
    match g.nodes[a].conditions
    case NoConditions => g.top
    case Outcome(v) => v
    case BadConditions => 0
  }

  predicate Trusted(n: Node) {
    n.local || n.verifies
  }

  /** The right-hand side of the equation of assertion `a`, its Licensees field being worth `s`. */
  function Combined(g: Graph, a: nat, s: int): int
    requires a < |g.nodes|
  {
    if ConditionsValue(g, a) != 0 && Trusted(g.nodes[a]) then Min(ConditionsValue(g, a), s) else 0
  }

  function Equation(g: Graph, hash: Key -> nat, vals: seq<int>, a: nat): int
    requires ValidGraph(g) && |vals| == |g.nodes| && a < |g.nodes|
  {
    Combined(g, a, LicenseesValue(g, hash, vals, a))
  }

  function Equations(g: Graph, hash: Key -> nat, vals: seq<int>): (r: seq<int>)
    requires ValidGraph(g) && |vals| == |g.nodes|
    ensures |r| == |vals| && forall a :: 0 <= a < |r| ==> r[a] == Equation(g, hash, vals, a)
  {
    seq(|vals|, a requires 0 <= a < |vals| => Equation(g, hash, vals, a))
  }

  ghost predicate InRange(g: Graph, vals: seq<int>) {
    |vals| == |g.nodes| && forall a :: 0 <= a < |vals| ==> 0 <= vals[a] <= g.top
  }

  ghost predicate Below(u: seq<int>, v: seq<int>) {
    |u| == |v| && forall a :: 0 <= a < |u| ==> u[a] <= v[a]
  }

  // ----- monotonicity -----

  lemma {:induction false} MaxOfRange(g: Graph, vals: seq<int>, ids: seq<nat>)
    requires InRange(g, vals) && forall i :: 0 <= i < |ids| ==> ids[i] < |vals|
    ensures 0 <= MaxOf(vals, ids) <= g.top
  {
    if ids != [] {
      MaxOfRange(g, vals, ids[1..]);
    }
  }

  lemma {:induction false} MaxOfMonotone(u: seq<int>, v: seq<int>, ids: seq<nat>)
    requires Below(u, v) && forall i :: 0 <= i < |ids| ==> ids[i] < |u|
    ensures MaxOf(u, ids) <= MaxOf(v, ids)
  {
    if ids != [] {
      MaxOfMonotone(u, v, ids[1..]);
    }
  }

  lemma LeavesRanged(g: Graph, hash: Key -> nat, vals: seq<int>, a: nat)
    requires ValidGraph(g) && InRange(g, vals) && a < |g.nodes|
    ensures Ranged(LeavesOf(g, hash, vals, a), g.top)
  {
    forall s ensures 0 <= LeafValue(g, hash, vals, a, s) <= g.top {
      match Lookup(g.nodes[a].keylist, s)
      case Some(key) => MaxOfRange(g, vals, FindAll(g, hash, key));
      case None => MaxOfRange(g, vals, FindAll(g, hash, Key(Plain, s)));
    }
  }

  lemma LeafMonotone(g: Graph, hash: Key -> nat, u: seq<int>, v: seq<int>, a: nat, s: string)
    requires ValidGraph(g) && |u| == |g.nodes| && Below(u, v) && a < |g.nodes|
    ensures LeafValue(g, hash, u, a, s) <= LeafValue(g, hash, v, a, s)
  {
    match Lookup(g.nodes[a].keylist, s)
    case Some(key) => MaxOfMonotone(u, v, FindAll(g, hash, key));
    case None => MaxOfMonotone(u, v, FindAll(g, hash, Key(Plain, s)));
  }

  lemma LicenseesMonotone(g: Graph, hash: Key -> nat, u: seq<int>, v: seq<int>, a: nat)
    requires ValidGraph(g) && |u| == |g.nodes| && Below(u, v) && a < |g.nodes|
    ensures LicenseesValue(g, hash, u, a) <= LicenseesValue(g, hash, v, a)
  {
    if g.nodes[a].licensees.Given? {
      forall s ensures LeavesOf(g, hash, u, a)(s) <= LeavesOf(g, hash, v, a)(s) {
        LeafMonotone(g, hash, u, v, a, s);
      }
      ValueMonotone(g.nodes[a].licensees.expr, LeavesOf(g, hash, u, a), LeavesOf(g, hash, v, a), g.top);
    }
  }

  lemma LicenseesRange(g: Graph, hash: Key -> nat, vals: seq<int>, a: nat)
    requires ValidGraph(g) && InRange(g, vals) && a < |g.nodes|
    ensures 0 <= LicenseesValue(g, hash, vals, a) <= g.top
  {
    if g.nodes[a].licensees.Given? {
      LeavesRanged(g, hash, vals, a);
      ValueRange(g.nodes[a].licensees.expr, LeavesOf(g, hash, vals, a), g.top);
    }
  }

  lemma EquationsMonotone(g: Graph, hash: Key -> nat, u: seq<int>, v: seq<int>)
    requires ValidGraph(g) && |u| == |g.nodes| && Below(u, v)
    ensures Below(Equations(g, hash, u), Equations(g, hash, v))
  {
    forall a | 0 <= a < |u| ensures Equation(g, hash, u, a) <= Equation(g, hash, v, a) {
      LicenseesMonotone(g, hash, u, v, a);
    }
  }

  lemma EquationsRange(g: Graph, hash: Key -> nat, vals: seq<int>)
    requires ValidGraph(g) && InRange(g, vals)
    ensures InRange(g, Equations(g, hash, vals))
  {
    forall a | 0 <= a < |vals| ensures 0 <= Equation(g, hash, vals, a) <= g.top {
      LicenseesRange(g, hash, vals, a);
    }
  }

  // ----- the least solution -----

  ghost predicate IsFixpoint(g: Graph, hash: Key -> nat, vals: seq<int>) {
    ValidGraph(g) && InRange(g, vals) && Equations(g, hash, vals) == vals
  }

  /** Values that no equation exceeds. */
  ghost predicate IsPrefixpoint(g: Graph, hash: Key -> nat, vals: seq<int>) {
    ValidGraph(g) && InRange(g, vals) && Below(Equations(g, hash, vals), vals)
  }

  ghost predicate IsLeastFixpoint(g: Graph, hash: Key -> nat, vals: seq<int>) {
    && IsFixpoint(g, hash, vals)
    && (forall w: seq<int> :: IsPrefixpoint(g, hash, w) ==> Below(vals, w))
  }

  function Zeros(n: nat): (r: seq<int>)
    ensures |r| == n && forall i :: 0 <= i < n ==> r[i] == 0
  {
    seq(n, _ => 0)
  }

  function Sum(vals: seq<int>): int {
    if vals == [] then 0 else vals[0] + Sum(vals[1..])
  }

  lemma {:induction false} SumGrows(u: seq<int>, v: seq<int>)
    requires Below(u, v)
    ensures Sum(u) <= Sum(v) && (u != v ==> Sum(u) < Sum(v))
  {
    if u != [] {
      SumGrows(u[1..], v[1..]);
      assert u == [u[0]] + u[1..] && v == [v[0]] + v[1..];
    }
  }

  lemma {:induction false} SumBound(vals: seq<int>, top: nat)
    requires forall i :: 0 <= i < |vals| ==> vals[i] <= top
    ensures Sum(vals) <= |vals| * top
  {
    if vals != [] {
      SumBound(vals[1..], top);
    }
  }

  /** Climbing from 0 reaches the least fixpoint: the sum of the values grows at every step and
      cannot exceed the number of assertions times the largest value. */
  lemma LeastFixpointExists(g: Graph, hash: Key -> nat) returns (vals: seq<int>)
    requires ValidGraph(g)
    ensures IsLeastFixpoint(g, hash, vals)
  {
    vals := Zeros(|g.nodes|);
    EquationsRange(g, hash, vals);
    while Equations(g, hash, vals) != vals
      invariant InRange(g, vals) && Below(vals, Equations(g, hash, vals))
      invariant forall w: seq<int> :: IsPrefixpoint(g, hash, w) ==> Below(vals, w)
      decreases |vals| * g.top - Sum(vals)
    {
      var next := Equations(g, hash, vals);
      EquationsRange(g, hash, vals);
      EquationsMonotone(g, hash, vals, next);
      forall w: seq<int> | IsPrefixpoint(g, hash, w) ensures Below(next, w) {
        EquationsMonotone(g, hash, vals, w);
        BelowTrans(next, Equations(g, hash, w), w);
      }
      SumGrows(vals, next);
      SumBound(next, g.top);
      vals := next;
    }
  }

  lemma BelowTrans(u: seq<int>, v: seq<int>, w: seq<int>)
    requires Below(u, v) && Below(v, w)
    ensures Below(u, w)
  {
    forall a | 0 <= a < |u| ensures u[a] <= w[a] {
      assert u[a] <= v[a] <= w[a];
    }
  }

  // ----- the index agrees with a plain scan -----

  /** Every table entry stands in the bucket of its authorizer's hash. */
  ghost predicate PlacedByHash(g: Graph, hash: Key -> nat) {
    forall h, i :: 0 <= h < |g.table| && 0 <= i < |g.table[h]| && g.table[h][i] < |g.nodes| ==>
      var a := g.nodes[g.table[h][i]].authorizer; a.Some? && hash(a.value) == h
  }

  /** No assertion is listed twice. */
  ghost predicate ListedOnce(g: Graph) {
    forall h, i, h', i' ::
      (0 <= h < |g.table| && 0 <= i < |g.table[h]| && 0 <= h' < |g.table| && 0 <= i' < |g.table[h']|
        && g.table[h][i] == g.table[h'][i']) ==> h == h' && i == i'
  }

  ghost predicate Listed(g: Graph, a: nat) {
    exists h, i :: 0 <= h < |g.table| && 0 <= i < |g.table[h]| && g.table[h][i] == a
  }

  lemma {:induction false} SelectMembers(g: Graph, bucket: seq<nat>, key: Key, a: nat)
    requires forall i :: 0 <= i < |bucket| ==> bucket[i] < |g.nodes|
    requires forall i, j :: 0 <= i < j < |bucket| ==> bucket[i] != bucket[j]
    ensures a in Select(g, bucket, key) <==> a in bucket && SignedBy(g, a, key)
    ensures multiset(Select(g, bucket, key))[a] <= 1
  {
    if bucket != [] {
      SelectMembers(g, bucket[1..], key, a);
      var first := if SignedBy(g, bucket[0], key) then [bucket[0]] else [];
      assert bucket == [bucket[0]] + bucket[1..];
      assert multiset(Select(g, bucket, key)) == multiset(first) + multiset(Select(g, bucket[1..], key));
    }
  }

  /** With every assertion in the bucket of its authorizer's hash, the single-bucket look-up
      enumerates exactly the assertions of the whole table that match the key, each once. */
  lemma IndexAgreesWithScan(g: Graph, hash: Key -> nat, key: Key, a: nat)
    requires ValidGraph(g) && HashRespectsMatches(hash, |g.table|) && PlacedByHash(g, hash) && ListedOnce(g)
    ensures a in FindAll(g, hash, key) <==> a < |g.nodes| && Listed(g, a) && SignedBy(g, a, key)
    ensures multiset(FindAll(g, hash, key))[a] <= 1
  {
    var bucket := g.table[hash(key)];
    forall i, j | 0 <= i < j < |bucket| ensures bucket[i] != bucket[j] {
      assert g.table[hash(key)][i] == bucket[i] && g.table[hash(key)][j] == bucket[j];
    }
    SelectMembers(g, bucket, key, a);
    if a < |g.nodes| && Listed(g, a) && SignedBy(g, a, key) {
      var h, i :| 0 <= h < |g.table| && 0 <= i < |g.table[h]| && g.table[h][i] == a;
      assert hash(g.nodes[g.table[h][i]].authorizer.value) == h;
      assert bucket[i] == a;
    }
    if a in bucket {
      var i :| 0 <= i < |bucket| && bucket[i] == a;
      assert g.table[hash(key)][i] == a;
    }
  }

  // ----- the equations without hash and table -----

  /** The largest of the values that satisfy `p`, among the first `n`. */
  function MaxWhere(vals: seq<int>, p: nat -> bool, n: nat): int
    requires n <= |vals|
  {
    if n == 0 then 0 else Max(if p(n - 1) then vals[n - 1] else 0, MaxWhere(vals, p, n - 1))
  }

  /** What RFC 2704 says of a principal: the best value of all assertions that it signed. */
  function PlainSigned(g: Graph, vals: seq<int>, key: Key): int
    requires |vals| == |g.nodes|
  {
    MaxWhere(vals, (a: nat) => a < |g.nodes| && SignedBy(g, a, key), |vals|)
  }

  function PlainLeaf(g: Graph, vals: seq<int>, a: nat, name: string): int
    requires |vals| == |g.nodes| && a < |g.nodes|
  {
    match Lookup(g.nodes[a].keylist, name)
    case Some(key) => if Authorized(g, key) then g.top else PlainSigned(g, vals, key)
    case None => PlainSigned(g, vals, Key(Plain, name))
  }

  function PlainEquations(g: Graph, vals: seq<int>): (r: seq<int>)
    requires |vals| == |g.nodes|
    ensures |r| == |vals|
    ensures forall a :: 0 <= a < |r| ==>
      r[a] == Combined(g, a, FieldUnder(g, a, (s: string) => PlainLeaf(g, vals, a, s)))
  {
    seq(|vals|, a requires 0 <= a < |vals| => Combined(g, a, FieldUnder(g, a, (s: string) => PlainLeaf(g, vals, a, s))))
  }

  ghost predicate IsPlainPrefixpoint(g: Graph, vals: seq<int>) {
    InRange(g, vals) && Below(PlainEquations(g, vals), vals)
  }

  ghost predicate IsPlainSolution(g: Graph, vals: seq<int>) {
    && InRange(g, vals) && PlainEquations(g, vals) == vals
    && (forall w: seq<int> :: IsPlainPrefixpoint(g, w) ==> Below(vals, w))
  }

  /** The table is a complete index: every assertion once, in the bucket of its authorizer, and
      keys that match hash alike. */
  ghost predicate IndexComplete(g: Graph, hash: Key -> nat) {
    && ValidGraph(g) && HashRespectsMatches(hash, |g.table|) && PlacedByHash(g, hash) && ListedOnce(g)
    && (forall a :: 0 <= a < |g.nodes| ==> Listed(g, a))
  }

  lemma {:induction false} MaxOfBounds(vals: seq<int>, ids: seq<nat>)
    requires forall i :: 0 <= i < |ids| ==> ids[i] < |vals|
    ensures MaxOf(vals, ids) >= 0 && forall i :: 0 <= i < |ids| ==> vals[ids[i]] <= MaxOf(vals, ids)
    ensures MaxOf(vals, ids) == 0 || exists a: nat :: a in ids && vals[a] == MaxOf(vals, ids)
  {
    if ids != [] {
      MaxOfBounds(vals, ids[1..]);
      assert ids == [ids[0]] + ids[1..];
      if MaxOf(vals, ids) == vals[ids[0]] {
        assert ids[0] in ids;
      } else if MaxOf(vals, ids[1..]) != 0 {
        var a: nat :| a in ids[1..] && vals[a] == MaxOf(vals, ids[1..]);
        assert a in ids;
      }
    }
  }

  lemma {:induction false} MaxWhereBounds(vals: seq<int>, p: nat -> bool, n: nat)
    requires n <= |vals|
    ensures MaxWhere(vals, p, n) >= 0 && forall a: nat :: a < n && p(a) ==> vals[a] <= MaxWhere(vals, p, n)
    ensures MaxWhere(vals, p, n) == 0 || exists a: nat :: a < n && p(a) && vals[a] == MaxWhere(vals, p, n)
  {
    if n > 0 {
      MaxWhereBounds(vals, p, n - 1);
    }
  }

  /** A list of exactly the indices that satisfy `p` has the same maximum. */
  lemma MaxOfIsMaxWhere(vals: seq<int>, ids: seq<nat>, p: nat -> bool)
    requires forall i :: 0 <= i < |ids| ==> ids[i] < |vals|
    requires forall a: nat :: a in ids <==> a < |vals| && p(a)
    ensures MaxOf(vals, ids) == MaxWhere(vals, p, |vals|)
  {
    hide MaxOf, MaxWhere;
    MaxOfBounds(vals, ids);
    MaxWhereBounds(vals, p, |vals|);
    var m, w := MaxOf(vals, ids), MaxWhere(vals, p, |vals|);
    if m != 0 {
      var a: nat :| a in ids && vals[a] == m;
      assert vals[a] <= w;
    }
    if w != 0 {
      var a: nat :| a < |vals| && p(a) && vals[a] == w;
      assert a in ids;
    }
  }

  lemma SignedIsFound(g: Graph, hash: Key -> nat, vals: seq<int>, key: Key)
    requires IndexComplete(g, hash) && |vals| == |g.nodes|
    ensures MaxOf(vals, FindAll(g, hash, key)) == PlainSigned(g, vals, key)
  {
    hide FindAll, SignedBy;
    var ids := FindAll(g, hash, key);
    forall a: nat ensures a in ids <==> a < |vals| && SignedBy(g, a, key) {
      IndexAgreesWithScan(g, hash, key, a);
    }
    MaxOfIsMaxWhere(vals, ids, (a: nat) => a < |g.nodes| && SignedBy(g, a, key));
  }

  lemma LeavesAreEqual(g: Graph, hash: Key -> nat, vals: seq<int>, a: nat, s: string)
    requires IndexComplete(g, hash) && |vals| == |g.nodes| && a < |g.nodes|
    ensures LeafValue(g, hash, vals, a, s) == PlainLeaf(g, vals, a, s)
  {
    hide FindAll, PlainSigned, IndexComplete, MaxOf;
    IndexValid(g, hash);
    match Lookup(g.nodes[a].keylist, s)
    case Some(key) => SignedIsFound(g, hash, vals, key);
    case None => SignedIsFound(g, hash, vals, Key(Plain, s));
  }

  lemma IndexValid(g: Graph, hash: Key -> nat)
    requires IndexComplete(g, hash)
    ensures ValidGraph(g)
  {
  }

  /** With a complete index, the equations of the code are the plain ones. */
  lemma EquationsAreEqual(g: Graph, hash: Key -> nat, vals: seq<int>)
    requires IndexComplete(g, hash) && |vals| == |g.nodes|
    ensures ValidGraph(g) && Equations(g, hash, vals) == PlainEquations(g, vals)
  {
    hide IndexComplete, LeafValue, PlainLeaf;
    IndexValid(g, hash);
    forall a | 0 <= a < |vals| ensures Equations(g, hash, vals)[a] == PlainEquations(g, vals)[a] {
      forall s ensures LeavesOf(g, hash, vals, a)(s) == PlainLeaf(g, vals, a, s) {
        LeavesAreEqual(g, hash, vals, a, s);
      }
      FieldsAreEqual(g, a, LeavesOf(g, hash, vals, a), (s: string) => PlainLeaf(g, vals, a, s));
    }
  }

  lemma FieldsAreEqual(g: Graph, a: nat, leaf: Leaves, leaf': Leaves)
    requires a < |g.nodes| && forall s :: leaf(s) == leaf'(s)
    ensures FieldUnder(g, a, leaf) == FieldUnder(g, a, leaf')
  {
    if g.nodes[a].licensees.Given? {
      ValueLocal(g.nodes[a].licensees.expr, leaf, leaf', g.top);
    }
  }

  /** So both have the same least solution. */
  lemma SolutionsAreEqual(g: Graph, hash: Key -> nat, vals: seq<int>)
    requires IndexComplete(g, hash)
    ensures IsPlainSolution(g, vals) <==> IsLeastFixpoint(g, hash, vals)
  {
    hide IndexComplete, Equations, PlainEquations;
    IndexValid(g, hash);
    forall w: seq<int> | |w| == |g.nodes|
      ensures Equations(g, hash, w) == PlainEquations(g, w)
    {
      EquationsAreEqual(g, hash, w);
    }
    forall w: seq<int> ensures IsPlainPrefixpoint(g, w) <==> IsPrefixpoint(g, hash, w) {
    }
  }

  /** The plain equations have a least solution on every graph with a complete index. */
  lemma PlainSolutionExists(g: Graph, hash: Key -> nat) returns (vals: seq<int>)
    requires IndexComplete(g, hash)
    ensures IsPlainSolution(g, vals)
  {
    IndexValid(g, hash);
    vals := LeastFixpointExists(g, hash);
    SolutionsAreEqual(g, hash, vals);
  }
}
