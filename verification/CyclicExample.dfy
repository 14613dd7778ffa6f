/** A concrete query on a cycle that is entered at two assertions: it yields less than the least
    solution of the equations. The same cycle entered at one of them is in the exact class. And a
    cycle through a policy that is entered at another assertion as well. */
module CyclicExample {
  import opened Options
  import opened Licensees
  import opened TrustGraph
  import opened TrustSearch
  import opened TrustExactness
  import opened KeyRecording
  import opened TrustOrder
  import opened TrustTrap
  import opened TrustFilling
  import opened TrustTightness
  import opened FlowGraphs

  const KEY_A := Key(Binary, "a")
  const KEY_B := Key(Binary, "b")
  const KEY_R := Key(Binary, "r")

  /** The policy asks for A and B. A trusts B or the requester R; B trusts A. The requester alone
      authorises the action. */
  const POLICY_NODE := Node(Some(Key(Plain, "POLICY")), NoConditions,
    Given(And(Principal("B"), Principal("A"))), [KeyEntry("A", KEY_A), KeyEntry("B", KEY_B)], true, false)
  const NODE_A := Node(Some(KEY_A), NoConditions,
    Given(Or(Principal("B"), Principal("R"))), [KeyEntry("R", KEY_R), KeyEntry("B", KEY_B)], false, true)
  const NODE_B := Node(Some(KEY_B), NoConditions,
    Given(Principal("A")), [KeyEntry("A", KEY_A)], false, true)

  const CYCLE := Graph([POLICY_NODE, NODE_A, NODE_B], [[0, 1, 2]], [KEY_R], 1)

  function OneBucket(k: Key): nat { 0 }

  function Fresh(): State {
    [UNTOUCHED, UNTOUCHED, UNTOUCHED]
  }

  /** Who signed what. */
  lemma Signers()
    ensures ValidGraph(CYCLE)
    ensures forall a: nat :: a < 3 ==>
      (SignedBy(CYCLE, a, KEY_A) <==> a == 1) && (SignedBy(CYCLE, a, KEY_B) <==> a == 2)
    ensures Authorized(CYCLE, KEY_R) && !Authorized(CYCLE, KEY_A) && !Authorized(CYCLE, KEY_B)
  {
    assert Matches(CYCLE.authorizers[0], KEY_R);
  }

  const ALL: seq<nat> := [0, 1, 2]
  const REST: seq<nat> := [1, 2]
  const LAST: seq<nat> := [2]

  lemma Slices()
    ensures ALL[1..] == REST && REST[1..] == LAST && LAST[1..] == []
    ensures ALL[0] == 0 && REST[0] == 1 && LAST[0] == 2
  {
  }

  lemma SelectFirst(ids: seq<nat>, key: Key)
    requires ids != [] && forall i :: 0 <= i < |ids| ==> ids[i] < 3
    ensures Select(CYCLE, ids, key) ==
      if SignedBy(CYCLE, ids[0], key) then [ids[0]] + Select(CYCLE, ids[1..], key) else Select(CYCLE, ids[1..], key)
  {
    hide SignedBy;
    var rest := Select(CYCLE, ids[1..], key);
    assert [] + rest == rest;
  }

  /** A key that signed only one of the three. */
  lemma SelectOne(key: Key, a: nat)
    requires a < 3 && forall b: nat :: b < 3 ==> (SignedBy(CYCLE, b, key) <==> b == a)
    ensures ValidGraph(CYCLE) && FindAll(CYCLE, OneBucket, key) == [a]
  {
    hide SignedBy, Select;
    Slices();
    SelectFirst(ALL, key);
    SelectFirst(REST, key);
    SelectFirst(LAST, key);
    SelectNone(key);
    assert [a] + [] == [a];
  }

  lemma SelectNone(key: Key)
    ensures Select(CYCLE, [], key) == []
  {
  }

  lemma Lookups()
    ensures ValidGraph(CYCLE)
    ensures FindAll(CYCLE, OneBucket, KEY_A) == [1] && FindAll(CYCLE, OneBucket, KEY_B) == [2]
    ensures Authorized(CYCLE, KEY_R) && !Authorized(CYCLE, KEY_A) && !Authorized(CYCLE, KEY_B)
  {
    hide SignedBy, FindAll, Authorized;
    Signers();
    SelectOne(KEY_A, 1);
    SelectOne(KEY_B, 2);
  }

  lemma FieldValues(vals: seq<int>)
    requires |vals| == 3 && forall i :: 0 <= i < 3 ==> 0 <= vals[i] <= 1
    ensures ValidGraph(CYCLE)
    ensures LicenseesValue(CYCLE, OneBucket, vals, 0) == Min(vals[2], vals[1])
    ensures LicenseesValue(CYCLE, OneBucket, vals, 1) == 1
    ensures LicenseesValue(CYCLE, OneBucket, vals, 2) == vals[1]
  {
    hide FindAll, Authorized;
    Lookups();
    assert MaxOf(vals, [1]) == vals[1] && MaxOf(vals, [2]) == vals[2];
    assert Lookup([KeyEntry("B", KEY_B)], "B") == Some(KEY_B);
    assert Lookup(POLICY_NODE.keylist, "B") == Some(KEY_B) && Lookup(POLICY_NODE.keylist, "A") == Some(KEY_A);
    assert Lookup(NODE_A.keylist, "B") == Some(KEY_B) && Lookup(NODE_A.keylist, "R") == Some(KEY_R);
    assert Lookup(NODE_B.keylist, "A") == Some(KEY_A);
  }

  lemma SuccessorLists()
    ensures ValidGraph(CYCLE)
    ensures SuccessorsOf(CYCLE, OneBucket, POLICY_NODE.keylist) == [1, 2]
    ensures SuccessorsOf(CYCLE, OneBucket, NODE_A.keylist) == [2]
    ensures SuccessorsOf(CYCLE, OneBucket, NODE_B.keylist) == [1]
  {
    Lookups();
    assert SuccessorsOf(CYCLE, OneBucket, []) == [];
    assert POLICY_NODE.keylist[1..] == [KeyEntry("B", KEY_B)] && NODE_A.keylist[1..] == [KeyEntry("B", KEY_B)];
    assert SuccessorsOf(CYCLE, OneBucket, [KeyEntry("B", KEY_B)]) == [2];
  }

  lemma EquationValues(vals: seq<int>)
    requires |vals| == 3 && forall i :: 0 <= i < 3 ==> 0 <= vals[i] <= 1
    ensures ValidGraph(CYCLE) && |Equations(CYCLE, OneBucket, vals)| == 3
    ensures Equations(CYCLE, OneBucket, vals)[0] == Min(1, Min(vals[2], vals[1]))
    ensures Equations(CYCLE, OneBucket, vals)[1] == 1
    ensures Equations(CYCLE, OneBucket, vals)[2] == vals[1]
  {
    hide LicenseesValue;
    FieldValues(vals);
  }

  /** The solution gives every assertion the best value. */
  lemma Solution()
    ensures IsLeastFixpoint(CYCLE, OneBucket, [1, 1, 1])
  {
    hide Equation;
    EquationValues([1, 1, 1]);
    assert Equations(CYCLE, OneBucket, [1, 1, 1]) == [1, 1, 1];
    forall w: seq<int> | IsPrefixpoint(CYCLE, OneBucket, w) ensures Below([1, 1, 1], w) {
      EquationValues(w);
      var e := Equations(CYCLE, OneBucket, w);
      assert e[1] <= w[1] && e[2] <= w[2] && e[0] <= w[0];
    }
  }

  const UNTOUCHED := Cell(Untouched, 0, Unchecked, false)

  function Working(r: int): Cell { Cell(InProgress, r, Unchecked, false) }

  function Finished(r: int): Cell { Cell(Done, r, Good, false) }

  /** Evaluating one assertion of the example, its keys visited to `st3` and its field worth `s`. */
  lemma EvaluateTo(st: State, a: nat, ids: seq<nat>, st3: State, s: int)
    requires ValidGraph(CYCLE) && ValidState(CYCLE, st) && ValidState(CYCLE, st3) && a < 3
    requires SuccessorsOf(CYCLE, OneBucket, CYCLE.nodes[a].keylist) == ids
    requires Visit(CYCLE, OneBucket, st[a := Cell(InProgress, 1, st[a].signature, st[a].failed)], ids) == st3
    requires LicenseesValue(CYCLE, OneBucket, Visible(st3), a) == s <= 1 && st3[a].signature == Unchecked
    ensures Evaluate(CYCLE, OneBucket, st, a) == st3[a := Cell(Done, s, Good, st3[a].failed)]
  {
    hide Visit, SuccessorsOf, LicenseesValue, ValidGraph;
  }

  lemma VisitDone(st: State, a: nat)
    requires ValidGraph(CYCLE) && ValidState(CYCLE, st) && a < 3 && !st[a].progress.Untouched?
    ensures Visit(CYCLE, OneBucket, st, [a]) == st
  {
    hide Evaluate, ValidGraph;
    assert Visit(CYCLE, OneBucket, st, [a][1..]) == st;
  }

  lemma VisitNew(st: State, a: nat)
    requires ValidGraph(CYCLE) && ValidState(CYCLE, st) && a < 3 && st[a].progress.Untouched?
    ensures Visit(CYCLE, OneBucket, st, [a]) == Evaluate(CYCLE, OneBucket, st, a)
  {
    hide Evaluate, ValidGraph;
    assert Pending(Mark(st, a)) == Pending(st) - {a};
    assert [a][1..] == [];
  }

  /** B is evaluated while A is in progress, and so A counts 0 for it. */
  lemma EvaluateB()
    ensures ValidGraph(CYCLE)
    ensures var st := [Working(1), Working(1), UNTOUCHED];
      ValidState(CYCLE, st) && Evaluate(CYCLE, OneBucket, st, 2) == [Working(1), Working(1), Finished(0)]
  {
    hide Visit, Evaluate, SuccessorsOf, LicenseesValue;
    SuccessorLists();
    var st, st3 := [Working(1), Working(1), UNTOUCHED], [Working(1), Working(1), Working(1)];
    VisitDone(st3, 1);
    FieldValues(Visible(st3));
    assert st[2 := Working(1)] == st3;
    EvaluateTo(st, 2, [1], st3, 0);
    assert st3[2 := Finished(0)] == [Working(1), Working(1), Finished(0)];
  }

  lemma EvaluateA()
    ensures ValidGraph(CYCLE)
    ensures var st := [Working(1), UNTOUCHED, UNTOUCHED];
      ValidState(CYCLE, st) && Evaluate(CYCLE, OneBucket, st, 1) == [Working(1), Finished(1), Finished(0)]
  {
    hide Visit, Evaluate, SuccessorsOf, LicenseesValue;
    SuccessorLists();
    EvaluateB();
    var st, st3 := [Working(1), UNTOUCHED, UNTOUCHED], [Working(1), Working(1), Finished(0)];
    VisitNew([Working(1), Working(1), UNTOUCHED], 2);
    FieldValues(Visible(st3));
    assert st[1 := Working(1)] == [Working(1), Working(1), UNTOUCHED];
    EvaluateTo(st, 1, [2], st3, 1);
    assert st3[1 := Finished(1)] == [Working(1), Finished(1), Finished(0)];
  }

  lemma VisitKeys()
    ensures ValidGraph(CYCLE)
    ensures var st := [Working(1), UNTOUCHED, UNTOUCHED];
      ValidState(CYCLE, st) && Visit(CYCLE, OneBucket, st, [1, 2]) == [Working(1), Finished(1), Finished(0)]
  {
    hide Evaluate;
    EvaluateA();
    var st3 := [Working(1), Finished(1), Finished(0)];
    var ids: seq<nat> := [1, 2];
    assert ids[1..] == [2] && ids[1..][1..] == [];
    assert Visit(CYCLE, OneBucket, st3, [2]) == Visit(CYCLE, OneBucket, st3, []) == st3;
  }

  lemma FinishPolicy()
    ensures ValidGraph(CYCLE)
    ensures var st := [Working(1), Finished(1), Finished(0)];
      ValidState(CYCLE, st) && Finish(CYCLE, OneBucket, st, 0) == [Finished(0), Finished(1), Finished(0)]
  {
    hide LicenseesValue;
    FieldValues(Visible([Working(1), Finished(1), Finished(0)]));
  }

  lemma EvaluatePolicy()
    ensures ValidGraph(CYCLE) && ValidState(CYCLE, Fresh())
    ensures Evaluate(CYCLE, OneBucket, Fresh(), 0) == [Finished(0), Finished(1), Finished(0)]
  {
    hide Visit, Finish, SuccessorsOf;
    SuccessorLists();
    VisitKeys();
    FinishPolicy();
    assert Prepared(CYCLE, Fresh(), 0)
      == [Working(1), UNTOUCHED, UNTOUCHED];
  }

  lemma PoliciesStart(g: Graph, ids: seq<nat>)
    requires ids != [] && forall i :: 0 <= i < |ids| ==> ids[i] < |g.nodes|
    ensures PoliciesIn(g, ids) ==
      if IsPolicy(g.nodes[ids[0]]) then [ids[0]] + PoliciesIn(g, ids[1..]) else PoliciesIn(g, ids[1..])
  {
    hide IsPolicy;
    var rest := PoliciesIn(g, ids[1..]);
    assert [] + rest == rest;
  }

  lemma PoliciesFirst(ids: seq<nat>)
    requires ids != [] && forall i :: 0 <= i < |ids| ==> ids[i] < 3
    ensures PoliciesIn(CYCLE, ids) ==
      if ids[0] == 0 then [0] + PoliciesIn(CYCLE, ids[1..]) else PoliciesIn(CYCLE, ids[1..])
  {
    hide IsPolicy, PoliciesIn;
    PolicyIs(ids[0]);
    PoliciesStart(CYCLE, ids);
  }

  lemma PolicyIs(a: nat)
    requires a < 3
    ensures IsPolicy(CYCLE.nodes[a]) <==> a == 0
  {
  }

  lemma OnePolicy()
    ensures ValidGraph(CYCLE) && PoliciesFrom(CYCLE, 0) == [0]
  {
    hide PoliciesIn;
    Slices();
    PoliciesFirst(ALL);
    PoliciesFirst(REST);
    PoliciesFirst(LAST);
    NoPolicies();
    assert PoliciesFrom(CYCLE, 1) == [];
    assert [0] + [] + [] == [0];
    assert CYCLE.table[0] == ALL;
  }

  lemma NoPolicies()
    ensures PoliciesIn(CYCLE, []) == []
  {
  }

  lemma QueryPolicy(valid: nat -> bool)
    ensures ValidGraph(CYCLE) && ValidState(CYCLE, Fresh())
    ensures Query(CYCLE, OneBucket, Fresh(), [0], 0, valid, 0).1 == 0
  {
    hide Evaluate;
    EvaluatePolicy();
    var st := [Finished(0), Finished(1), Finished(0)];
    var ids: seq<nat> := [0];
    assert ids[1..] == [];
    assert Query(CYCLE, OneBucket, st, [], 0, valid, 1).1 == 0;
  }

  lemma Indexed()
    ensures IndexComplete(CYCLE, OneBucket)
  {
    hide Matches;
    forall a: nat | a < 3 ensures Listed(CYCLE, a) {
      assert CYCLE.table[0][a] == a;
    }
  }

  /** On this cycle the query answers 0 although the least solution gives the policy 1. */
  lemma CycleLosesValue(valid: nat -> bool)
    ensures IndexComplete(CYCLE, OneBucket) && IsPlainSolution(CYCLE, [1, 1, 1])
    ensures ValidState(CYCLE, Fresh()) && WholeQuery(CYCLE, OneBucket, Fresh(), valid).1 == 0
    ensures PolicyValue(CYCLE, [1, 1, 1]) == 1
  {
    hide Query, Evaluate, PoliciesFrom, IsLeastFixpoint, IsPlainSolution, PolicyValue, IndexComplete;
    Solution();
    Indexed();
    SolutionsAreEqual(CYCLE, OneBucket, [1, 1, 1]);
    OnePolicy();
    QueryPolicy(valid);
    PolicyValueIs(CYCLE, OneBucket, [1, 1, 1]);
    var ids: seq<nat> := [0];
    assert ids[1..] == [];
  }

  lemma AllRecorded()
    ensures Recorded(CYCLE)
  {
    assert Lookup([KeyEntry("B", KEY_B)], "B") == Some(KEY_B);
    assert Names(And(Principal("B"), Principal("A"))) == ["B", "A"];
    assert Names(Or(Principal("B"), Principal("R"))) == ["B", "R"];
    assert Lookup(POLICY_NODE.keylist, "B") == Some(KEY_B) && Lookup(POLICY_NODE.keylist, "A") == Some(KEY_A);
    assert Lookup(NODE_A.keylist, "B") == Some(KEY_B) && Lookup(NODE_A.keylist, "R") == Some(KEY_R);
    assert Lookup(NODE_B.keylist, "A") == Some(KEY_A);
  }

  /** The recording pass has done its work, so the two entries are all that is to blame. */
  lemma CycleIsEnteredTwice()
    ensures Recorded(CYCLE) && !CyclesEnteredOnce(CYCLE)
  {
    hide WholeQuery, IsPlainSolution, PolicyValue, IndexComplete, CyclesEnteredOnce;
    CycleLosesValue((i: nat) => true);
    AllRecorded();
    QueryComputesComplianceValue(CYCLE, OneBucket, Fresh(), (i: nat) => true, [1, 1, 1]);
  }

  /** The policy asks for B only. */
  const LOOP := Graph(
    [POLICY_NODE.(licensees := Given(Principal("B")), keylist := [KeyEntry("B", KEY_B)]), NODE_A, NODE_B],
    [[0, 1, 2]], [KEY_R], 1)

  lemma LoopIsEnteredOnce()
    ensures CyclesEnteredOnce(LOOP)
  {
    hide SignedBy, Authorized;
    LoopEdges();
    var l := Nesting([2, 0, 1], [{0}, {0, 1, 2}, {0, 2}], {0, 1, 2});
    assert Nested(LOOP, l);
    assert PoliciesEnter(LOOP, l);
  }

  lemma LoopEdges()
    ensures forall a: nat, b: nat :: a < 3 && b < 3 && RestsOn(LOOP, a, b) ==>
      (a == 1 && b == 2) || (a == 2 && b == 1) || (a == 0 && b == 2)
  {
    assert Matches(LOOP.authorizers[0], KEY_R);
  }

  // ----- the example as the code reads it -----

  const POLICY_KEY := Key(Plain, "POLICY")
  const KEY_Z := Key(Binary, "z")

  function Decode(name: string): Option<Key> {
    if name == "A" then Some(KEY_A)
    else if name == "B" then Some(KEY_B)
    else if name == "R" then Some(KEY_R)
    else if name == "Z" then Some(KEY_Z)
    else if name == "POLICY" then Some(POLICY_KEY)
    else None
  }

  /** Two names, recorded. */
  lemma TwoNames(s: string, t: string)
    requires Decode(s).Some? && Decode(t).Some?
    ensures AllDecode([s, t], Decode)
    ensures Recording([s, t], Decode, []) == [KeyEntry(t, Decode(t).value), KeyEntry(s, Decode(s).value)]
  {
    assert [s, t][..1] == [s] && [s][..0] == [];
    assert Recording([s], Decode, []) == [KeyEntry(s, Decode(s).value)];
  }

  lemma OneName(s: string)
    requires Decode(s).Some?
    ensures AllDecode([s], Decode) && Recording([s], Decode, []) == [KeyEntry(s, Decode(s).value)]
  {
    assert [s][..0] == [];
  }

  /** The key lists of the example are those of its fields. */
  lemma CycleFromFields()
    ensures FromFields(CYCLE, Decode)
  {
    TwoNames("B", "A");
    TwoNames("B", "R");
    OneName("A");
    assert Names(And(Principal("B"), Principal("A"))) == ["B", "A"];
    assert Names(Or(Principal("B"), Principal("R"))) == ["B", "R"];
    assert Names(Principal("A")) == ["A"];
  }

  /** It meets the hypotheses of TrustTightness, and its cycle can be entered at two assertions. */
  lemma CycleIsPlain()
    ensures PlainListing(CYCLE, OneBucket, Words(Decode, "R", "Z")) && NoSharedKey(CYCLE) && !OneEntryEach(CYCLE)
  {
    hide IndexComplete, FromFields, SignedBy, Authorized, OneEntryEach, CyclesEnteredOnce, Recorded;
    Indexed();
    CycleFromFields();
    Signers();
    CycleSpare();
    CycleIsEnteredTwice();
    if OneEntryEach(CYCLE) {
      OneEntryNests(CYCLE);
    }
  }

  lemma CycleSpare()
    ensures Spare(CYCLE, Words(Decode, "R", "Z"))
    ensures forall a: nat :: a < 3 ==> !SignedBy(CYCLE, a, KEY_R)
  {
    assert Matches(CYCLE.authorizers[0], KEY_R);
  }

  // ----- a policy on the cycle -----

  /** The first policy asks for A and Z, the second one for B, and B trusts A. A trusts POLICY or the
      requester R, so the second policy lies on the cycle A, POLICY, B. */
  const FIRST_POLICY := Node(Some(POLICY_KEY), NoConditions,
    Given(And(Principal("A"), Principal("Z"))), [KeyEntry("Z", KEY_Z), KeyEntry("A", KEY_A)], true, true)
  const SECOND_POLICY := Node(Some(POLICY_KEY), NoConditions,
    Given(Principal("B")), [KeyEntry("B", KEY_B)], true, true)
  const A_OR_POLICY := Node(Some(KEY_A), NoConditions,
    Given(Or(Principal("POLICY"), Principal("R"))), [KeyEntry("R", KEY_R), KeyEntry("POLICY", POLICY_KEY)], false, true)
  const B_OF_A := Node(Some(KEY_B), NoConditions, Given(Principal("A")), [KeyEntry("A", KEY_A)], false, true)

  const THROUGH_POLICY := Graph([FIRST_POLICY, SECOND_POLICY, A_OR_POLICY, B_OF_A], [[0, 1, 2, 3]], [KEY_R], 1)

  const WIRES := Wiring(map[1 := 3, 3 := 2], 2, 3)
  const AROUND: seq<nat> := [2, 1, 3]

  lemma ThroughFromFields()
    ensures FromFields(THROUGH_POLICY, Decode)
  {
    TwoNames("A", "Z");
    TwoNames("POLICY", "R");
    OneName("A");
    OneName("B");
    assert Names(And(Principal("A"), Principal("Z"))) == ["A", "Z"];
    assert Names(Or(Principal("POLICY"), Principal("R"))) == ["POLICY", "R"];
    assert Names(Principal("A")) == ["A"] && Names(Principal("B")) == ["B"];
  }

  lemma ThroughSigners()
    ensures forall a: nat :: a < 4 ==>
      && (SignedBy(THROUGH_POLICY, a, KEY_A) <==> a == 2) && (SignedBy(THROUGH_POLICY, a, KEY_B) <==> a == 3)
      && (SignedBy(THROUGH_POLICY, a, POLICY_KEY) <==> a < 2) && !SignedBy(THROUGH_POLICY, a, KEY_Z)
    ensures Authorized(THROUGH_POLICY, KEY_R) && !Authorized(THROUGH_POLICY, KEY_A)
      && !Authorized(THROUGH_POLICY, KEY_B)
    ensures !Authorized(THROUGH_POLICY, KEY_Z) && !Authorized(THROUGH_POLICY, POLICY_KEY)
  {
    assert Matches(THROUGH_POLICY.authorizers[0], KEY_R);
  }

  lemma ThroughIndexed()
    ensures Open(THROUGH_POLICY) && IndexComplete(THROUGH_POLICY, OneBucket)
  {
    hide Matches;
    forall a: nat | a < 4 ensures Listed(THROUGH_POLICY, a) {
      assert THROUGH_POLICY.table[0][a] == a;
    }
  }

  lemma ThroughLeaf(vals: seq<int>, a: nat, s: string, key: Key)
    requires |vals| == 4 && a < 4 && Lookup(THROUGH_POLICY.nodes[a].keylist, s) == Some(key)
    ensures ValidGraph(THROUGH_POLICY)
    ensures LeafValue(THROUGH_POLICY, OneBucket, vals, a, s) ==
      if Authorized(THROUGH_POLICY, key) then 1 else PlainSigned(THROUGH_POLICY, vals, key)
  {
    hide IndexComplete, FindAll, PlainSigned, Authorized;
    ThroughIndexed();
    SignedIsFound(THROUGH_POLICY, OneBucket, vals, key);
  }

  /** Both names of the first policy and of A. */
  lemma ThroughLookups()
    ensures Lookup(FIRST_POLICY.keylist, "A") == Some(KEY_A) && Lookup(FIRST_POLICY.keylist, "Z") == Some(KEY_Z)
    ensures Lookup(A_OR_POLICY.keylist, "POLICY") == Some(POLICY_KEY) && Lookup(A_OR_POLICY.keylist, "R") == Some(KEY_R)
    ensures Lookup(SECOND_POLICY.keylist, "B") == Some(KEY_B) && Lookup(B_OF_A.keylist, "A") == Some(KEY_A)
  {
    assert FIRST_POLICY.keylist[1..] == [KeyEntry("A", KEY_A)];
    assert A_OR_POLICY.keylist[1..] == [KeyEntry("POLICY", POLICY_KEY)];
  }

  lemma ThroughBehaves(vals: seq<int>, a: nat)
    requires InRange(THROUGH_POLICY, vals) && a < |vals|
    ensures ValidGraph(THROUGH_POLICY) && BehavesAt(THROUGH_POLICY, OneBucket, WIRES, vals, a)
  {
    hide IndexComplete, LeafValue, PlainSigned, SignedBy, Authorized;
    ThroughIndexed();
    ThroughSigners();
    ThroughLookups();
    var g, leaf := THROUGH_POLICY, LeavesOf(THROUGH_POLICY, OneBucket, vals, a);
    LeavesRanged(g, OneBucket, vals, a);
    if a == 0 {
      ThroughLeaf(vals, 0, "Z", KEY_Z);
      NoneSigned(g, vals, KEY_Z);
      assert 0 <= leaf("A") && leaf("Z") == 0;
    } else if a == 1 {
      ThroughLeaf(vals, 1, "B", KEY_B);
      OneSigned(g, vals, KEY_B, 3);
      assert leaf("B") == vals[3];
    } else if a == 2 {
      ThroughLeaf(vals, 2, "R", KEY_R);
      assert leaf("POLICY") <= 1 && leaf("R") == 1;
    } else {
      ThroughLeaf(vals, 3, "A", KEY_A);
      OneSigned(g, vals, KEY_A, 2);
      assert leaf("A") == vals[2];
    }
  }

  lemma ListsSigner(g: Graph, a: nat, i: nat, b: nat)
    requires a < |g.nodes| && b < |g.nodes| && i < |g.nodes[a].keylist|
    requires !Authorized(g, g.nodes[a].keylist[i].key) && SignedBy(g, b, g.nodes[a].keylist[i].key)
    ensures RestsOn(g, a, b)
  {
  }

  lemma ThroughEdges()
    ensures RestsOn(THROUGH_POLICY, 2, 1) && RestsOn(THROUGH_POLICY, 1, 3) && RestsOn(THROUGH_POLICY, 0, 2)
  {
    hide SignedBy, Authorized;
    ThroughSigners();
    ListsSigner(THROUGH_POLICY, 2, 1, 1);
    ListsSigner(THROUGH_POLICY, 1, 0, 3);
    ListsSigner(THROUGH_POLICY, 0, 1, 2);
  }

  lemma ThroughWired()
    ensures Wired(THROUGH_POLICY, WIRES)
  {
  }

  lemma ThroughSigned()
    ensures forall a :: 0 <= a < 4 ==>
      THROUGH_POLICY.nodes[a].conditions == NoConditions && THROUGH_POLICY.nodes[a].verifies
  {
  }

  lemma AroundLeads()
    ensures ValidGraph(THROUGH_POLICY) && Distinct(AROUND)
    ensures forall i :: 0 < i < 3 ==> AROUND[i] in Successors(THROUGH_POLICY, OneBucket, AROUND[i - 1])
  {
    hide IndexComplete, RestsOn, Successors;
    ThroughIndexed();
    ThroughEdges();
    RestsIsSuccessor(THROUGH_POLICY, OneBucket, 2, 1);
    RestsIsSuccessor(THROUGH_POLICY, OneBucket, 1, 3);
  }

  lemma ThroughTrap()
    ensures Trap(THROUGH_POLICY, OneBucket, WIRES, AROUND)
  {
    hide IndexComplete, Open, Wired, Distinct, Successors, BehavesAt, InRange;
    ThroughIndexed();
    ThroughWired();
    ThroughSigned();
    AroundLeads();
    RangeSizes(THROUGH_POLICY);
    forall vals: seq<int>, a: nat | InRange(THROUGH_POLICY, vals) && a < |vals|
      ensures BehavesAt(THROUGH_POLICY, OneBucket, WIRES, vals, a)
    {
      ThroughBehaves(vals, a);
    }
  }

  /** The first policy leads to A at once. */
  lemma FirstMeetsA(st: State)
    requires ValidGraph(THROUGH_POLICY) && ValidState(THROUGH_POLICY, st) && Started(st)
    ensures FirstOf(THROUGH_POLICY, OneBucket, st, 0, {1, 2, 3}) == Some(2)
  {
    hide IndexComplete, SignedBy, Authorized;
    ThroughIndexed();
    ThroughEdges();
    ThroughSigners();
    var ids := Successors(THROUGH_POLICY, OneBucket, 0);
    RestsIsSuccessor(THROUGH_POLICY, OneBucket, 0, 2);
    SuccessorIsSigned(THROUGH_POLICY, OneBucket, FIRST_POLICY.keylist, ids[0]);
    assert ids[0] == 2;
    assert FirstOf(THROUGH_POLICY, OneBucket, Prepared(THROUGH_POLICY, st, 0), ids[0], {1, 2, 3}) == Some(2);
  }

  lemma TwoPolicies()
    ensures ValidGraph(THROUGH_POLICY) && PoliciesFrom(THROUGH_POLICY, 0) != []
    ensures PoliciesFrom(THROUGH_POLICY, 0)[0] == 0
    ensures forall a :: a in PoliciesFrom(THROUGH_POLICY, 0) ==> a < 2
  {
    hide IndexComplete, PoliciesIn;
    ThroughIndexed();
    var g := THROUGH_POLICY;
    PoliciesStart(g, g.table[0]);
    assert PoliciesFrom(g, 0) == PoliciesIn(g, g.table[0]) + PoliciesFrom(g, 1);
    forall a | a in PoliciesFrom(g, 0) ensures a < 2 {
      AllPolicies(g, OneBucket, a);
    }
  }

  /** So a policy on a cycle does not make a second entry harmless: B is evaluated while A is in
      progress, and keeps the value 0 when the second policy is evaluated again. */
  lemma PolicyOnCycleLoses(valid: nat -> bool)
    ensures IndexComplete(THROUGH_POLICY, OneBucket) && FromFields(THROUGH_POLICY, Decode)
    ensures ValidState(THROUGH_POLICY, FreshCells(4))
    ensures WholeQuery(THROUGH_POLICY, OneBucket, FreshCells(4), valid).1 == 0
    ensures forall v: seq<int> :: IsPlainSolution(THROUGH_POLICY, v) ==> |v| == 4 && PolicyValue(THROUGH_POLICY, v) == 1
  {
    hide IndexComplete, Trap, Query, FirstOf, PoliciesFrom, PolicyValue, IsPlainSolution, IsLeastFixpoint, Evaluate,
      FromFields;
    ThroughIndexed();
    ThroughFromFields();
    ThroughTrap();
    TwoPolicies();
    FirstMeetsA(FreshCells(4));
    assert Members(AROUND) == {1, 2, 3};
    forall j | 0 <= j < |PoliciesFrom(THROUGH_POLICY, 0)| ensures PoliciesFrom(THROUGH_POLICY, 0)[j] < 2 {
      assert PoliciesFrom(THROUGH_POLICY, 0)[j] in PoliciesFrom(THROUGH_POLICY, 0);
    }
    QueryBlind(THROUGH_POLICY, OneBucket, WIRES, AROUND, FreshCells(4), PoliciesFrom(THROUGH_POLICY, 0), valid, 0);
    forall v: seq<int> | IsPlainSolution(THROUGH_POLICY, v) ensures |v| == 4 && PolicyValue(THROUGH_POLICY, v) == 1 {
      SolutionsAreEqual(THROUGH_POLICY, OneBucket, v);
      LeastIsPrefixpoint(THROUGH_POLICY, OneBucket, v);
      TruthAlong(THROUGH_POLICY, OneBucket, WIRES, AROUND, v, [1, 3, 2]);
      PolicyGets(THROUGH_POLICY, v, [1, 3, 2][0]);
    }
  }
}
