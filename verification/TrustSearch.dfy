/** The depth-first search of `rec_evaluate_query` as a function on assertion states, and what
    it computes: never more than the least solution of the equations. TrustExactness says when it
    is exactly that. The class KeyNoteSession refines these functions. */
module TrustSearch {
  import opened Options
  import opened Licensees
  import opened TrustGraph

  datatype Progress = Untouched | InProgress | Done
  datatype Signature = Unchecked | Bad | Good

  /** The fields of an assertion that a query writes. */
  datatype Cell = Cell(progress: Progress, result: int, signature: Signature, failed: bool)

  type State = seq<Cell>

  ghost predicate ValidState(g: Graph, st: State) {
    && |st| == |g.nodes|
    && (forall a :: 0 <= a < |st| ==> 0 <= st[a].result <= g.top)
    && (forall a :: 0 <= a < |st| && st[a].signature != Unchecked ==>
         (st[a].signature == Good <==> Trusted(g.nodes[a])))
  }

  /** The value other assertions see: `resolve_assertion` skips what is not done. */
  function Visible(st: State): (vals: seq<int>)
    ensures |vals| == |st|
    ensures forall a :: 0 <= a < |st| ==> vals[a] == if st[a].progress.Done? then st[a].result else 0
  {
    seq(|st|, a requires 0 <= a < |st| => if st[a].progress.Done? then st[a].result else 0)
  }

  function Pending(st: State): set<nat> {
    set a: nat | a < |st| && st[a].progress.Untouched?
  }

  function Active(st: State): set<nat> {
    set a: nat | a < |st| && st[a].progress.InProgress?
  }

  /** The assertions that the search for `a` visits: for every listed key that is not an action
      authorizer, the assertions signed by it. */
  function SuccessorsOf(g: Graph, hash: Key -> nat, keylist: seq<KeyEntry>): (r: seq<nat>)
    requires ValidGraph(g)
    ensures forall i :: 0 <= i < |r| ==> r[i] < |g.nodes|
  {
    if keylist == [] then []
    else
      (if Authorized(g, keylist[0].key) then [] else FindAll(g, hash, keylist[0].key))
      + SuccessorsOf(g, hash, keylist[1..])
  }

  function Mark(st: State, a: nat): (r: State)
    requires a < |st|
    ensures |r| == |st|
  {
    st[a := st[a].(progress := InProgress)]
  }

  function CheckedSignature(g: Graph, st: State, a: nat): Signature
    requires a < |st| == |g.nodes|
  {
    if st[a].signature == Unchecked then (if Trusted(g.nodes[a]) then Good else Bad)
    else if st[a].signature == Good then Good else Bad
  }

  /** The end of `rec_evaluate_query`: combine, check the signature, mark done. */
  function Finish(g: Graph, hash: Key -> nat, st: State, a: nat): (r: State)
    requires ValidGraph(g) && ValidState(g, st) && a < |st|
    ensures |r| == |st|
  {
    var s := LicenseesValue(g, hash, Visible(st), a);
    var sig := CheckedSignature(g, st, a);
    st[a := Cell(Done, if sig == Good then Min(ConditionsValue(g, a), s) else 0, sig, st[a].failed)]
  }

  /** In progress, with the value of the Conditions field as a first result. */
  function Prepared(g: Graph, st: State, a: nat): (r: State)
    requires a < |st| == |g.nodes|
    ensures |r| == |st|
  {
    st[a := Cell(InProgress, ConditionsValue(g, a), st[a].signature, st[a].failed)]
  }

  /** Done with value 0 because of the Conditions field alone. */
  function Settled(st: State, a: nat, failed: bool): (r: State)
    requires a < |st|
    ensures |r| == |st|
  {
    st[a := Cell(Done, 0, st[a].signature, failed)]
  }

  /** `rec_evaluate_query` on assertion `a`, whatever its state. */
  function Evaluate(g: Graph, hash: Key -> nat, st: State, a: nat): (r: State)
    requires ValidGraph(g) && ValidState(g, st) && a < |st|
    ensures |r| == |st| && ValidState(g, r) && r[a].progress.Done?
    ensures Pending(r) <= Pending(Mark(st, a)) && Active(r) == Active(st) - {a}
    ensures forall b :: 0 <= b < |st| && b != a && !st[b].progress.Untouched? ==> r[b] == st[b]
    decreases Pending(Mark(st, a)), 2, 0
  {
    if g.nodes[a].conditions == BadConditions then Settled(st, a, true)
    else if ConditionsValue(g, a) == 0 then Settled(st, a, st[a].failed)
    else
      var st2 := Prepared(g, st, a);
      assert Pending(st2) == Pending(Mark(st, a)) && Active(st2) == Active(st) + {a};
      var st3 := Visit(g, hash, st2, SuccessorsOf(g, hash, g.nodes[a].keylist));
      LicenseesRange(g, hash, Visible(st3), a);
      var st4 := Finish(g, hash, st3, a);
      assert Active(st4) == Active(st3) - {a} && Pending(st4) <= Pending(st3);
      st4
  }

  /** The loops of `rec_evaluate_query` over keys and assertions. */
  function Visit(g: Graph, hash: Key -> nat, st: State, ids: seq<nat>): (r: State)
    requires ValidGraph(g) && ValidState(g, st) && forall i :: 0 <= i < |ids| ==> ids[i] < |st|
    ensures |r| == |st| && ValidState(g, r)
    ensures Pending(r) <= Pending(st) && Active(r) == Active(st)
    ensures forall b :: 0 <= b < |st| && !st[b].progress.Untouched? ==> r[b] == st[b]
    ensures forall i :: 0 <= i < |ids| ==> !r[ids[i]].progress.Untouched?
    decreases Pending(st), 1, |ids|
  {
    if ids == [] then st
    else if st[ids[0]].progress.Untouched? then
      assert Pending(Mark(st, ids[0])) == Pending(st) - {ids[0]};
      Visit(g, hash, Evaluate(g, hash, st, ids[0]), ids[1..])
    else Visit(g, hash, st, ids[1..])
  }

  /** One assertion in the search: evaluated if it is untouched, skipped otherwise. */
  function VisitOne(g: Graph, hash: Key -> nat, st: State, a: nat): (r: State)
    requires ValidGraph(g) && ValidState(g, st) && a < |st|
    ensures |r| == |st| && ValidState(g, r) && Pending(r) <= Pending(st)
  {
    if st[a].progress.Untouched? then
      assert Pending(Mark(st, a)) == Pending(st) - {a};
      Evaluate(g, hash, st, a)
    else st
  }

  /** `now` is the state after the first `i` assertions of the list. */
  ghost predicate VisitedTo(g: Graph, hash: Key -> nat, st: State, ids: seq<nat>, i: nat, now: State) {
    && ValidGraph(g) && ValidState(g, st) && ValidState(g, now)
    && i <= |ids| && (forall k :: 0 <= k < |ids| ==> ids[k] < |st|)
    && Pending(now) <= Pending(st)
    && Visit(g, hash, st, ids) == Visit(g, hash, now, ids[i..])
  }

  lemma VisitedStart(g: Graph, hash: Key -> nat, st: State, ids: seq<nat>)
    requires ValidGraph(g) && ValidState(g, st) && forall k :: 0 <= k < |ids| ==> ids[k] < |st|
    ensures VisitedTo(g, hash, st, ids, 0, st)
  {
    assert ids[0..] == ids;
  }

  lemma VisitedStep(g: Graph, hash: Key -> nat, st: State, ids: seq<nat>, i: nat, now: State)
    requires VisitedTo(g, hash, st, ids, i, now) && i < |ids|
    ensures ids[i] < |now| == |g.nodes| && VisitedTo(g, hash, st, ids, i + 1, VisitOne(g, hash, now, ids[i]))
  {
    assert ids[i..][1..] == ids[i + 1..];
  }

  lemma VisitedPending(g: Graph, hash: Key -> nat, st: State, ids: seq<nat>, i: nat, now: State)
    requires VisitedTo(g, hash, st, ids, i, now)
    ensures Pending(now) <= Pending(st)
  {
  }

  lemma VisitedEnd(g: Graph, hash: Key -> nat, st: State, ids: seq<nat>, now: State)
    requires VisitedTo(g, hash, st, ids, |ids|, now)
    ensures now == Visit(g, hash, st, ids)
  {
  }

  /** Visiting two lists one after the other. */
  lemma {:induction false} VisitConcat(g: Graph, hash: Key -> nat, st: State, ids: seq<nat>, more: seq<nat>)
    requires ValidGraph(g) && ValidState(g, st)
    requires forall i :: 0 <= i < |ids| ==> ids[i] < |st|
    requires forall i :: 0 <= i < |more| ==> more[i] < |st|
    ensures Visit(g, hash, st, ids + more) == Visit(g, hash, Visit(g, hash, st, ids), more)
    decreases |ids|
  {
    if ids == [] {
      assert ids + more == more;
    } else {
      assert (ids + more)[1..] == ids[1..] + more;
      var next := if st[ids[0]].progress.Untouched? then Evaluate(g, hash, st, ids[0]) else st;
      VisitConcat(g, hash, next, ids[1..], more);
    }
  }

  // ----- soundness -----

  /** Whatever is done is at most its value in `w`. */
  ghost predicate Sound(st: State, w: seq<int>) {
    |w| == |st| && forall a :: 0 <= a < |st| && st[a].progress.Done? ==> st[a].result <= w[a]
  }

  lemma FinishSound(g: Graph, hash: Key -> nat, st: State, a: nat, w: seq<int>)
    requires IsPrefixpoint(g, hash, w) && ValidState(g, st) && Sound(st, w) && a < |st|
    requires ConditionsValue(g, a) != 0
    ensures Sound(Finish(g, hash, st, a), w)
  {
    assert Below(Visible(st), w);
    LicenseesMonotone(g, hash, Visible(st), w, a);
    assert Equation(g, hash, w, a) == Equations(g, hash, w)[a] <= w[a];
  }

  /** Evaluating an assertion keeps everything done at or below any solution. */
  lemma {:induction false} EvaluateSound(g: Graph, hash: Key -> nat, st: State, a: nat, w: seq<int>)
    requires IsPrefixpoint(g, hash, w) && ValidState(g, st) && Sound(st, w) && a < |st|
    ensures Sound(Evaluate(g, hash, st, a), w)
    decreases Pending(Mark(st, a)), 2, 0
  {
    if g.nodes[a].conditions != BadConditions && ConditionsValue(g, a) != 0 {
      var st2 := Prepared(g, st, a);
      assert Pending(st2) == Pending(Mark(st, a));
      var ids := SuccessorsOf(g, hash, g.nodes[a].keylist);
      VisitSound(g, hash, st2, ids, w);
      FinishSound(g, hash, Visit(g, hash, st2, ids), a, w);
    }
  }

  lemma {:induction false} VisitSound(g: Graph, hash: Key -> nat, st: State, ids: seq<nat>, w: seq<int>)
    requires IsPrefixpoint(g, hash, w) && ValidState(g, st) && Sound(st, w)
    requires forall i :: 0 <= i < |ids| ==> ids[i] < |st|
    ensures Sound(Visit(g, hash, st, ids), w)
    decreases Pending(st), 1, |ids|
  {
    if ids != [] {
      if st[ids[0]].progress.Untouched? {
        assert Pending(Mark(st, ids[0])) == Pending(st) - {ids[0]};
        EvaluateSound(g, hash, st, ids[0], w);
        VisitSound(g, hash, Evaluate(g, hash, st, ids[0]), ids[1..], w);
      } else {
        VisitSound(g, hash, st, ids[1..], w);
      }
    }
  }

  // ----- the whole query -----

  predicate IsPolicy(n: Node) {
    n.authorizer == Some(Key(Plain, "POLICY")) && n.local
  }

  function PoliciesIn(g: Graph, bucket: seq<nat>): (r: seq<nat>)
    requires forall i :: 0 <= i < |bucket| ==> bucket[i] < |g.nodes|
    ensures forall i :: 0 <= i < |r| ==> r[i] < |g.nodes|
  {
    if bucket == [] then []
    else (if IsPolicy(g.nodes[bucket[0]]) then [bucket[0]] else []) + PoliciesIn(g, bucket[1..])
  }

  /** The policy assertions from bucket `h` on, in table order. */
  function PoliciesFrom(g: Graph, h: nat): (r: seq<nat>)
    requires ValidGraph(g) && h <= |g.table|
    ensures forall i :: 0 <= i < |r| ==> r[i] < |g.nodes|
    decreases |g.table| - h
  {
    if h == |g.table| then [] else PoliciesIn(g, g.table[h]) + PoliciesFrom(g, h + 1)
  }

  /** The state a query starts in. */
  ghost predicate Started(st: State) {
    forall a :: 0 <= a < |st| ==> st[a].progress.Untouched? && st[a].result == 0
  }

  /** The policy loop of `keynote_evaluate_query`. `valid(i)` is what the delegation check
      answers after the i-th policy; a negative answer resets the result to 0. */
  function Query(g: Graph, hash: Key -> nat, st: State, ids: seq<nat>, prev: int, valid: nat -> bool,
      i: nat): (r: (State, int))
    requires ValidGraph(g) && ValidState(g, st) && forall j :: 0 <= j < |ids| ==> ids[j] < |st|
    ensures |r.0| == |st| && ValidState(g, r.0)
    decreases |ids|
  {
    if ids == [] then (st, prev)
    else
      var st' := Evaluate(g, hash, st, ids[0]);
      var best := Max(prev, st'[ids[0]].result);
      var prev' := if valid(i) then best else 0;
      if prev' == g.top then (st', prev') else Query(g, hash, st', ids[1..], prev', valid, i + 1)
  }

  /** Whatever the graph and whatever the delegation check answers, the query's result is at
      most what the least solution gives to some policy assertion, and every assertion left
      done is at most its value in that solution. */
  lemma {:induction false} QuerySound(g: Graph, hash: Key -> nat, st: State, ids: seq<nat>, prev: int,
      valid: nat -> bool, i: nat, w: seq<int>)
    requires IsPrefixpoint(g, hash, w) && ValidState(g, st) && Sound(st, w)
    requires forall j :: 0 <= j < |ids| ==> ids[j] < |st|
    ensures var (st', r) := Query(g, hash, st, ids, prev, valid, i);
      Sound(st', w) && r <= Max(Max(prev, 0), MaxOf(w, ids))
    decreases |ids|
  {
    if ids != [] {
      var st' := Evaluate(g, hash, st, ids[0]);
      EvaluateSound(g, hash, st, ids[0], w);
      MaxOfRange(g, w, ids[1..]);
      var best := Max(prev, st'[ids[0]].result);
      var prev' := if valid(i) then best else 0;
      if prev' != g.top {
        QuerySound(g, hash, st', ids[1..], prev', valid, i + 1, w);
      }
    }
  }

  /** When the query returns, no assertion is left in progress, and every assertion that was
      evaluated keeps its result: only policies are ever evaluated a second time. */
  lemma {:induction false} QueryLeavesNoneActive(g: Graph, hash: Key -> nat, st: State, ids: seq<nat>, prev: int,
      valid: nat -> bool, i: nat)
    requires ValidGraph(g) && ValidState(g, st) && Active(st) == {}
    requires forall j :: 0 <= j < |ids| ==> ids[j] < |st|
    ensures var st' := Query(g, hash, st, ids, prev, valid, i).0;
      && Active(st') == {}
      && (forall b :: 0 <= b < |st| && b !in ids && st[b].progress.Done? ==> st'[b] == st[b])
    decreases |ids|
  {
    if ids != [] {
      var st' := Evaluate(g, hash, st, ids[0]);
      var best := Max(prev, st'[ids[0]].result);
      var prev' := if valid(i) then best else 0;
      if prev' != g.top {
        QueryLeavesNoneActive(g, hash, st', ids[1..], prev', valid, i + 1);
      }
    }
  }

  lemma QueryEmpty(g: Graph, hash: Key -> nat, st: State, valid: nat -> bool, i: nat)
    requires ValidGraph(g) && ValidState(g, st)
    ensures Query(g, hash, st, [], 0, valid, i) == (st, 0)
  {
  }

  lemma QueryStep(g: Graph, hash: Key -> nat, st: State, ids: seq<nat>, prev: int, valid: nat -> bool, i: nat)
    requires ValidGraph(g) && ValidState(g, st) && (forall j :: 0 <= j < |ids| ==> ids[j] < |st|) && ids != []
    ensures var st' := Evaluate(g, hash, st, ids[0]);
      var prev' := if valid(i) then Max(prev, st'[ids[0]].result) else 0;
      Query(g, hash, st, ids, prev, valid, i) ==
        if prev' == g.top then (st', prev') else Query(g, hash, st', ids[1..], prev', valid, i + 1)
  {
    hide Evaluate;
  }

  /** A veto of the delegation check forgets what was found so far: unless the best value was reached
      before, the rest of the loop runs as if it began with 0. */
  lemma {:induction false} VetoForgets(g: Graph, hash: Key -> nat, st: State, ids: seq<nat>, prev: int,
      valid: nat -> bool, i: nat, k: nat) returns (st': State)
    requires ValidGraph(g) && ValidState(g, st) && forall j :: 0 <= j < |ids| ==> ids[j] < |st|
    requires k < |ids| && !valid(i + k) && g.top > 0
    ensures ValidState(g, st')
    ensures var r := Query(g, hash, st, ids, prev, valid, i);
      || r.1 == g.top
      || r == Query(g, hash, st', ids[k + 1..], 0, valid, i + k + 1)
    ensures k + 1 == |ids| ==> var r := Query(g, hash, st, ids, prev, valid, i).1; r == g.top || r == 0
    decreases |ids|
  {
    hide Evaluate, Query;
    QueryStep(g, hash, st, ids, prev, valid, i);
    st' := Evaluate(g, hash, st, ids[0]);
    var best := Max(prev, st'[ids[0]].result);
    if k == 0 {
      QueryEmpty(g, hash, st', valid, i + 1);
    } else {
      st' := VetoForgets(g, hash, st', ids[1..], if valid(i) then best else 0, valid, i + 1, k - 1);
      assert ids[1..][k..] == ids[k + 1..];
    }
  }

  lemma {:induction false} QueryRange(g: Graph, hash: Key -> nat, st: State, ids: seq<nat>, prev: int,
      valid: nat -> bool, i: nat)
    requires ValidGraph(g) && ValidState(g, st) && 0 <= prev <= g.top
    requires forall j :: 0 <= j < |ids| ==> ids[j] < |st|
    ensures 0 <= Query(g, hash, st, ids, prev, valid, i).1 <= g.top
    decreases |ids|
  {
    if ids != [] {
      var st' := Evaluate(g, hash, st, ids[0]);
      var best := Max(prev, st'[ids[0]].result);
      QueryRange(g, hash, st', ids[1..], if valid(i) then best else 0, valid, i + 1);
    }
  }

  /** `now` and `prev` are the state and result after some policies, `rest` the ones to come. */
  ghost predicate QueriedTo(g: Graph, hash: Key -> nat, st: State, now: State, rest: seq<nat>, prev: int,
      valid: nat -> bool, i: nat) {
    && ValidGraph(g) && ValidState(g, st) && ValidState(g, now)
    && (forall k :: 0 <= k < |rest| ==> rest[k] < |now|)
    && Query(g, hash, st, PoliciesFrom(g, 0), 0, valid, 0) == Query(g, hash, now, rest, prev, valid, i)
  }

  lemma QueriedStart(g: Graph, hash: Key -> nat, st: State, valid: nat -> bool)
    requires ValidGraph(g) && ValidState(g, st)
    ensures QueriedTo(g, hash, st, st, PoliciesFrom(g, 0), 0, valid, 0)
  {
  }

  lemma QueriedFacts(g: Graph, hash: Key -> nat, st: State, now: State, rest: seq<nat>, prev: int, valid: nat -> bool,
      i: nat)
    requires QueriedTo(g, hash, st, now, rest, prev, valid, i)
    ensures ValidGraph(g) && ValidState(g, st) && ValidState(g, now) && |st| == |g.nodes|
  {
  }

  /** One policy of the loop in `keynote_evaluate_query`. */
  lemma QueriedStep(g: Graph, hash: Key -> nat, st: State, now: State, a: nat, rest: seq<nat>, prev: int,
      valid: nat -> bool, i: nat)
    requires QueriedTo(g, hash, st, now, [a] + rest, prev, valid, i)
    ensures a < |now|
    ensures var next := Evaluate(g, hash, now, a);
      var best := Max(prev, next[a].result);
      var prev' := if valid(i) then best else 0;
      if prev' == g.top
      then Query(g, hash, st, PoliciesFrom(g, 0), 0, valid, 0) == (next, prev')
      else QueriedTo(g, hash, st, next, rest, prev', valid, i + 1)
  {
    assert ([a] + rest)[0] == a && ([a] + rest)[1..] == rest;
  }

  lemma QueriedEnd(g: Graph, hash: Key -> nat, st: State, now: State, prev: int, valid: nat -> bool, i: nat)
    requires QueriedTo(g, hash, st, now, [], prev, valid, i)
    ensures Query(g, hash, st, PoliciesFrom(g, 0), 0, valid, 0) == (now, prev)
  {
  }

  lemma PoliciesStep(g: Graph, h: nat, i: nat)
    requires ValidGraph(g) && h < |g.table| && i < |g.table[h]|
    ensures PoliciesIn(g, g.table[h][i..]) + PoliciesFrom(g, h + 1) ==
      (if IsPolicy(g.nodes[g.table[h][i]]) then [g.table[h][i]] else [])
      + (PoliciesIn(g, g.table[h][i + 1..]) + PoliciesFrom(g, h + 1))
  {
    assert g.table[h][i..][1..] == g.table[h][i + 1..];
  }

  lemma PoliciesBucket(g: Graph, h: nat)
    requires ValidGraph(g) && h <= |g.table|
    ensures PoliciesFrom(g, h) ==
      if h == |g.table| then [] else PoliciesIn(g, g.table[h][0..]) + PoliciesFrom(g, h + 1)
    ensures h < |g.table| ==>
      PoliciesIn(g, g.table[h][|g.table[h]|..]) + PoliciesFrom(g, h + 1) == PoliciesFrom(g, h + 1)
  {
    if h < |g.table| {
      assert g.table[h][0..] == g.table[h];
      assert PoliciesIn(g, g.table[h][|g.table[h]|..]) == [];
      assert [] + PoliciesFrom(g, h + 1) == PoliciesFrom(g, h + 1);
    }
  }

  /** A whole query, from the state that `kn_do_query` and `keynote_fix_fields` leave. */
  function WholeQuery(g: Graph, hash: Key -> nat, st: State, valid: nat -> bool): (State, int)
    requires ValidGraph(g) && ValidState(g, st)
  {
    Query(g, hash, st, PoliciesFrom(g, 0), 0, valid, 0)
  }

  lemma WholeQueryIs(g: Graph, hash: Key -> nat, st: State, valid: nat -> bool)
    requires ValidGraph(g) && ValidState(g, st)
    ensures WholeQuery(g, hash, st, valid) == Query(g, hash, st, PoliciesFrom(g, 0), 0, valid, 0)
  {
  }
}
