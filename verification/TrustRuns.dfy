/** Every intermediate state of a query, with the active calls of `rec_evaluate_query`: what
    holds at every step and not only at the end. */
module TrustRuns {
  import opened Licensees
  import opened TrustGraph
  import opened TrustSearch

  /** The state after one write to an assertion, and the calls that have not yet marked their
      assertion done, outermost first. */
  datatype Moment = Moment(calls: seq<nat>, cells: State)

  /** The first writes of a call: in progress, and what evaluating the Conditions field stores. */
  function BeginningRun(g: Graph, calls: seq<nat>, st: State, a: nat): (r: seq<Moment>)
    requires a < |st| == |g.nodes|
    ensures |r| > 0 && r[|r| - 1] == Moment(calls + [a], Prepared(g, st, a))
  {
    var marked := Mark(st, a);
    [Moment(calls + [a], marked)]
    + (if g.nodes[a].conditions.NoConditions? then [] else [Moment(calls + [a], marked[a := marked[a].(result := 0)])])
    + [Moment(calls + [a], Prepared(g, st, a))]
  }

  /** Its last writes before it marks the assertion done: the lower of the two results, the
      signature, and for a bad signature the result and the signature again. */
  function EndingRun(g: Graph, hash: Key -> nat, calls: seq<nat>, st: State, a: nat): (r: seq<Moment>)
    requires ValidGraph(g) && a < |st| == |g.nodes|
    ensures |r| > 0
  {
    var combined := st[a].(result := Min(ConditionsValue(g, a), LicenseesValue(g, hash, Visible(st), a)));
    var checked := combined.(signature := CheckedSignature(g, st, a));
    [Moment(calls + [a], st[a := combined])]
    + (if st[a].signature == Unchecked then [Moment(calls + [a], st[a := checked])] else [])
    + (if checked.signature.Good? then [] else
        [Moment(calls + [a], st[a := checked.(result := 0)]),
          Moment(calls + [a], st[a := checked.(result := 0, signature := Bad)])])
  }

  /** The writes of one call of `rec_evaluate_query` under the calls already active. */
  function EvaluateRun(g: Graph, hash: Key -> nat, calls: seq<nat>, st: State, a: nat): (r: seq<Moment>)
    requires ValidGraph(g) && ValidState(g, st) && a < |st|
    ensures |r| > 0 && r[|r| - 1] == Moment(calls, Evaluate(g, hash, st, a))
    decreases Pending(Mark(st, a)), 2, 0
  {
    BeginningRun(g, calls, st, a)
    + (if g.nodes[a].conditions == BadConditions then
         [Moment(calls, Settled(st, a, st[a].failed))]
       else if ConditionsValue(g, a) == 0 then
         []
       else
         var st2 := Prepared(g, st, a);
         assert Pending(st2) == Pending(Mark(st, a));
         var ids := SuccessorsOf(g, hash, g.nodes[a].keylist);
         VisitRun(g, hash, calls + [a], st2, ids) + EndingRun(g, hash, calls, Visit(g, hash, st2, ids), a))
    + [Moment(calls, Evaluate(g, hash, st, a))]
  }

  function VisitRun(g: Graph, hash: Key -> nat, calls: seq<nat>, st: State, ids: seq<nat>): (r: seq<Moment>)
    requires ValidGraph(g) && ValidState(g, st) && forall i :: 0 <= i < |ids| ==> ids[i] < |st|
    ensures |r| > 0 ==> r[|r| - 1] == Moment(calls, Visit(g, hash, st, ids))
    ensures |r| == 0 ==> Visit(g, hash, st, ids) == st
    decreases Pending(st), 1, |ids|
  {
    if ids == [] then []
    else if st[ids[0]].progress.Untouched? then
      assert Pending(Mark(st, ids[0])) == Pending(st) - {ids[0]};
      EvaluateRun(g, hash, calls, st, ids[0]) + VisitRun(g, hash, calls, Evaluate(g, hash, st, ids[0]), ids[1..])
    else VisitRun(g, hash, calls, st, ids[1..])
  }

  /** The calls are pairwise different, and they are the assertions in progress. */
  ghost predicate CallsAreActive(m: Moment) {
    && (forall i, j :: 0 <= i < j < |m.calls| ==> m.calls[i] != m.calls[j])
    && (forall a: nat :: a in m.calls <==> a in Active(m.cells))
  }

  /** What holds in every state: done assertions are at most their value in `w`, those in
      progress are the active calls, and what was done before is as it was. */
  ghost predicate Good(m: Moment, st: State, w: seq<int>, except: seq<nat>) {
    && Sound(m.cells, w) && CallsAreActive(m) && |m.cells| == |st|
    && (forall b :: 0 <= b < |st| && st[b].progress.Done? && b !in except ==> m.cells[b] == st[b])
  }

  ghost predicate AllGood(run: seq<Moment>, st: State, w: seq<int>, except: seq<nat>) {
    forall i :: 0 <= i < |run| ==> Good(run[i], st, w, except)
  }

  lemma EndOfCall(g: Graph, hash: Key -> nat, calls: seq<nat>, st: State, a: nat, w: seq<int>)
    requires IsPrefixpoint(g, hash, w) && ValidState(g, st) && Sound(st, w) && a < |st|
    requires CallsAreActive(Moment(calls, st)) && a !in calls
    ensures Good(Moment(calls, Evaluate(g, hash, st, a)), st, w, [a])
  {
    hide Evaluate;
    EvaluateSound(g, hash, st, a, w);
    assert a !in Active(st);
  }

  /** Whatever a call writes into its own assertion while that is in progress. */
  lemma WithinCall(calls: seq<nat>, st: State, st2: State, a: nat, w: seq<int>)
    requires |st2| == |st| && Sound(st, w) && a < |st|
    requires CallsAreActive(Moment(calls, st)) && a !in calls
    requires st2[a].progress.InProgress? && st2 == st[a := st2[a]]
    ensures Good(Moment(calls + [a], st2), st, w, [a])
  {
    assert Active(st2) == Active(st) + {a};
  }

  lemma SettledGood(g: Graph, calls: seq<nat>, st: State, a: nat, failed: bool, w: seq<int>)
    requires InRange(g, w) && Sound(st, w) && a < |st|
    requires CallsAreActive(Moment(calls, st)) && a !in calls
    ensures Good(Moment(calls, Settled(st, a, failed)), st, w, [a])
  {
    assert Active(Settled(st, a, failed)) == Active(st) by {
      assert a !in Active(st);
    }
  }

  lemma BeginningGood(g: Graph, calls: seq<nat>, st: State, a: nat, w: seq<int>)
    requires |g.nodes| == |st| && Sound(st, w) && a < |st|
    requires CallsAreActive(Moment(calls, st)) && a !in calls
    ensures AllGood(BeginningRun(g, calls, st, a), st, w, [a])
  {
    hide Good, Sound, CallsAreActive;
    var run := BeginningRun(g, calls, st, a);
    forall i | 0 <= i < |run| ensures Good(run[i], st, w, [a]) {
      WithinCall(calls, st, run[i].cells, a, w);
    }
  }

  /** The end of a call, `st2` being the state after its search. */
  lemma EndingGood(g: Graph, hash: Key -> nat, calls: seq<nat>, st: State, st2: State, a: nat, w: seq<int>)
    requires ValidGraph(g) && a < |st| == |st2| == |g.nodes| && st2[a].progress.InProgress?
    requires Good(Moment(calls + [a], st2), st, w, [a])
    ensures AllGood(EndingRun(g, hash, calls, st2, a), st, w, [a])
  {
    hide LicenseesValue;
    var run := EndingRun(g, hash, calls, st2, a);
    forall i | 0 <= i < |run| ensures Good(run[i], st, w, [a]) {
      StillGood(run[i].calls, st, st2, run[i].cells, a, w);
    }
  }

  lemma StillGood(calls: seq<nat>, st: State, st2: State, st3: State, a: nat, w: seq<int>)
    requires a < |st2| == |st3| && st2[a].progress.InProgress? && st3[a].progress.InProgress? && st3 == st2[a := st3[a]]
    requires Good(Moment(calls, st2), st, w, [a])
    ensures Good(Moment(calls, st3), st, w, [a])
  {
    assert Active(st3) == Active(st2);
  }

  /** At every step of a call on an assertion that is not yet active. */
  lemma {:induction false} EvaluateRunGood(g: Graph, hash: Key -> nat, calls: seq<nat>, st: State, a: nat, w: seq<int>)
    requires IsPrefixpoint(g, hash, w) && ValidState(g, st) && Sound(st, w) && a < |st|
    requires CallsAreActive(Moment(calls, st)) && a !in calls
    ensures AllGood(EvaluateRun(g, hash, calls, st, a), st, w, [a])
    decreases Pending(Mark(st, a)), 2, 0
  {
    hide Good, Visit, Evaluate, Sound, CallsAreActive, LicenseesValue;
    EndOfCall(g, hash, calls, st, a, w);
    BeginningGood(g, calls, st, a, w);
    if g.nodes[a].conditions == BadConditions {
      SettledGood(g, calls, st, a, st[a].failed, w);
    } else if ConditionsValue(g, a) != 0 {
      SearchGood(g, hash, calls, st, a, w);
    }
  }

  /** The middle of a call, its search, and what it writes afterwards. */
  lemma {:induction false} SearchGood(g: Graph, hash: Key -> nat, calls: seq<nat>, st: State, a: nat, w: seq<int>)
    requires IsPrefixpoint(g, hash, w) && ValidState(g, st) && Sound(st, w) && a < |st|
    requires CallsAreActive(Moment(calls, st)) && a !in calls && ConditionsValue(g, a) != 0
    ensures ValidState(g, Prepared(g, st, a))
    ensures var st2 := Prepared(g, st, a);
      var ids := SuccessorsOf(g, hash, g.nodes[a].keylist);
      && AllGood(VisitRun(g, hash, calls + [a], st2, ids), st, w, [a])
      && AllGood(EndingRun(g, hash, calls, Visit(g, hash, st2, ids), a), st, w, [a])
    decreases Pending(Mark(st, a)), 1, |SuccessorsOf(g, hash, g.nodes[a].keylist)| + 1
  {
    hide Good, Visit, Evaluate, Sound, CallsAreActive, LicenseesValue, EndingRun;
    var st2 := Prepared(g, st, a);
    assert Pending(st2) == Pending(Mark(st, a));
    WithinCall(calls, st, st2, a, w);
    GoodParts(Moment(calls + [a], st2), st, w, [a]);
    var ids := SuccessorsOf(g, hash, g.nodes[a].keylist);
    VisitRunGood(g, hash, calls + [a], st2, ids, w);
    Widen(VisitRun(g, hash, calls + [a], st2, ids), st, st2, w, a);
    AfterSearch(VisitRun(g, hash, calls + [a], st2, ids), calls + [a], st, st2, Visit(g, hash, st2, ids), w, a);
    EndingGood(g, hash, calls, st, Visit(g, hash, st2, ids), a, w);
  }

  lemma AfterSearch(run: seq<Moment>, calls: seq<nat>, st: State, st2: State, st3: State, w: seq<int>, a: nat)
    requires AllGood(run, st, w, [a]) && Good(Moment(calls, st2), st, w, [a])
    requires |run| > 0 ==> run[|run| - 1] == Moment(calls, st3)
    requires |run| == 0 ==> st3 == st2
    ensures Good(Moment(calls, st3), st, w, [a])
  {
  }

  lemma GoodParts(m: Moment, st: State, w: seq<int>, except: seq<nat>)
    requires Good(m, st, w, except)
    ensures Sound(m.cells, w) && CallsAreActive(m)
  {
  }

  lemma Widen(run: seq<Moment>, st: State, st2: State, w: seq<int>, a: nat)
    requires AllGood(run, st2, w, []) && |st| == |st2|
    requires forall b :: 0 <= b < |st| && b != a ==> st2[b] == st[b]
    ensures AllGood(run, st, w, [a])
  {
  }

  lemma Narrow(run: seq<Moment>, st: State, st2: State, w: seq<int>, except: seq<nat>)
    requires AllGood(run, st2, w, []) && |st| == |st2|
    requires forall b :: 0 <= b < |st| && st[b].progress.Done? ==> st2[b] == st[b]
    ensures AllGood(run, st, w, except)
  {
  }

  lemma DropUntouched(run: seq<Moment>, st: State, w: seq<int>, a: nat)
    requires AllGood(run, st, w, [a]) && a < |st| && !st[a].progress.Done?
    ensures AllGood(run, st, w, [])
  {
  }

  lemma {:induction false} VisitRunGood(g: Graph, hash: Key -> nat, calls: seq<nat>, st: State, ids: seq<nat>,
      w: seq<int>)
    requires IsPrefixpoint(g, hash, w) && ValidState(g, st) && Sound(st, w)
    requires forall i :: 0 <= i < |ids| ==> ids[i] < |st|
    requires CallsAreActive(Moment(calls, st))
    ensures AllGood(VisitRun(g, hash, calls, st, ids), st, w, [])
    decreases Pending(st), 1, |ids|
  {
    hide Good, Visit, Evaluate, Sound, Equations;
    if ids != [] {
      if st[ids[0]].progress.Untouched? {
        assert Pending(Mark(st, ids[0])) == Pending(st) - {ids[0]};
        assert ids[0] !in Active(st);
        EvaluateRunGood(g, hash, calls, st, ids[0], w);
        DropUntouched(EvaluateRun(g, hash, calls, st, ids[0]), st, w, ids[0]);
        EvaluateSound(g, hash, st, ids[0], w);
        var next := Evaluate(g, hash, st, ids[0]);
        assert Active(next) == Active(st);
        VisitRunGood(g, hash, calls, next, ids[1..], w);
        Narrow(VisitRun(g, hash, calls, next, ids[1..]), st, next, w, []);
      } else {
        VisitRunGood(g, hash, calls, st, ids[1..], w);
      }
    }
  }

  /** All states of the policy loop. */
  function QueryRun(g: Graph, hash: Key -> nat, st: State, ids: seq<nat>, prev: int, valid: nat -> bool,
      i: nat): (r: seq<Moment>)
    requires ValidGraph(g) && ValidState(g, st) && forall j :: 0 <= j < |ids| ==> ids[j] < |st|
    ensures |r| > 0 ==> r[|r| - 1] == Moment([], Query(g, hash, st, ids, prev, valid, i).0)
    ensures |r| == 0 ==> Query(g, hash, st, ids, prev, valid, i).0 == st
    decreases |ids|
  {
    if ids == [] then []
    else
      var st' := Evaluate(g, hash, st, ids[0]);
      var best := Max(prev, st'[ids[0]].result);
      var prev' := if valid(i) then best else 0;
      EvaluateRun(g, hash, [], st, ids[0])
      + (if prev' == g.top then [] else QueryRun(g, hash, st', ids[1..], prev', valid, i + 1))
  }

  lemma MoreExcept(run: seq<Moment>, st: State, st2: State, w: seq<int>, few: seq<nat>, many: seq<nat>)
    requires AllGood(run, st2, w, few) && |st| == |st2| && forall a :: a in few ==> a in many
    requires forall b :: 0 <= b < |st| && b !in many && st[b].progress.Done? ==> st2[b] == st[b]
    ensures AllGood(run, st, w, many)
  {
  }

  /** At every step of every query, on any graph and whatever the delegation check answers:
      every done assertion is at most its value in any solution of the equations, the
      assertions in progress are exactly the active calls, and only a policy is evaluated when
      it is already done. */
  lemma {:induction false} QueryRunGood(g: Graph, hash: Key -> nat, st: State, ids: seq<nat>, prev: int,
      valid: nat -> bool, i: nat, w: seq<int>)
    requires IsPrefixpoint(g, hash, w) && ValidState(g, st) && Sound(st, w) && Active(st) == {}
    requires forall j :: 0 <= j < |ids| ==> ids[j] < |st|
    ensures AllGood(QueryRun(g, hash, st, ids, prev, valid, i), st, w, ids)
    decreases |ids|
  {
    hide Good, Evaluate, Sound, Equations;
    if ids != [] {
      EvaluateRunGood(g, hash, [], st, ids[0], w);
      MoreExcept(EvaluateRun(g, hash, [], st, ids[0]), st, st, w, [ids[0]], ids);
      var st' := Evaluate(g, hash, st, ids[0]);
      EvaluateSound(g, hash, st, ids[0], w);
      var best := Max(prev, st'[ids[0]].result);
      var prev' := if valid(i) then best else 0;
      if prev' != g.top {
        QueryRunGood(g, hash, st', ids[1..], prev', valid, i + 1, w);
        MoreExcept(QueryRun(g, hash, st', ids[1..], prev', valid, i + 1), st, st', w, ids[1..], ids);
      }
    }
  }

  // ----- the moments are single writes -----

  predicate OneField(c: Cell, d: Cell) {
    d in {c.(progress := d.progress), c.(result := d.result), c.(signature := d.signature), c.(failed := d.failed)}
  }

  /** Nothing, or one field of one assertion. */
  ghost predicate OneWrite(st: State, st': State) {
    && |st'| == |st|
    && (st' == st || exists a: nat :: a < |st| && st' == st[a := st'[a]] && OneField(st[a], st'[a]))
  }

  function LastCells(st: State, run: seq<Moment>): State {
    if run == [] then st else run[|run| - 1].cells
  }

  function Before(st: State, run: seq<Moment>, i: nat): State
    requires i < |run|
  {
    if i == 0 then st else run[i - 1].cells
  }

  ghost predicate SingleWrites(st: State, run: seq<Moment>) {
    forall i :: 0 <= i < |run| ==> OneWrite(Before(st, run, i), run[i].cells)
  }

  lemma ConcatAt(st: State, first: seq<Moment>, second: seq<Moment>, i: nat)
    requires i < |first| + |second|
    ensures Before(st, first + second, i) ==
      if i < |first| then Before(st, first, i) else Before(LastCells(st, first), second, i - |first|)
  {
  }

  lemma SingleConcat(st: State, first: seq<Moment>, second: seq<Moment>)
    requires SingleWrites(st, first) && SingleWrites(LastCells(st, first), second)
    ensures SingleWrites(st, first + second)
    ensures LastCells(st, first + second) == LastCells(LastCells(st, first), second)
  {
    hide OneWrite, Before;
    var run := first + second;
    forall i | 0 <= i < |run| ensures OneWrite(Before(st, run, i), run[i].cells) {
      ConcatAt(st, first, second, i);
    }
  }

  lemma WriteOne(st: State, st': State, a: nat)
    requires a < |st| == |st'| && st' == st[a := st'[a]] && OneField(st[a], st'[a])
    ensures OneWrite(st, st')
  {
  }

  lemma SingleMoment(st: State, m: Moment, a: nat)
    requires a < |st| == |m.cells| && m.cells == st[a := m.cells[a]] && OneField(st[a], m.cells[a])
    ensures SingleWrites(st, [m])
  {
  }

  lemma BeginningSingle(g: Graph, calls: seq<nat>, st: State, a: nat)
    requires a < |st| == |g.nodes|
    ensures SingleWrites(st, BeginningRun(g, calls, st, a))
  {
    hide OneWrite;
    var run := BeginningRun(g, calls, st, a);
    forall i | 0 <= i < |run| ensures OneWrite(Before(st, run, i), run[i].cells) {
      WriteOne(Before(st, run, i), run[i].cells, a);
    }
  }

  lemma EndingSingle(g: Graph, hash: Key -> nat, calls: seq<nat>, st: State, a: nat)
    requires ValidGraph(g) && ValidState(g, st) && a < |st|
    ensures SingleWrites(st, EndingRun(g, hash, calls, st, a))
    ensures OneWrite(LastCells(st, EndingRun(g, hash, calls, st, a)), Finish(g, hash, st, a))
  {
    hide OneWrite, LicenseesValue;
    var run := EndingRun(g, hash, calls, st, a);
    forall i | 0 <= i < |run| ensures OneWrite(Before(st, run, i), run[i].cells) {
      WriteOne(Before(st, run, i), run[i].cells, a);
    }
    WriteOne(LastCells(st, run), Finish(g, hash, st, a), a);
  }

  /** No two writes of a call are taken together. */
  lemma {:induction false} EvaluateRunSingle(g: Graph, hash: Key -> nat, calls: seq<nat>, st: State, a: nat)
    requires ValidGraph(g) && ValidState(g, st) && a < |st|
    ensures SingleWrites(st, EvaluateRun(g, hash, calls, st, a))
    decreases Pending(Mark(st, a)), 2, 0
  {
    hide OneWrite, SingleWrites, Visit, Evaluate, EndingRun, LicenseesValue;
    var beginning := BeginningRun(g, calls, st, a);
    var last := Moment(calls, Evaluate(g, hash, st, a));
    BeginningSingle(g, calls, st, a);
    if g.nodes[a].conditions == BadConditions {
      BadSingle(g, hash, calls, st, a);
      SingleConcat(st, beginning, [Moment(calls, Settled(st, a, st[a].failed))]);
      SingleConcat(st, beginning + [Moment(calls, Settled(st, a, st[a].failed))], [last]);
    } else if ConditionsValue(g, a) == 0 {
      WorthlessSingle(g, hash, calls, st, a);
      SingleConcat(st, beginning, [last]);
      assert beginning + [] == beginning;
    } else {
      var st2 := Prepared(g, st, a);
      assert Pending(st2) == Pending(Mark(st, a));
      var ids := SuccessorsOf(g, hash, g.nodes[a].keylist);
      var st3 := Visit(g, hash, st2, ids);
      var search, ending := VisitRun(g, hash, calls + [a], st2, ids), EndingRun(g, hash, calls, st3, a);
      VisitRunSingle(g, hash, calls + [a], st2, ids);
      EndingSingle(g, hash, calls, st3, a);
      SingleConcat(st2, search, ending);
      SingleConcat(st, beginning, search + ending);
      EvaluateFinishes(g, hash, st, a);
      OneMoment(LastCells(st3, ending), last);
      SingleConcat(st, beginning + (search + ending), [last]);
    }
  }

  lemma OneMoment(st: State, m: Moment)
    requires OneWrite(st, m.cells)
    ensures SingleWrites(st, [m])
  {
  }

  lemma EvaluateFinishes(g: Graph, hash: Key -> nat, st: State, a: nat)
    requires ValidGraph(g) && ValidState(g, st) && a < |st|
    requires g.nodes[a].conditions != BadConditions && ConditionsValue(g, a) != 0
    ensures ValidState(g, Prepared(g, st, a))
    ensures Evaluate(g, hash, st, a) ==
      Finish(g, hash, Visit(g, hash, Prepared(g, st, a), SuccessorsOf(g, hash, g.nodes[a].keylist)), a)
  {
    hide Visit, Finish;
  }

  lemma BadSingle(g: Graph, hash: Key -> nat, calls: seq<nat>, st: State, a: nat)
    requires ValidGraph(g) && ValidState(g, st) && a < |st| && g.nodes[a].conditions == BadConditions
    ensures SingleWrites(Prepared(g, st, a), [Moment(calls, Settled(st, a, st[a].failed))])
    ensures SingleWrites(Settled(st, a, st[a].failed), [Moment(calls, Evaluate(g, hash, st, a))])
  {
    SingleMoment(Prepared(g, st, a), Moment(calls, Settled(st, a, st[a].failed)), a);
    SingleMoment(Settled(st, a, st[a].failed), Moment(calls, Evaluate(g, hash, st, a)), a);
  }

  lemma WorthlessSingle(g: Graph, hash: Key -> nat, calls: seq<nat>, st: State, a: nat)
    requires ValidGraph(g) && ValidState(g, st) && a < |st|
    requires g.nodes[a].conditions != BadConditions && ConditionsValue(g, a) == 0
    ensures SingleWrites(Prepared(g, st, a), [Moment(calls, Evaluate(g, hash, st, a))])
  {
    SingleMoment(Prepared(g, st, a), Moment(calls, Evaluate(g, hash, st, a)), a);
  }

  lemma {:induction false} VisitRunSingle(g: Graph, hash: Key -> nat, calls: seq<nat>, st: State, ids: seq<nat>)
    requires ValidGraph(g) && ValidState(g, st) && forall i :: 0 <= i < |ids| ==> ids[i] < |st|
    ensures SingleWrites(st, VisitRun(g, hash, calls, st, ids))
    decreases Pending(st), 1, |ids|
  {
    hide OneWrite, Visit, Evaluate;
    if ids != [] {
      if st[ids[0]].progress.Untouched? {
        assert Pending(Mark(st, ids[0])) == Pending(st) - {ids[0]};
        EvaluateRunSingle(g, hash, calls, st, ids[0]);
        var next := Evaluate(g, hash, st, ids[0]);
        VisitRunSingle(g, hash, calls, next, ids[1..]);
        SingleConcat(st, EvaluateRun(g, hash, calls, st, ids[0]), VisitRun(g, hash, calls, next, ids[1..]));
      } else {
        VisitRunSingle(g, hash, calls, st, ids[1..]);
      }
    }
  }

  /** The run of a query shows every state between two writes of `rec_evaluate_query`. */
  lemma {:induction false} QueryRunSingle(g: Graph, hash: Key -> nat, st: State, ids: seq<nat>, prev: int,
      valid: nat -> bool, i: nat)
    requires ValidGraph(g) && ValidState(g, st) && forall j :: 0 <= j < |ids| ==> ids[j] < |st|
    ensures SingleWrites(st, QueryRun(g, hash, st, ids, prev, valid, i))
    decreases |ids|
  {
    hide OneWrite, Evaluate, SingleWrites;
    if ids == [] {
      NoWrites(st);
    } else {
      EvaluateRunSingle(g, hash, [], st, ids[0]);
      var st' := Evaluate(g, hash, st, ids[0]);
      var best := Max(prev, st'[ids[0]].result);
      var prev' := if valid(i) then best else 0;
      if prev' != g.top {
        QueryRunSingle(g, hash, st', ids[1..], prev', valid, i + 1);
        SingleConcat(st, EvaluateRun(g, hash, [], st, ids[0]), QueryRun(g, hash, st', ids[1..], prev', valid, i + 1));
      } else {
        assert QueryRun(g, hash, st, ids, prev, valid, i) == EvaluateRun(g, hash, [], st, ids[0]);
      }
    }
  }

  lemma NoWrites(st: State)
    ensures SingleWrites(st, [])
  {
  }

  // ----- how often an assertion is evaluated -----

  /** The assertions on which one call makes `rec_evaluate_query` run, in order. */
  function EvaluateCalls(g: Graph, hash: Key -> nat, st: State, a: nat): (r: seq<nat>)
    requires ValidGraph(g) && ValidState(g, st) && a < |st|
    decreases Pending(Mark(st, a)), 2, 0
  {
    if g.nodes[a].conditions == BadConditions || ConditionsValue(g, a) == 0 then [a]
    else
      var st2 := Prepared(g, st, a);
      assert Pending(st2) == Pending(Mark(st, a));
      [a] + VisitCalls(g, hash, st2, SuccessorsOf(g, hash, g.nodes[a].keylist))
  }

  function VisitCalls(g: Graph, hash: Key -> nat, st: State, ids: seq<nat>): (r: seq<nat>)
    requires ValidGraph(g) && ValidState(g, st) && forall i :: 0 <= i < |ids| ==> ids[i] < |st|
    decreases Pending(st), 1, |ids|
  {
    if ids == [] then []
    else if st[ids[0]].progress.Untouched? then
      assert Pending(Mark(st, ids[0])) == Pending(st) - {ids[0]};
      EvaluateCalls(g, hash, st, ids[0]) + VisitCalls(g, hash, Evaluate(g, hash, st, ids[0]), ids[1..])
    else VisitCalls(g, hash, st, ids[1..])
  }

  function QueryCalls(g: Graph, hash: Key -> nat, st: State, ids: seq<nat>, prev: int, valid: nat -> bool,
      i: nat): (r: seq<nat>)
    requires ValidGraph(g) && ValidState(g, st) && forall j :: 0 <= j < |ids| ==> ids[j] < |st|
    decreases |ids|
  {
    if ids == [] then []
    else
      var st' := Evaluate(g, hash, st, ids[0]);
      var best := Max(prev, st'[ids[0]].result);
      var prev' := if valid(i) then best else 0;
      EvaluateCalls(g, hash, st, ids[0])
      + (if prev' == g.top then [] else QueryCalls(g, hash, st', ids[1..], prev', valid, i + 1))
  }

  /** Called at most once, and then untouched before and not after; never untouched again. */
  ghost predicate CalledOnce(calls: seq<nat>, before: State, after: State, b: nat) {
    && |after| == |before| && multiset(calls)[b] <= 1
    && (b < |before| && !before[b].progress.Untouched? ==> !after[b].progress.Untouched?)
    && (b in calls ==> b < |before| && before[b].progress.Untouched? && !after[b].progress.Untouched?)
  }

  lemma {:induction false} EvaluateCallsOnce(g: Graph, hash: Key -> nat, st: State, a: nat, b: nat)
    requires ValidGraph(g) && ValidState(g, st) && a < |st|
    ensures b != a ==> CalledOnce(EvaluateCalls(g, hash, st, a), st, Evaluate(g, hash, st, a), b)
    ensures multiset(EvaluateCalls(g, hash, st, a))[a] == 1
    decreases Pending(Mark(st, a)), 2, 0
  {
    if g.nodes[a].conditions != BadConditions && ConditionsValue(g, a) != 0 {
      var st2 := Prepared(g, st, a);
      assert Pending(st2) == Pending(Mark(st, a));
      VisitCallsOnce(g, hash, st2, SuccessorsOf(g, hash, g.nodes[a].keylist), b);
      VisitCallsOnce(g, hash, st2, SuccessorsOf(g, hash, g.nodes[a].keylist), a);
    }
  }

  lemma CalledTwice(first: seq<nat>, second: seq<nat>, st: State, st2: State, st3: State, b: nat)
    requires CalledOnce(first, st, st2, b) && CalledOnce(second, st2, st3, b)
    ensures CalledOnce(first + second, st, st3, b)
  {
    assert multiset(first + second) == multiset(first) + multiset(second);
  }

  lemma {:induction false} VisitCallsOnce(g: Graph, hash: Key -> nat, st: State, ids: seq<nat>, b: nat)
    requires ValidGraph(g) && ValidState(g, st) && forall i :: 0 <= i < |ids| ==> ids[i] < |st|
    ensures CalledOnce(VisitCalls(g, hash, st, ids), st, Visit(g, hash, st, ids), b)
    decreases Pending(st), 1, |ids|
  {
    hide CalledOnce, Evaluate;
    if ids == [] {
      NoCalls(st, b);
    } else if st[ids[0]].progress.Untouched? {
      assert Pending(Mark(st, ids[0])) == Pending(st) - {ids[0]};
      EvaluateCallsOnce(g, hash, st, ids[0], b);
      var next := Evaluate(g, hash, st, ids[0]);
      CalledItself(EvaluateCalls(g, hash, st, ids[0]), st, next, ids[0]);
      VisitCallsOnce(g, hash, next, ids[1..], b);
      CalledTwice(EvaluateCalls(g, hash, st, ids[0]), VisitCalls(g, hash, next, ids[1..]), st, next,
        Visit(g, hash, next, ids[1..]), b);
    } else {
      VisitCallsOnce(g, hash, st, ids[1..], b);
    }
  }

  lemma NoCalls(st: State, b: nat)
    ensures CalledOnce([], st, st, b)
  {
  }

  lemma CalledItself(calls: seq<nat>, st: State, next: State, a: nat)
    requires multiset(calls)[a] == 1 && a < |st| == |next|
    requires st[a].progress.Untouched? && next[a].progress.Done?
    ensures CalledOnce(calls, st, next, a)
  {
  }

  /** In one query every assertion that is not a policy is evaluated at most once. */
  lemma {:induction false} EvaluatedAtMostOnce(g: Graph, hash: Key -> nat, st: State, ids: seq<nat>, prev: int,
      valid: nat -> bool, i: nat, b: nat)
    requires ValidGraph(g) && ValidState(g, st) && forall j :: 0 <= j < |ids| ==> ids[j] < |st|
    requires b !in ids
    ensures CalledOnce(QueryCalls(g, hash, st, ids, prev, valid, i), st, Query(g, hash, st, ids, prev, valid, i).0, b)
    decreases |ids|
  {
    hide CalledOnce, Evaluate;
    if ids == [] {
      NoCalls(st, b);
    } else {
      var st' := Evaluate(g, hash, st, ids[0]);
      var calls := EvaluateCalls(g, hash, st, ids[0]);
      EvaluateCallsOnce(g, hash, st, ids[0], b);
      assert calls + [] == calls;
      var best := Max(prev, st'[ids[0]].result);
      var prev' := if valid(i) then best else 0;
      if prev' != g.top {
        EvaluatedAtMostOnce(g, hash, st', ids[1..], prev', valid, i + 1, b);
        CalledTwice(calls, QueryCalls(g, hash, st', ids[1..], prev', valid, i + 1), st, st',
          Query(g, hash, st, ids, prev, valid, i).0, b);
      }
    }
  }
}
