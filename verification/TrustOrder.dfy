/** The order in which the search visits assertions depends on who signed and who lists what, as long
    as no Conditions field is worthless: what is touched first, and that all an assertion lists is
    touched when it is done. */
module TrustOrder {
  import opened Options
  import opened TrustGraph
  import opened TrustSearch
  import opened TrustExactness

  // ----- the same order -----

  /** The same assertions by the same signers, in the same places. */
  ghost predicate SameSigners(g: Graph, g': Graph) {
    && |g'.nodes| == |g.nodes| && g'.table == g.table && g'.authorizers == g.authorizers && g'.top == g.top
    && (forall a :: 0 <= a < |g.nodes| ==>
         g'.nodes[a].authorizer == g.nodes[a].authorizer && g'.nodes[a].local == g.nodes[a].local)
  }

  /** Every assertion leads to the same ones, in the same order. */
  ghost predicate SameOrder(g: Graph, g': Graph, hash: Key -> nat) {
    && ValidGraph(g) && ValidGraph(g') && SameSigners(g, g')
    && (forall a: nat :: a < |g.nodes| ==> Successors(g', hash, a) == Successors(g, hash, a))
  }

  lemma SameSigned(g: Graph, g': Graph, a: nat, key: Key)
    requires SameSigners(g, g') && a < |g.nodes|
    ensures SignedBy(g', a, key) == SignedBy(g, a, key) && Authorized(g', key) == Authorized(g, key)
  {
  }

  lemma {:induction false} SameSelect(g: Graph, g': Graph, bucket: seq<nat>, key: Key)
    requires SameSigners(g, g') && forall i :: 0 <= i < |bucket| ==> bucket[i] < |g.nodes|
    ensures Select(g', bucket, key) == Select(g, bucket, key)
  {
    if bucket != [] {
      SameSigned(g, g', bucket[0], key);
      SameSelect(g, g', bucket[1..], key);
    }
  }

  /** Equal key lists lead to the same assertions. */
  lemma {:induction false} SameSuccessors(g: Graph, g': Graph, hash: Key -> nat, keylist: seq<KeyEntry>)
    requires SameSigners(g, g') && ValidGraph(g) && ValidGraph(g')
    ensures SuccessorsOf(g', hash, keylist) == SuccessorsOf(g, hash, keylist)
  {
    if keylist != [] {
      var key := keylist[0].key;
      if hash(key) < |g.table| {
        SameSelect(g, g', g.table[hash(key)], key);
      }
      SameSuccessors(g, g', hash, keylist[1..]);
    }
  }

  lemma SameIndex(g: Graph, g': Graph, hash: Key -> nat)
    requires SameSigners(g, g') && IndexComplete(g, hash) && ValidGraph(g')
    ensures IndexComplete(g', hash)
  {
    forall a | 0 <= a < |g'.nodes| ensures Listed(g', a) {
      assert Listed(g, a);
    }
  }

  lemma {:induction false} EntryIsSuccessor(g: Graph, hash: Key -> nat, keylist: seq<KeyEntry>, i: nat, b: nat)
    requires ValidGraph(g) && i < |keylist| && !Authorized(g, keylist[i].key) && b in FindAll(g, hash, keylist[i].key)
    ensures b in SuccessorsOf(g, hash, keylist)
  {
    if i > 0 {
      EntryIsSuccessor(g, hash, keylist[1..], i - 1, b);
    }
  }

  /** What an assertion rests on is what the search goes on to from it. */
  lemma RestsIsSuccessor(g: Graph, hash: Key -> nat, a: nat, b: nat)
    requires IndexComplete(g, hash) && a < |g.nodes| && b < |g.nodes|
    ensures ValidGraph(g) && (RestsOn(g, a, b) <==> b in Successors(g, hash, a))
  {
    hide Authorized, SignedBy, FindAll;
    if RestsOn(g, a, b) {
      var i :| 0 <= i < |g.nodes[a].keylist|
        && !Authorized(g, g.nodes[a].keylist[i].key) && SignedBy(g, b, g.nodes[a].keylist[i].key);
      IndexAgreesWithScan(g, hash, g.nodes[a].keylist[i].key, b);
      EntryIsSuccessor(g, hash, g.nodes[a].keylist, i, b);
    }
    if b in Successors(g, hash, a) {
      SuccessorIsSigned(g, hash, g.nodes[a].keylist, b);
    }
  }

  lemma SameRests(g: Graph, g': Graph, hash: Key -> nat, a: nat, b: nat)
    requires SameOrder(g, g', hash) && IndexComplete(g, hash) && a < |g.nodes| && b < |g.nodes|
    ensures RestsOn(g', a, b) == RestsOn(g, a, b)
  {
    hide RestsOn, IndexComplete, Successors;
    SameIndex(g, g', hash);
    RestsIsSuccessor(g, hash, a, b);
    RestsIsSuccessor(g', hash, a, b);
  }

  // ----- what is touched -----

  /** No Conditions field settles an assertion. */
  ghost predicate Open(g: Graph) {
    ValidGraph(g) && forall a :: 0 <= a < |g.nodes| ==> ConditionsValue(g, a) > 0
  }

  ghost predicate SameProgress(st: State, st': State) {
    |st'| == |st| && forall a :: 0 <= a < |st| ==> st'[a].progress == st[a].progress
  }

  ghost predicate AllUntouched(st: State, c: set<nat>) {
    forall a :: a in c && a < |st| ==> st[a].progress.Untouched?
  }

  /** The first member of `c` on which a call of `rec_evaluate_query` on `a` makes it run. */
  ghost function FirstOf(g: Graph, hash: Key -> nat, st: State, a: nat, c: set<nat>): Option<nat>
    requires ValidGraph(g) && ValidState(g, st) && a < |st|
    decreases Pending(Mark(st, a)), 2, 0
  {
    if a in c then Some(a)
    else if g.nodes[a].conditions == BadConditions || ConditionsValue(g, a) == 0 then None
    else
      var st2 := Prepared(g, st, a);
      assert Pending(st2) == Pending(Mark(st, a));
      FirstVisit(g, hash, st2, Successors(g, hash, a), c)
  }

  ghost function FirstVisit(g: Graph, hash: Key -> nat, st: State, ids: seq<nat>, c: set<nat>): Option<nat>
    requires ValidGraph(g) && ValidState(g, st) && forall i :: 0 <= i < |ids| ==> ids[i] < |st|
    decreases Pending(st), 1, |ids|
  {
    if ids == [] then None
    else if st[ids[0]].progress.Untouched? then
      assert Pending(Mark(st, ids[0])) == Pending(st) - {ids[0]};
      match FirstOf(g, hash, st, ids[0], c)
      case Some(x) => Some(x)
      case None => FirstVisit(g, hash, Evaluate(g, hash, st, ids[0]), ids[1..], c)
    else FirstVisit(g, hash, st, ids[1..], c)
  }

  lemma OpenCall(g: Graph, hash: Key -> nat, st: State, a: nat)
    requires Open(g) && ValidState(g, st) && a < |st|
    ensures ConditionsValue(g, a) > 0 && g.nodes[a].conditions != BadConditions
    ensures ValidState(g, Prepared(g, st, a)) && Pending(Prepared(g, st, a)) == Pending(Mark(st, a))
    ensures Evaluate(g, hash, st, a) == Finish(g, hash, Visit(g, hash, Prepared(g, st, a), Successors(g, hash, a)), a)
  {
    hide Visit, Finish, Successors;
    EvaluateIs(g, hash, st, a);
  }

  /** What the fields say makes no difference to what is touched, as long as the order is the same. */
  lemma {:induction false} SameEvaluate(g: Graph, g': Graph, hash: Key -> nat, st: State, st': State, a: nat,
      c: set<nat>)
    requires SameOrder(g, g', hash) && Open(g) && Open(g') && ValidState(g, st) && ValidState(g', st')
    requires SameProgress(st, st') && a < |st|
    ensures SameProgress(Evaluate(g, hash, st, a), Evaluate(g', hash, st', a))
    ensures FirstOf(g', hash, st', a, c) == FirstOf(g, hash, st, a, c)
    decreases Pending(Mark(st, a)), 2, 0
  {
    hide Evaluate, Visit, LicenseesValue;
    OpenCall(g, hash, st, a);
    OpenCall(g', hash, st', a);
    SameVisit(g, g', hash, Prepared(g, st, a), Prepared(g', st', a), Successors(g, hash, a), c);
  }

  lemma SameSizes(g: Graph, g': Graph, hash: Key -> nat)
    requires SameOrder(g, g', hash) && Open(g) && Open(g')
    ensures ValidGraph(g) && ValidGraph(g') && |g'.nodes| == |g.nodes|
  {
  }

  lemma {:induction false} SameVisit(g: Graph, g': Graph, hash: Key -> nat, st: State, st': State, ids: seq<nat>,
      c: set<nat>)
    requires SameOrder(g, g', hash) && Open(g) && Open(g') && ValidState(g, st) && ValidState(g', st')
    requires SameProgress(st, st') && forall i :: 0 <= i < |ids| ==> ids[i] < |st|
    ensures SameProgress(Visit(g, hash, st, ids), Visit(g', hash, st', ids))
    ensures FirstVisit(g', hash, st', ids, c) == FirstVisit(g, hash, st, ids, c)
    decreases Pending(st), 1, |ids|
  {
    hide Evaluate, FirstOf, Open, SameOrder;
    SameSizes(g, g', hash);
    if ids != [] {
      if st[ids[0]].progress.Untouched? {
        assert Pending(Mark(st, ids[0])) == Pending(st) - {ids[0]};
        SameEvaluate(g, g', hash, st, st', ids[0], c);
        SameVisit(g, g', hash, Evaluate(g, hash, st, ids[0]), Evaluate(g', hash, st', ids[0]), ids[1..], c);
      } else {
        SameVisit(g, g', hash, st, st', ids[1..], c);
      }
    }
  }

  /** A call that meets no member of `c` leaves them untouched. */
  lemma {:induction false} EvaluateLeaves(g: Graph, hash: Key -> nat, st: State, a: nat, c: set<nat>)
    requires Open(g) && ValidState(g, st) && a < |st| && AllUntouched(st, c) && FirstOf(g, hash, st, a, c) == None
    ensures AllUntouched(Evaluate(g, hash, st, a), c)
    decreases Pending(Mark(st, a)), 2, 0
  {
    hide Evaluate, Visit, LicenseesValue;
    OpenCall(g, hash, st, a);
    VisitLeaves(g, hash, Prepared(g, st, a), Successors(g, hash, a), c);
  }

  lemma {:induction false} VisitLeaves(g: Graph, hash: Key -> nat, st: State, ids: seq<nat>, c: set<nat>)
    requires Open(g) && ValidState(g, st) && (forall i :: 0 <= i < |ids| ==> ids[i] < |st|)
    requires AllUntouched(st, c) && FirstVisit(g, hash, st, ids, c) == None
    ensures AllUntouched(Visit(g, hash, st, ids), c)
    decreases Pending(st), 1, |ids|
  {
    hide Evaluate, FirstOf;
    if ids != [] {
      if st[ids[0]].progress.Untouched? {
        assert Pending(Mark(st, ids[0])) == Pending(st) - {ids[0]};
        EvaluateLeaves(g, hash, st, ids[0], c);
        VisitLeaves(g, hash, Evaluate(g, hash, st, ids[0]), ids[1..], c);
      } else {
        VisitLeaves(g, hash, st, ids[1..], c);
      }
    }
  }

  lemma {:induction false} EvaluateFirst(g: Graph, hash: Key -> nat, st: State, a: nat, c: set<nat>, x: nat)
    requires Open(g) && ValidState(g, st) && a < |st| && FirstOf(g, hash, st, a, c) == Some(x)
    ensures x < |st| && x in c && !Evaluate(g, hash, st, a)[x].progress.Untouched?
    decreases Pending(Mark(st, a)), 2, 0
  {
    hide Evaluate, Visit, LicenseesValue;
    OpenCall(g, hash, st, a);
    if a !in c {
      VisitFirst(g, hash, Prepared(g, st, a), Successors(g, hash, a), c, x);
    }
  }

  lemma {:induction false} VisitFirst(g: Graph, hash: Key -> nat, st: State, ids: seq<nat>, c: set<nat>, x: nat)
    requires Open(g) && ValidState(g, st) && (forall i :: 0 <= i < |ids| ==> ids[i] < |st|)
    requires FirstVisit(g, hash, st, ids, c) == Some(x)
    ensures x < |st| && x in c && !Visit(g, hash, st, ids)[x].progress.Untouched?
    decreases Pending(st), 1, |ids|
  {
    hide Evaluate, FirstOf;
    if st[ids[0]].progress.Untouched? {
      assert Pending(Mark(st, ids[0])) == Pending(st) - {ids[0]};
      var next := Evaluate(g, hash, st, ids[0]);
      if FirstOf(g, hash, st, ids[0], c) == None {
        VisitFirst(g, hash, next, ids[1..], c, x);
      } else {
        EvaluateFirst(g, hash, st, ids[0], c, x);
      }
    } else {
      VisitFirst(g, hash, st, ids[1..], c, x);
    }
  }

  ghost predicate Touched(st: State, ids: seq<nat>) {
    forall i :: 0 <= i < |ids| ==> ids[i] < |st| && !st[ids[i]].progress.Untouched?
  }

  /** Whatever is newly touched between two states has had its successors touched. */
  ghost predicate Closed(g: Graph, hash: Key -> nat, st: State, st': State)
    requires ValidGraph(g) && |st| == |st'| == |g.nodes|
  {
    forall b :: 0 <= b < |st| && st[b].progress.Untouched? && !st'[b].progress.Untouched? ==>
      Touched(st', Successors(g, hash, b))
  }

  ghost predicate StayTouched(st: State, st': State) {
    |st'| == |st| && forall b :: 0 <= b < |st| && !st[b].progress.Untouched? ==> !st'[b].progress.Untouched?
  }

  lemma TouchedLater(st: State, st': State, ids: seq<nat>)
    requires Touched(st, ids) && StayTouched(st, st')
    ensures Touched(st', ids)
  {
  }

  lemma ClosedThen(g: Graph, hash: Key -> nat, st: State, st2: State, st3: State)
    requires ValidGraph(g) && |st| == |st2| == |st3| == |g.nodes|
    requires Closed(g, hash, st, st2) && Closed(g, hash, st2, st3) && StayTouched(st2, st3)
    ensures Closed(g, hash, st, st3)
  {
    hide Touched, Successors;
    forall b | 0 <= b < |st| && st[b].progress.Untouched? && !st3[b].progress.Untouched?
      ensures Touched(st3, Successors(g, hash, b))
    {
      if !st2[b].progress.Untouched? {
        TouchedLater(st2, st3, Successors(g, hash, b));
      }
    }
  }

  lemma EvaluateStays(g: Graph, hash: Key -> nat, st: State, a: nat)
    requires ValidGraph(g) && ValidState(g, st) && a < |st|
    ensures StayTouched(st, Evaluate(g, hash, st, a))
  {
    hide Evaluate;
  }

  lemma {:induction false} EvaluateCloses(g: Graph, hash: Key -> nat, st: State, a: nat)
    requires Open(g) && ValidState(g, st) && a < |st|
    ensures Closed(g, hash, st, Evaluate(g, hash, st, a)) && Touched(Evaluate(g, hash, st, a), Successors(g, hash, a))
    decreases Pending(Mark(st, a)), 2, 0
  {
    hide Evaluate, Visit, LicenseesValue, Touched, Successors;
    OpenCall(g, hash, st, a);
    var st2, ids := Prepared(g, st, a), Successors(g, hash, a);
    var st3 := Visit(g, hash, st2, ids);
    VisitCloses(g, hash, st2, ids);
    var st4 := Finish(g, hash, st3, a);
    forall b | 0 <= b < |st| && !st4[b].progress.Untouched? && st[b].progress.Untouched?
      ensures Touched(st4, Successors(g, hash, b))
    {
      TouchedLater(st3, st4, Successors(g, hash, b));
    }
    TouchedLater(st3, st4, ids);
  }

  lemma ClosedSame(g: Graph, hash: Key -> nat, st: State)
    requires ValidGraph(g) && |st| == |g.nodes|
    ensures Closed(g, hash, st, st)
  {
  }

  lemma {:induction false} VisitCloses(g: Graph, hash: Key -> nat, st: State, ids: seq<nat>)
    requires Open(g) && ValidState(g, st) && (forall i :: 0 <= i < |ids| ==> ids[i] < |st|)
    ensures Closed(g, hash, st, Visit(g, hash, st, ids)) && Touched(Visit(g, hash, st, ids), ids)
    decreases Pending(st), 1, |ids|
  {
    hide Evaluate, Closed;
    if ids == [] {
      ClosedSame(g, hash, st);
    } else if st[ids[0]].progress.Untouched? {
      assert Pending(Mark(st, ids[0])) == Pending(st) - {ids[0]};
      var next := Evaluate(g, hash, st, ids[0]);
      EvaluateCloses(g, hash, st, ids[0]);
      VisitCloses(g, hash, next, ids[1..]);
      ClosedThen(g, hash, st, next, Visit(g, hash, next, ids[1..]));
    } else {
      VisitCloses(g, hash, st, ids[1..]);
    }
  }

  // ----- all policies in turn -----

  ghost function EvaluateAll(g: Graph, hash: Key -> nat, st: State, ids: seq<nat>): (r: State)
    requires ValidGraph(g) && ValidState(g, st) && forall i :: 0 <= i < |ids| ==> ids[i] < |st|
    ensures |r| == |st| && ValidState(g, r)
    decreases |ids|
  {
    if ids == [] then st else EvaluateAll(g, hash, Evaluate(g, hash, st, ids[0]), ids[1..])
  }

  ghost function FirstAll(g: Graph, hash: Key -> nat, st: State, ids: seq<nat>, c: set<nat>): Option<nat>
    requires ValidGraph(g) && ValidState(g, st) && forall i :: 0 <= i < |ids| ==> ids[i] < |st|
    decreases |ids|
  {
    if ids == [] then None
    else match FirstOf(g, hash, st, ids[0], c)
      case Some(x) => Some(x)
      case None => FirstAll(g, hash, Evaluate(g, hash, st, ids[0]), ids[1..], c)
  }

  lemma {:induction false} SameAll(g: Graph, g': Graph, hash: Key -> nat, st: State, st': State, ids: seq<nat>,
      c: set<nat>)
    requires SameOrder(g, g', hash) && Open(g) && Open(g') && ValidState(g, st) && ValidState(g', st')
    requires SameProgress(st, st') && forall i :: 0 <= i < |ids| ==> ids[i] < |st|
    ensures FirstAll(g', hash, st', ids, c) == FirstAll(g, hash, st, ids, c)
    decreases |ids|
  {
    hide Evaluate, FirstOf;
    if ids != [] {
      SameEvaluate(g, g', hash, st, st', ids[0], c);
      SameAll(g, g', hash, Evaluate(g, hash, st, ids[0]), Evaluate(g', hash, st', ids[0]), ids[1..], c);
    }
  }

  lemma {:induction false} AllLeaves(g: Graph, hash: Key -> nat, st: State, ids: seq<nat>, c: set<nat>)
    requires Open(g) && ValidState(g, st) && (forall i :: 0 <= i < |ids| ==> ids[i] < |st|)
    requires AllUntouched(st, c) && FirstAll(g, hash, st, ids, c) == None
    ensures AllUntouched(EvaluateAll(g, hash, st, ids), c)
    decreases |ids|
  {
    hide Evaluate, FirstOf;
    if ids != [] {
      EvaluateLeaves(g, hash, st, ids[0], c);
      AllLeaves(g, hash, Evaluate(g, hash, st, ids[0]), ids[1..], c);
    }
  }

  /** In the end the policies and all that is listed by something touched are touched. */
  lemma {:induction false} AllCloses(g: Graph, hash: Key -> nat, st: State, ids: seq<nat>)
    requires Open(g) && ValidState(g, st) && (forall i :: 0 <= i < |ids| ==> ids[i] < |st|)
    ensures var r := EvaluateAll(g, hash, st, ids);
      Closed(g, hash, st, r) && StayTouched(st, r) && forall i :: 0 <= i < |ids| ==>
        !r[ids[i]].progress.Untouched? && Touched(r, Successors(g, hash, ids[i]))
    decreases |ids|
  {
    hide Evaluate, Closed, Touched, Successors;
    if ids == [] {
      ClosedSame(g, hash, st);
    } else {
      var next := Evaluate(g, hash, st, ids[0]);
      EvaluateCloses(g, hash, st, ids[0]);
      EvaluateStays(g, hash, st, ids[0]);
      AllCloses(g, hash, next, ids[1..]);
      var r := EvaluateAll(g, hash, next, ids[1..]);
      ClosedThen(g, hash, st, next, r);
      TouchedLater(next, r, Successors(g, hash, ids[0]));
      forall i | 0 <= i < |ids| ensures !r[ids[i]].progress.Untouched? && Touched(r, Successors(g, hash, ids[i])) {
        if i > 0 { assert ids[1..][i - 1] == ids[i]; }
      }
    }
  }
}
