/** Licensees fields over given names, with two names to spare, under which chosen assertions are worth
    what chosen others are worth, one is worth the most and the rest nothing. The key lists are the
    names of the fields, and the order of the visits is that of the given names. */
module TrustFilling {
  import opened Options
  import opened Licensees
  import opened TrustGraph
  import opened TrustSearch
  import opened TrustExactness
  import opened KeyRecording
  import opened TrustOrder
  import opened TrustTrap

  // ----- Licensees fields with given names -----

  /** All the names and `z`. */
  function AllAnd(names: seq<string>, z: string): (e: Expr)
    ensures Names(e) == names + [z] && WellFormed(e) && PositiveCounts(e)
  {
    if names == [] then Principal(z) else And(Principal(names[0]), AllAnd(names[1..], z))
  }

  /** Any of the names, or `r`. */
  function AnyOr(names: seq<string>, r: string): (e: Expr)
    ensures Names(e) == names + [r] && WellFormed(e) && PositiveCounts(e)
  {
    if names == [] then Principal(r) else Or(Principal(names[0]), AnyOr(names[1..], r))
  }

  /** The name at `j`; the names before and after it stand together with `z`. */
  function Chosen(names: seq<string>, j: nat, z: string): (e: Expr)
    requires j < |names|
    ensures Names(e) == names[..j] + [z] + [names[j]] + names[j + 1..] + [z] && WellFormed(e) && PositiveCounts(e)
  {
    var before := Or(AllAnd(names[..j], z), Principal(names[j]));
    var after := AllAnd(names[j + 1..], z);
    assert WellFormed(before) && PositiveCounts(before);
    assert Names(before) == names[..j] + [z] + [names[j]];
    assert Names(Or(before, after)) == names[..j] + [z] + [names[j]] + names[j + 1..] + [z];
    Or(before, after)
  }

  lemma {:induction false} AllAndValue(names: seq<string>, z: string, leaf: Leaves, top: nat)
    requires Ranged(leaf, top) && leaf(z) == 0
    ensures Value(AllAnd(names, z), leaf, top) == 0
  {
    if names != [] {
      AllAndValue(names[1..], z, leaf, top);
    }
  }

  lemma {:induction false} AnyOrValue(names: seq<string>, r: string, leaf: Leaves, top: nat)
    requires Ranged(leaf, top) && leaf(r) == top
    ensures Value(AnyOr(names, r), leaf, top) == top
  {
    if names != [] {
      AnyOrValue(names[1..], r, leaf, top);
    }
  }

  lemma ChosenValue(names: seq<string>, j: nat, z: string, leaf: Leaves, top: nat)
    requires j < |names| && Ranged(leaf, top) && leaf(z) == 0
    ensures Value(Chosen(names, j, z), leaf, top) == leaf(names[j])
  {
    AllAndValue(names[..j], z, leaf, top);
    AllAndValue(names[j + 1..], z, leaf, top);
    assert Value(Or(AllAnd(names[..j], z), Principal(names[j])), leaf, top) == leaf(names[j]);
  }

  // ----- names that lead nowhere -----

  /** A name whose key leads the search nowhere: it authorises the action, or it signed nothing. */
  ghost predicate Idle(g: Graph, hash: Key -> nat, key: Key)
    requires ValidGraph(g)
  {
    Authorized(g, key) || FindAll(g, hash, key) == []
  }

  ghost function LeadsTo(g: Graph, hash: Key -> nat, key: Key): seq<nat>
    requires ValidGraph(g)
  {
    if Authorized(g, key) then [] else FindAll(g, hash, key)
  }

  lemma IdleNothing(g: Graph, hash: Key -> nat, key: Key)
    requires ValidGraph(g) && Idle(g, hash, key)
    ensures LeadsTo(g, hash, key) == []
  {
  }

  /** The last name is the first on the list. */
  lemma LastName(g: Graph, hash: Key -> nat, decode: string -> Option<Key>, names: seq<string>, s: string)
    requires ValidGraph(g) && AllDecode(names, decode) && decode(s).Some?
    ensures AllDecode(names + [s], decode)
    ensures SuccessorsOf(g, hash, Recording(names + [s], decode, [])) ==
      LeadsTo(g, hash, decode(s).value) + SuccessorsOf(g, hash, Recording(names, decode, []))
  {
    AllDecodeConcat(names, [s], decode);
    var all := names + [s];
    assert all[..|all| - 1] == names;
    var list := Recording(all, decode, []);
    assert list == [KeyEntry(s, decode(s).value)] + Recording(names, decode, []);
    assert list[1..] == Recording(names, decode, []);
  }

  /** Such a name makes no difference to the order of the visits. */
  lemma {:induction false} IdleName(g: Graph, hash: Key -> nat, decode: string -> Option<Key>, pre: seq<string>,
      z: string, post: seq<string>)
    requires ValidGraph(g) && AllDecode(pre, decode) && AllDecode(post, decode) && decode(z).Some?
    requires Idle(g, hash, decode(z).value)
    ensures AllDecode(pre + [z] + post, decode) && AllDecode(pre + post, decode)
    ensures SuccessorsOf(g, hash, Recording(pre + [z] + post, decode, [])) ==
      SuccessorsOf(g, hash, Recording(pre + post, decode, []))
    decreases |post|
  {
    hide Idle, FindAll, Authorized;
    AllDecodeConcat(pre, post, decode);
    AllDecodeConcat(pre, [z], decode);
    AllDecodeConcat(pre + [z], post, decode);
    if post == [] {
      assert pre + [z] + post == pre + [z] && pre + post == pre;
      LastName(g, hash, decode, pre, z);
      IdleNothing(g, hash, decode(z).value);
    } else {
      var n := |post| - 1;
      assert pre + [z] + post == (pre + [z] + post[..n]) + [post[n]];
      assert pre + post == (pre + post[..n]) + [post[n]];
      IdleName(g, hash, decode, pre, z, post[..n]);
      LastName(g, hash, decode, pre + [z] + post[..n], post[n]);
      LastName(g, hash, decode, pre + post[..n], post[n]);
    }
  }

  // ----- the fields of the trap -----

  /** What the names stand for, and two names to spare: `r` is an action authorizer, `z` signed
      nothing. */
  datatype Words = Words(decode: string -> Option<Key>, r: string, z: string)

  ghost predicate Spare(g: Graph, d: Words) {
    && d.decode(d.r).Some? && Authorized(g, d.decode(d.r).value)
    && d.decode(d.z).Some? && !Authorized(g, d.decode(d.z).value)
    && (forall b: nat :: b < |g.nodes| ==> !SignedBy(g, b, d.decode(d.z).value))
  }

  ghost function NamesAt(g: Graph, d: Words, a: nat): (r: seq<string>)
    requires a < |g.nodes|
    ensures AllDecode(r, d.decode)
  {
    RecordedNames(g.nodes[a].licensees, d.decode)
  }

  /** Which assertion leads where, and by the name in which position. */
  datatype Plan = Plan(w: Wiring, at: map<nat, nat>)

  ghost function TrapExpr(g: Graph, d: Words, p: Plan, a: nat): Expr
    requires a < |g.nodes|
  {
    var names := NamesAt(g, d, a);
    if a == p.w.x then AnyOr(names, d.r)
    else if a in p.w.target && a in p.at && p.at[a] < |names| then Chosen(names, p.at[a], d.z)
    else AllAnd(names, d.z)
  }

  ghost function TrapNode(g: Graph, d: Words, p: Plan, a: nat): Node
    requires a < |g.nodes|
  {
    var field := Given(TrapExpr(g, d, p, a));
    g.nodes[a].(conditions := NoConditions, verifies := true, licensees := field,
      keylist := KeysRead(field, [], d.decode))
  }

  ghost function Fill(g: Graph, d: Words, p: Plan): (g': Graph)
    ensures |g'.nodes| == |g.nodes| && g'.table == g.table && g'.authorizers == g.authorizers && g'.top == g.top
    ensures forall a :: 0 <= a < |g'.nodes| ==> g'.nodes[a] == TrapNode(g, d, p, a)
  {
    g.(nodes := seq(|g.nodes|, a requires 0 <= a < |g.nodes| => TrapNode(g, d, p, a)))
  }

  lemma FilledFrame(g: Graph, d: Words, p: Plan)
    requires ValidGraph(g)
    ensures SameSigners(g, Fill(g, d, p)) && ValidGraph(Fill(g, d, p)) && (g.top > 0 ==> Open(Fill(g, d, p)))
  {
    hide TrapExpr, KeysRead;
  }

  lemma TrapNames(g: Graph, d: Words, p: Plan, a: nat)
    requires Spare(g, d) && a < |g.nodes|
    ensures var e, names := TrapExpr(g, d, p, a), NamesAt(g, d, a);
      && WellFormed(e) && PositiveCounts(e) && AllDecode(Names(e), d.decode)
      && (a == p.w.x ==> d.r in Names(e)) && (a != p.w.x ==> d.z in Names(e))
      && (forall s :: s in names ==> s in Names(e))
  {
    hide AllAnd, AnyOr, Chosen, RecordedNames;
    var e, names := TrapExpr(g, d, p, a), NamesAt(g, d, a);
    if a != p.w.x && a in p.w.target && a in p.at && p.at[a] < |names| {
      assert names == names[..p.at[a]] + [names[p.at[a]]] + names[p.at[a] + 1..];
    }
  }

  /** What is filled in is what the code holds after reading it. */
  lemma FilledFromFields(g: Graph, d: Words, p: Plan)
    requires Spare(g, d)
    ensures FromFields(Fill(g, d, p), d.decode)
  {
    hide TrapExpr, Spare;
    forall a | 0 <= a < |g.nodes| ensures PositiveCounts(TrapExpr(g, d, p, a)) {
      TrapNames(g, d, p, a);
    }
  }

  /** Every name of a filled field is found on its list. */
  lemma FilledFinds(g: Graph, d: Words, p: Plan, a: nat)
    requires Spare(g, d) && a < |g.nodes|
    ensures var n, e := Fill(g, d, p).nodes[a], TrapExpr(g, d, p, a);
      && n.keylist == Recording(Names(e), d.decode, [])
      && forall s :: s in Names(e) ==> Lookup(n.keylist, s) == d.decode(s) && d.decode(s).Some?
  {
    hide TrapExpr, Spare, NamesAt;
    TrapNames(g, d, p, a);
    RecordingFinds(Names(TrapExpr(g, d, p, a)), d.decode, []);
  }

  lemma SpareIsIdle(g: Graph, hash: Key -> nat, d: Words)
    requires IndexComplete(g, hash) && ValidGraph(g) && Spare(g, d)
    ensures d.decode(d.r).Some? && Idle(g, hash, d.decode(d.r).value)
    ensures d.decode(d.z).Some? && Idle(g, hash, d.decode(d.z).value)
  {
    hide FindAll, SignedBy, Authorized;
    var key := d.decode(d.z).value;
    var found := FindAll(g, hash, key);
    if found != [] {
      assert found[0] in found;
      IndexAgreesWithScan(g, hash, key, found[0]);
    }
  }

  lemma OneIdle(g: Graph, hash: Key -> nat, decode: string -> Option<Key>, names: seq<string>, z: string)
    requires ValidGraph(g) && AllDecode(names, decode) && decode(z).Some? && Idle(g, hash, decode(z).value)
    ensures AllDecode(names + [z], decode)
    ensures SuccessorsOf(g, hash, Recording(names + [z], decode, [])) == SuccessorsOf(g, hash,
      Recording(names, decode, []))
  {
    hide Idle, SuccessorsOf, Recording;
    IdleName(g, hash, decode, names, z, []);
    assert names + [z] + [] == names + [z] && names + [] == names;
  }

  lemma TwoIdle(g: Graph, hash: Key -> nat, decode: string -> Option<Key>, names: seq<string>, j: nat, z: string)
    requires ValidGraph(g) && AllDecode(names, decode) && decode(z).Some? && Idle(g, hash, decode(z).value)
      && j < |names|
    ensures var more := names[..j] + [z] + [names[j]] + names[j + 1..] + [z];
      && AllDecode(more, decode)
      && SuccessorsOf(g, hash, Recording(more, decode, [])) == SuccessorsOf(g, hash, Recording(names, decode, []))
  {
    hide Idle, SuccessorsOf, Recording;
    assert names[j..] == [names[j]] + names[j + 1..];
    assert names == names[..j] + names[j..];
    IdleName(g, hash, decode, names[..j], z, names[j..]);
    var once := names[..j] + [z] + names[j..];
    OneIdle(g, hash, decode, once, z);
    assert names[..j] + [z] + [names[j]] + names[j + 1..] + [z] == once + [z];
  }

  /** The order of the visits is that of the names without the spare ones. */
  lemma FilledOrder(g: Graph, hash: Key -> nat, d: Words, p: Plan, a: nat)
    requires IndexComplete(g, hash) && ValidGraph(g) && Spare(g, d) && a < |g.nodes|
    ensures SuccessorsOf(g, hash, Recording(NamesAt(g, d, a), d.decode, [])) ==
      SuccessorsOf(g, hash, Fill(g, d, p).nodes[a].keylist)
  {
    hide IndexComplete, Idle, FindAll, SuccessorsOf, Recording, AllDecode;
    SpareIsIdle(g, hash, d);
    FilledFinds(g, d, p, a);
    var names := NamesAt(g, d, a);
    if a == p.w.x {
      OneIdle(g, hash, d.decode, names, d.r);
    } else if a in p.w.target && a in p.at && p.at[a] < |names| {
      TwoIdle(g, hash, d.decode, names, p.at[a], d.z);
    } else {
      OneIdle(g, hash, d.decode, names, d.z);
    }
  }

  lemma FilledSameOrder(g: Graph, hash: Key -> nat, d: Words, p: Plan)
    requires IndexComplete(g, hash) && Spare(g, d) && FromFields(g, d.decode)
    ensures SameOrder(g, Fill(g, d, p), hash)
  {
    hide IndexComplete, Spare, SuccessorsOf, TrapNode, Recording;
    IndexValid(g, hash);
    FilledFrame(g, d, p);
    var g' := Fill(g, d, p);
    forall a: nat | a < |g.nodes| ensures Successors(g', hash, a) == Successors(g, hash, a) {
      assert g.nodes[a].keylist == Recording(NamesAt(g, d, a), d.decode, []);
      FilledOrder(g, hash, d, p, a);
      SameSuccessors(g, g', hash, g'.nodes[a].keylist);
    }
  }

  // ----- the wires of the trap -----

  /** The name at position `j` stands for a key that signed `b` and nothing else. */
  ghost predicate Wire(g: Graph, d: Words, a: nat, j: nat, b: nat)
    requires a < |g.nodes| && b < |g.nodes|
  {
    && j < |NamesAt(g, d, a)| && d.decode(NamesAt(g, d, a)[j]).Some?
    && !Authorized(g, d.decode(NamesAt(g, d, a)[j]).value)
    && (forall c: nat :: c < |g.nodes| ==> (SignedBy(g, c, d.decode(NamesAt(g, d, a)[j]).value) <==> c == b))
  }

  ghost predicate WireAt(g: Graph, d: Words, p: Plan, a: nat) {
    a in p.w.target ==>
      && a in p.at && a < |g.nodes| && p.w.target[a] < |g.nodes| && Wire(g, d, a, p.at[a], p.w.target[a])
  }

  ghost predicate Planned(g: Graph, d: Words, p: Plan) {
    Wired(g, p.w) && forall a :: a in p.w.target ==> WireAt(g, d, p, a)
  }

  /** The largest value of a key that signed one assertion only. */
  lemma OneSigned(g: Graph, vals: seq<int>, key: Key, b: nat)
    requires |vals| == |g.nodes| && b < |vals|
    requires forall c: nat :: c < |g.nodes| ==> (SignedBy(g, c, key) <==> c == b)
    ensures PlainSigned(g, vals, key) == Max(vals[b], 0)
  {
    hide MaxWhere, SignedBy;
    var p := (a: nat) => a < |g.nodes| && SignedBy(g, a, key);
    MaxWhereBounds(vals, p, |vals|);
    assert p(b);
  }

  lemma {:induction false} SameMax(vals: seq<int>, p: nat -> bool, q: nat -> bool, n: nat)
    requires n <= |vals| && forall a: nat :: p(a) == q(a)
    ensures MaxWhere(vals, p, n) == MaxWhere(vals, q, n)
  {
    if n > 0 {
      SameMax(vals, p, q, n - 1);
    }
  }

  lemma SamePlain(g: Graph, g': Graph, vals: seq<int>, key: Key)
    requires SameSigners(g, g') && |vals| == |g.nodes|
    ensures PlainSigned(g', vals, key) == PlainSigned(g, vals, key)
  {
    hide MaxWhere, SignedBy;
    forall a: nat | a < |g.nodes| ensures SignedBy(g', a, key) == SignedBy(g, a, key) {
      SameSigned(g, g', a, key);
    }
    SameMax(vals, (a: nat) => a < |g.nodes| && SignedBy(g, a, key), (a: nat) => a < |g'.nodes|
      && SignedBy(g', a, key), |vals|);
  }

  /** What a name is worth in a filled graph. */
  lemma FilledLeaf(g: Graph, hash: Key -> nat, d: Words, p: Plan, vals: seq<int>, a: nat, s: string)
    requires IndexComplete(g, hash) && Spare(g, d) && a < |g.nodes| && |vals| == |g.nodes|
    requires s in Names(TrapExpr(g, d, p, a))
    ensures ValidGraph(Fill(g, d, p)) && d.decode(s).Some?
    ensures LeafValue(Fill(g, d, p), hash, vals, a, s) ==
      if Authorized(g, d.decode(s).value) then g.top else PlainSigned(g, vals, d.decode(s).value)
  {
    hide IndexComplete, Spare, TrapNode, TrapExpr, Recording, FindAll, PlainSigned;
    IndexValid(g, hash);
    FilledFrame(g, d, p);
    FilledFinds(g, d, p, a);
    var g', key := Fill(g, d, p), d.decode(s).value;
    SameIndex(g, g', hash);
    SameSigned(g, g', a, key);
    SignedIsFound(g', hash, vals, key);
    SamePlain(g, g', vals, key);
  }

  lemma NoneSigned(g: Graph, vals: seq<int>, key: Key)
    requires |vals| == |g.nodes| && forall b: nat :: b < |g.nodes| ==> !SignedBy(g, b, key)
    ensures PlainSigned(g, vals, key) == 0
  {
    hide MaxWhere, SignedBy;
    var p := (a: nat) => a < |g.nodes| && SignedBy(g, a, key);
    MaxWhereBounds(vals, p, |vals|);
  }

  lemma FilledIsGiven(g: Graph, hash: Key -> nat, d: Words, p: Plan, vals: seq<int>, a: nat)
    requires ValidGraph(Fill(g, d, p)) && Spare(g, d) && a < |g.nodes| == |vals|
    ensures var g' := Fill(g, d, p);
      LicenseesValue(g', hash, vals, a) == Value(TrapExpr(g, d, p, a), LeavesOf(g', hash, vals, a), g.top)
  {
    hide TrapExpr, Spare, ValidGraph;
    TrapNames(g, d, p, a);
  }

  lemma SpareWorth(g: Graph, d: Words, vals: seq<int>)
    requires Spare(g, d) && |vals| == |g.nodes|
    ensures d.decode(d.r).Some? && Authorized(g, d.decode(d.r).value)
    ensures d.decode(d.z).Some? && !Authorized(g, d.decode(d.z).value)
    ensures PlainSigned(g, vals, d.decode(d.z).value) == 0
  {
    hide PlainSigned;
    NoneSigned(g, vals, d.decode(d.z).value);
  }

  /** The filled fields are wired as planned. */
  lemma FilledBehaves(g: Graph, hash: Key -> nat, d: Words, p: Plan, vals: seq<int>, a: nat)
    requires IndexComplete(g, hash) && Spare(g, d) && Planned(g, d, p) && InRange(g, vals) && a < |vals|
    ensures ValidGraph(Fill(g, d, p)) && BehavesAt(Fill(g, d, p), hash, p.w, vals, a)
  {
    hide IndexComplete, TrapNode, Spare, AllAnd, AnyOr, Chosen, LeafValue, PlainSigned, Wired;
    IndexValid(g, hash);
    FilledFrame(g, d, p);
    var g', names, e := Fill(g, d, p), NamesAt(g, d, a), TrapExpr(g, d, p, a);
    var leaf := LeavesOf(g', hash, vals, a);
    TrapNames(g, d, p, a);
    LeavesRanged(g', hash, vals, a);
    FilledIsGiven(g, hash, d, p, vals, a);
    WiredAt(g, p.w, a);
    if a == p.w.x {
      FilledLeaf(g, hash, d, p, vals, a, d.r);
      SpareWorth(g, d, vals);
      AnyOrValue(names, d.r, leaf, g.top);
    } else {
      FilledLeaf(g, hash, d, p, vals, a, d.z);
      SpareWorth(g, d, vals);
      if a in p.w.target {
        assert WireAt(g, d, p, a);
        var s := names[p.at[a]];
        FilledLeaf(g, hash, d, p, vals, a, s);
        OneSigned(g, vals, d.decode(s).value, p.w.target[a]);
        ChosenValue(names, p.at[a], d.z, leaf, g.top);
      } else {
        AllAndValue(names, d.z, leaf, g.top);
      }
    }
  }

  lemma FilledIsRecorded(g: Graph, d: Words, p: Plan)
    requires Spare(g, d)
    ensures Recorded(Fill(g, d, p))
  {
    hide TrapExpr, Spare, Recording;
    forall a, s | 0 <= a < |g.nodes| && s in Names(TrapExpr(g, d, p, a))
      ensures Lookup(Fill(g, d, p).nodes[a].keylist, s).Some?
    {
      FilledFinds(g, d, p, a);
    }
  }
}
