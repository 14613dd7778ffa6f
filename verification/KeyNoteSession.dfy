/** A KeyNote session with its assertions: the hash table and its look-ups, the evaluation of
    the Licensees field with the parser's global short-circuit flag, and the recursive query. The
    methods are proved against the functions of Licensees, TrustGraph and TrustSearch, and a query
    against the plain equations by TrustExactness. */
module KeyNoteSession {
  import opened Options
  import opened Licensees
  import opened TrustGraph
  import opened TrustSearch
  import opened TrustExactness
  import opened TrustMeaning
  import opened KeyHashing
  import opened KeyRecording

  /** The fields of an assertion that reading its key fields may write. */
  datatype KeyFields = KeyFields(
    authorizer: Option<Key>, keylist: seq<KeyEntry>,
    needProc: bool, weirdAuth: bool, weirdLics: bool, weirdSig: bool, failed: bool)

  /** `struct assertion`. `authorizer` and `keylist` are set when the key fields are processed, the
      query fields by queries. */
  class Assertion {
    const id: nat
    const local: bool

    /** What the text yields in the current action environment: the outcome of the Conditions
        program, the Licensees expression, and the answer of verifying the signature. */
    var conditions: Conditions
    var licensees: Field
    var verifies: bool

    var authorizer: Option<Key>
    var keylist: seq<KeyEntry>
    var progress: Progress
    var result: int
    var signature: Signature
    var failed: bool

    /** ASSERT_IFLAG_NEEDPROC, _WEIRDAUTH, _WEIRDLICS, _WEIRDSIG and _PROCESSED: not read yet,
        fields that refer to the environment, and moved in this query. */
    var needProc: bool
    var weirdAuth: bool
    var weirdLics: bool
    var weirdSig: bool
    var processed: bool

    constructor (id: nat, conditions: Conditions, licensees: Field, local: bool, verifies: bool)
      ensures this.id == id && this.conditions == conditions && this.licensees == licensees
      ensures this.local == local && this.verifies == verifies
      ensures authorizer == None && keylist == [] && AsCell() == Cell(Untouched, 0, Unchecked, false)
      ensures needProc && !weirdAuth && !weirdLics && !weirdSig && !processed
    {
      this.id, this.conditions, this.licensees := id, conditions, licensees;
      this.local, this.verifies := local, verifies;
      authorizer, keylist := None, [];
      progress, result, signature, failed := Untouched, 0, Unchecked, false;
      needProc, weirdAuth, weirdLics, weirdSig, processed := true, false, false, false, false;
    }

    /** The test of the repositioning loop of `keynote_fix_fields`. */
    predicate Misplaced()
      reads this`needProc, this`weirdAuth, this`processed
    {
      (weirdAuth && !processed) || needProc
    }

    ghost function AsCell(): Cell
      reads this`progress, this`result, this`signature, this`failed
    {
      Cell(progress, result, signature, failed)
    }

    /** The answer of an earlier check of the signature counts until it is forgotten. */
    ghost predicate Verified()
      reads this`verifies, this`signature
    {
      if local || signature == Unchecked then verifies else signature == Good
    }

    ghost function AsNode(): Node
      reads this`conditions, this`licensees, this`verifies, this`signature, this`authorizer, this`keylist
    {
      Node(authorizer, conditions, licensees, keylist, local, Verified())
    }

    ghost function AsKeyFields(): KeyFields
      reads this`authorizer, this`keylist, this`needProc, this`weirdAuth, this`weirdLics, this`weirdSig, this`failed
    {
      KeyFields(authorizer, keylist, needProc, weirdAuth, weirdLics, weirdSig, failed)
    }
  }

  /** What the parser makes of the key fields of an assertion in the current environment, and which
      of them refer to it. A signature field that is absent counts as parsed. */
  datatype Reading = Reading(
    authorizer: Option<Key>, authorizerVaries: bool,
    licenseesVary: bool,
    signatureParses: bool, signatureVaries: bool)

  // ----- reading the key fields -----

  /** One of the fields that are read does not parse. */
  predicate FailsToRead(k: KeyFields, f: Field, reading: Reading, decode: string -> Option<Key>) {
    || ((k.needProc || k.weirdSig) && !reading.signatureParses)
    || ((k.needProc || k.weirdLics) && !Recordable(f, decode))
    || ((k.needProc || k.weirdAuth) && reading.authorizer.None?)
  }

  /** Each key field is read if the assertion is new or the field depends on the environment. */
  ghost function AfterReading(k: KeyFields, f: Field, reading: Reading, decode: string -> Option<Key>): KeyFields {
    KeyFields(
      if k.needProc || k.weirdAuth then reading.authorizer else k.authorizer,
      if k.needProc || k.weirdLics then KeysRead(f, k.keylist, decode) else k.keylist,
      k.needProc,
      k.weirdAuth || (k.needProc && reading.authorizerVaries),
      k.weirdLics || (k.needProc && Recordable(f, decode) && reading.licenseesVary),
      k.weirdSig || (k.needProc && reading.signatureVaries),
      k.failed || FailsToRead(k, f, reading, decode))
  }

  lemma ReadingTwice(k: KeyFields, f: Field, reading: Reading, decode: string -> Option<Key>)
    ensures AfterReading(AfterReading(k, f, reading, decode), f, reading, decode) == AfterReading(k, f, reading, decode)
  {
  }

  // ----- tables of assertions -----

  /** All entries of the table, however they are spread over the buckets. */
  ghost function Bag(table: seq<seq<Assertion>>): multiset<Assertion> {
    if table == [] then multiset{} else multiset(table[0]) + Bag(table[1..])
  }

  lemma {:induction false} EmptyBag(table: seq<seq<Assertion>>)
    requires forall h :: 0 <= h < |table| ==> table[h] == []
    ensures Bag(table) == multiset{}
  {
    if table != [] {
      EmptyBag(table[1..]);
    }
  }

  ghost function Without(table: seq<seq<Assertion>>, h: nat, i: nat): (r: seq<seq<Assertion>>)
    requires h < |table| && i < |table[h]|
  {
    table[h := table[h][..i] + table[h][i + 1..]]
  }

  lemma MultisetWithout(t: seq<Assertion>, i: nat)
    requires i < |t|
    ensures multiset(t) == multiset(t[..i] + t[i + 1..]) + multiset{t[i]}
  {
    assert t == t[..i] + [t[i]] + t[i + 1..];
  }

  lemma {:induction false} BagUpdate(table: seq<seq<Assertion>>, h: nat, bucket: seq<Assertion>)
    requires h < |table|
    ensures multiset(table[h]) <= Bag(table)
    ensures Bag(table[h := bucket]) == Bag(table) - multiset(table[h]) + multiset(bucket)
  {
    if h > 0 {
      BagUpdate(table[1..], h - 1, bucket);
      assert table[h := bucket][1..] == table[1..][h - 1 := bucket];
    } else {
      assert table[h := bucket][1..] == table[1..];
    }
  }

  lemma BagWithout(table: seq<seq<Assertion>>, h: nat, i: nat)
    requires h < |table| && i < |table[h]|
    ensures Bag(Without(table, h, i)) == Bag(table) - multiset{table[h][i]}
  {
    hide Bag;
    BagUpdate(table, h, table[h][..i] + table[h][i + 1..]);
    MultisetWithout(table[h], i);
  }

  lemma {:induction false} InBag(table: seq<seq<Assertion>>, h: nat, i: nat)
    requires h < |table| && i < |table[h]|
    ensures table[h][i] in Bag(table)
  {
    BagUpdate(table, h, []);
    assert table[h][i] in multiset(table[h]);
  }

  /** Two entries of an assertion that occurs once are the same entry. */
  lemma OnePosition(table: seq<seq<Assertion>>, h: nat, i: nat, h': nat, i': nat)
    requires h < |table| && i < |table[h]| && h' < |table| && i' < |table[h']|
    requires table[h][i] == table[h'][i'] && Bag(table)[table[h][i]] == 1
    ensures h == h' && i == i'
  {
    hide Bag;
    BagWithout(table, h, i);
    var rest := Without(table, h, i);
    if h != h' {
      InBag(rest, h', i');
    } else if i' != i {
      var k := if i' < i then i' else i' - 1;
      assert rest[h][k] == table[h][i'];
      InBag(rest, h, k);
    }
  }

  lemma {:induction false} OnceInSequence(list: seq<Assertion>, ast: Assertion)
    requires ast in list && forall a :: 0 <= a < |list| ==> list[a].id == a
    ensures multiset(list)[ast] == 1
  {
    var init := list[..|list| - 1];
    assert list == init + [list[|list| - 1]];
    if ast == list[|list| - 1] {
      assert ast !in init;
    } else {
      OnceInSequence(init, ast);
    }
  }

  /** After a move: the assertion stands at its new place only, everything else where it was. */
  ghost predicate Moved(before: seq<seq<Assertion>>, after: seq<seq<Assertion>>, ast: Assertion, h: nat) {
    && |after| == |before|
    && (forall g, j :: 0 <= g < |after| && 0 <= j < |after[g]| ==>
         if after[g][j] == ast then g == h else after[g][j] in before[g])
  }

  ghost function WithFront(table: seq<seq<Assertion>>, h: nat, ast: Assertion): (r: seq<seq<Assertion>>)
    requires h < |table|
  {
    table[h := [ast] + table[h]]
  }

  lemma MovedTable(before: seq<seq<Assertion>>, middle: seq<seq<Assertion>>, h: nat, i: nat, ast: Assertion,
      target: nat)
    requires h < |before| && i < |before[h]| && before[h][i] == ast && target < |before|
    requires middle == Without(before, h, i) && Bag(before)[ast] == 1
    ensures Moved(before, WithFront(middle, target, ast), ast, target)
  {
    hide Bag;
    BagWithout(before, h, i);
    var after := WithFront(middle, target, ast);
    forall g, j | 0 <= g < |after| && 0 <= j < |after[g]|
      ensures if after[g][j] == ast then g == target else after[g][j] in before[g]
    {
      if g != target || j > 0 {
        var k := if g == target then j - 1 else j;
        assert after[g][j] == middle[g][k];
        InBag(middle, g, k);
        assert middle[g][k] != ast;
        assert middle[g][k] in before[g];
      }
    }
  }

  lemma BagWithFront(table: seq<seq<Assertion>>, h: nat, ast: Assertion)
    requires h < |table|
    ensures Bag(WithFront(table, h, ast)) == Bag(table) + multiset{ast}
  {
    BagUpdate(table, h, [ast] + table[h]);
  }

  lemma {:induction false} FromBag(table: seq<seq<Assertion>>, ast: Assertion) returns (h: nat, i: nat)
    requires ast in Bag(table)
    ensures h < |table| && i < |table[h]| && table[h][i] == ast
  {
    if ast in multiset(table[0]) {
      h := 0;
      i :| 0 <= i < |table[0]| && table[0][i] == ast;
    } else {
      h, i := FromBag(table[1..], ast);
      h := h + 1;
    }
  }

  // ----- the values that a session stands for -----

  lemma SelectStep(g: Graph, ids: seq<nat>, key: Key, i: nat)
    requires i < |ids| && forall k :: 0 <= k < |ids| ==> ids[k] < |g.nodes|
    ensures Select(g, ids[i..], key) ==
      (if SignedBy(g, ids[i], key) then [ids[i]] else []) + Select(g, ids[i + 1..], key)
  {
    assert ids[i..][1..] == ids[i + 1..];
  }

  ghost function CellsOf(list: seq<Assertion>): (st: State)
    reads list`progress, list`result, list`signature, list`failed
    ensures |st| == |list| && forall a :: 0 <= a < |st| ==> st[a] == list[a].AsCell()
  {
    if list == [] then [] else CellsOf(list[..|list| - 1]) + [list[|list| - 1].AsCell()]
  }

  ghost function NodesOf(list: seq<Assertion>): (ns: seq<Node>)
    reads list`conditions, list`licensees, list`verifies, list`signature, list`authorizer, list`keylist
    ensures |ns| == |list| && forall a :: 0 <= a < |ns| ==> ns[a] == list[a].AsNode()
  {
    if list == [] then [] else NodesOf(list[..|list| - 1]) + [list[|list| - 1].AsNode()]
  }

  ghost function Ids(bucket: seq<Assertion>): (r: seq<nat>)
    ensures |r| == |bucket| && forall i :: 0 <= i < |r| ==> r[i] == bucket[i].id
  {
    seq(|bucket|, i requires 0 <= i < |bucket| => bucket[i].id)
  }

  ghost function IdTable(table: seq<seq<Assertion>>): (r: seq<seq<nat>>)
    ensures |r| == |table| && forall h :: 0 <= h < |r| ==> r[h] == Ids(table[h])
  {
    seq(|table|, h requires 0 <= h < |table| => Ids(table[h]))
  }

  const HASHTABLESIZE := 37
  const MAX_COUNTER := 0x7FFF_FFFF

  class Session {
    const hash: Key -> nat
    /** `kn_decode_key`: a name may fail to decode. */
    const decode: string -> Option<Key>
    var table: array<seq<Assertion>>
    var authorizers: seq<Key>
    var valuesNum: nat
    var donteval: bool
    var kthArray: array<nat>
    /** `keynote_keypred_keylist`: the keys recorded so far. */
    var recorded: seq<KeyEntry>
    /** `ks_assertioncounter`: the next id; negative once it has wrapped. */
    var counter: int
    /** All assertions ever added, by id; the table holds the ones still there. */
    ghost var byId: seq<Assertion>

    ghost function Cells(): (st: State)
      reads this`byId, byId`progress, byId`result, byId`signature, byId`failed
    {
      CellsOf(byId)
    }

    ghost function Graph(): (g: Graph)
      reads this`byId, this`table, this`authorizers, this`valuesNum, table,
        byId`conditions, byId`licensees, byId`verifies, byId`signature, byId`authorizer, byId`keylist
      requires valuesNum >= 1
    {
      TrustGraph.Graph(NodesOf(byId), IdTable(table[..]), authorizers, valuesNum - 1)
    }

    ghost predicate Valid()
      reads this`table, this`authorizers, this`valuesNum, this`byId, table, byId
    {
      && valuesNum >= 1
      && (forall k :: hash(k) < table.Length)
      && (forall a :: 0 <= a < |byId| ==> byId[a].id == a)
      && (forall h, i :: 0 <= h < table.Length && 0 <= i < |table[h]| ==>
           table[h][i].id < |byId| && byId[table[h][i].id] == table[h][i])
      && ValidGraph(Graph())
      && ValidState(Graph(), Cells())
    }

    /** Every assertion whose Licensees field is not read again has the keys of that field, if it
        parses and its names decode. */
    ghost predicate KeysRecorded()
      reads this`byId, byId`needProc, byId`weirdLics, byId`keylist, byId`licensees
    {
      forall ast :: ast in byId && !ast.needProc && !ast.weirdLics && Recordable(ast.licensees, decode) ==>
        Answers(ast.keylist, ast.licensees, decode)
    }

    ghost predicate PlacedAt(ast: Assertion, h: nat)
      reads ast`authorizer
    {
      ast.authorizer.Some? && hash(ast.authorizer.value) == h
    }

    ghost predicate PlacedUnlessMisplaced()
      reads this`table, this`byId, table, byId`authorizer, byId`needProc, byId`weirdAuth, byId`processed
    {
      forall h, i :: 0 <= h < table.Length && 0 <= i < |table[h]| ==>
        && table[h][i] in byId
        && (!table[h][i].Misplaced() ==> PlacedAt(table[h][i], h))
    }

    /** What the repositioning works on: every assertion is listed exactly once, and those that
        need no move stand in the bucket of their authorizer's hash. */
    ghost predicate Indexed()
      reads this`counter, this`table, this`byId, table, byId`authorizer, byId`needProc, byId`weirdAuth, byId`processed
    {
      && counter <= MAX_COUNTER && (counter >= 0 ==> counter == |byId|)
      && HashRespectsMatches(hash, table.Length)
      && (forall a :: 0 <= a < |byId| ==> byId[a].id == a)
      && Bag(table[..]) == multiset(byId)
      && PlacedUnlessMisplaced()
    }

    /** No local assertion has failed a check of its signature. */
    ghost predicate LocalTrusted()
      reads this`byId, byId`signature
    {
      forall ast :: ast in byId && ast.local ==> ast.signature != Bad
    }

    // ----- building a session -----

    constructor (size: nat, hash: Key -> nat, decode: string -> Option<Key>)
      requires HashRespectsMatches(hash, size)
      ensures this.hash == hash && this.decode == decode && fresh(table) && table.Length == size
      ensures Indexed() && KeysRecorded() && LocalTrusted() && recorded == [] && byId == [] && authorizers == []
        && valuesNum == 0
    {
      this.hash, this.decode := hash, decode;
      authorizers, valuesNum, donteval, recorded, byId, counter := [], 0, false, [], [], 0;
      kthArray := new nat[0];
      table := new seq<Assertion>[size](_ => []);
      new;
      EmptyBag(table[..]);
    }

    /** A new assertion at the front of a bucket. */
    method Place(ast: Assertion, slot: nat)
      requires slot < table.Length && Bag(table[..]) == multiset(byId) && PlacedUnlessMisplaced()
      requires ast.needProc && ast.id == |byId| && forall a :: 0 <= a < |byId| ==> byId[a].id == a
      modifies this`byId, table
      ensures byId == old(byId) + [ast] && table[..] == WithFront(old(table[..]), slot, ast)
      ensures table[slot] == [ast] + old(table[slot])
      ensures forall h :: 0 <= h < table.Length && h != slot ==> table[h] == old(table[h])
      ensures Bag(table[..]) == multiset(byId) && PlacedUnlessMisplaced()
      ensures forall a :: 0 <= a < |byId| ==> byId[a].id == a
    {
      hide Bag, PlacedAt;
      BagWithFront(table[..], slot, ast);
      ghost var before: seq<seq<Assertion>> := table[..];
      table[slot] := [ast] + table[slot];
      byId := byId + [ast];
      assert table[..] == WithFront(before, slot, ast);
    }

    /** `kn_add_assertion` after parsing, which refuses a text without an Authorizer field: the next
        id, and a place in the bucket `slot` that the text of the authorizer hashes to, until the
        key fields are processed. Once the counter has wrapped it is refused. */
    method AddAssertion(conditions: Conditions, licensees: Field, local: bool, verifies: bool, slot: nat)
      returns (ast: Assertion?)
      requires Indexed() && slot < table.Length && counter != -1
      modifies this`byId, this`counter, table
      ensures Indexed() && (old(KeysRecorded()) ==> KeysRecorded()) && (old(LocalTrusted()) ==> LocalTrusted())
      ensures counter == if old(counter) == 0x7FFF_FFFF then -0x8000_0000 else old(counter) + 1
      ensures ast == null <==> counter < 0
      ensures ast == null ==> byId == old(byId) && table[..] == old(table[..])
      ensures ast != null ==>
        && fresh(ast) && byId == old(byId) + [ast] && ast.id == |old(byId)| && ast.needProc
        && ast.conditions == conditions && ast.licensees == licensees && ast.local == local && ast.verifies == verifies
        && table[..] == WithFront(old(table[..]), slot, ast) && table[slot] == [ast] + old(table[slot])
        && forall h :: 0 <= h < table.Length && h != slot ==> table[h] == old(table[h])
    {
      hide Bag, HashRespectsMatches, Recordable, Answers, PlacedUnlessMisplaced, WithFront;
      var id := counter;
      counter := if counter == MAX_COUNTER then -MAX_COUNTER - 1 else counter + 1;
      if counter < 0 {
        return null;
      }
      ast := new Assertion(id, conditions, licensees, local, verifies);
      Place(ast, slot);
    }

    // ----- recording the keys of the Licensees field -----

    /** `keynote_keylist_add`: the key goes to the front of the list. */
    method RecordKey(name: string) returns (ok: bool)
      modifies this`recorded
      ensures ok == decode(name).Some?
      ensures ok ==> recorded == Recording([name], decode, old(recorded))
      ensures recorded == match decode(name)
        case None => old(recorded)
        case Some(key) => [KeyEntry(name, key)] + old(recorded)
    {
      match decode(name)
      case None =>
        ok := false;
      case Some(key) =>
        recorded := [KeyEntry(name, key)] + recorded;
        ok := true;
    }

    method RecordNames(names: seq<string>) returns (ok: bool)
      modifies this`recorded
      ensures ok == AllDecode(names, decode)
      ensures ok ==> recorded == Recording(names, decode, old(recorded))
    {
      var i := 0;
      while i < |names|
        invariant 0 <= i <= |names| && AllDecode(names[..i], decode)
        invariant recorded == Recording(names[..i], decode, old(recorded))
      {
        assert names[..i + 1] == names[..i] + [names[i]];
        ok := RecordKey(names[i]);
        if !ok {
          return;
        }
        RecordingConcat(names[..i], [names[i]], decode, old(recorded));
        i := i + 1;
      }
      assert names[..|names|] == names;
      ok := true;
    }

    /** The semantic actions of the Licensees grammar when keys are only recorded. */
    method RecordExpression(e: Expr) returns (ok: bool)
      modifies this`recorded
      ensures ok == (WellFormed(e) && AllDecode(Names(e), decode))
      ensures ok ==> recorded == Recording(Names(e), decode, old(recorded))
    {
      match e
      case Principal(name) =>
        ok := RecordKey(name);
        assert [name][0] == name;
      case KOf(k, names) =>
        ok := RecordNames(names);
        ok := ok && |names| >= k;
      case And(l, r) =>
        AllDecodeConcat(Names(l), Names(r), decode);
        ok := RecordExpression(l);
        if !ok { return; }
        ok := RecordExpression(r);
        RecordingConcat(Names(l), Names(r), decode, old(recorded));
      case Or(l, r) =>
        AllDecodeConcat(Names(l), Names(r), decode);
        ok := RecordExpression(l);
        if !ok { return; }
        ok := RecordExpression(r);
        RecordingConcat(Names(l), Names(r), decode, old(recorded));
    }

    /** `keynote_parse_keypred(as, 1)`: on an error the assertion keeps the list it had. */
    method RecordKeypred(ast: Assertion) returns (ok: bool)
      requires recorded == []
      modifies this`recorded, ast`keylist
      ensures recorded == []
      ensures ok == Recordable(ast.licensees, decode)
      ensures ast.keylist == KeysRead(ast.licensees, old(ast.keylist), decode)
      ensures match ast.licensees
        case Missing => ok && ast.keylist == old(ast.keylist)
        case Empty => ok && ast.keylist == []
        case Given(e) =>
          && (ok <==> WellFormed(e) && forall i :: 0 <= i < |Names(e)| ==> decode(Names(e)[i]).Some?)
          && if ok then ast.keylist == Recording(Names(e), decode, []) else ast.keylist == old(ast.keylist)
    {
      match ast.licensees
      case Missing =>
        ok := true;
      case Empty =>
        ast.keylist := [];
        ok := true;
      case Given(e) =>
        ok := RecordExpression(e);
        if ok {
          ast.keylist := recorded;
        }
        recorded := [];
    }

    method ReadSignature(ast: Assertion, reading: Reading)
      modifies ast`weirdSig, ast`failed
      ensures ast.weirdSig == old(ast.weirdSig || (ast.needProc && reading.signatureVaries))
      ensures ast.failed == old(ast.failed || ((ast.needProc || ast.weirdSig) && !reading.signatureParses))
    {
      if ast.needProc || ast.weirdSig {
        if reading.signatureVaries { ast.weirdSig := true; }
        if !reading.signatureParses { ast.failed := true; }
      }
    }

    method ReadLicensees(ast: Assertion, reading: Reading)
      requires recorded == []
      modifies this`recorded, ast`keylist, ast`weirdLics, ast`failed
      ensures recorded == []
      ensures ast.keylist ==
        if old(ast.needProc || ast.weirdLics) then KeysRead(ast.licensees, old(ast.keylist), decode)
        else old(ast.keylist)
      ensures ast.weirdLics ==
        old(ast.weirdLics || (ast.needProc && Recordable(ast.licensees, decode) && reading.licenseesVary))
      ensures ast.failed == old(ast.failed || ((ast.needProc || ast.weirdLics) && !Recordable(ast.licensees, decode)))
    {
      hide Recordable, KeysRead;
      if ast.needProc || ast.weirdLics {
        var ok := RecordKeypred(ast);
        if ok && reading.licenseesVary { ast.weirdLics := true; }
        if !ok { ast.failed := true; }
      }
    }

    method ReadAuthorizer(ast: Assertion, reading: Reading)
      requires Indexed() && ast in byId && !ast.processed
      modifies ast`authorizer, ast`weirdAuth, ast`failed
      ensures Indexed()
      ensures ast.authorizer == if old(ast.needProc || ast.weirdAuth) then reading.authorizer else old(ast.authorizer)
      ensures ast.weirdAuth == old(ast.weirdAuth || (ast.needProc && reading.authorizerVaries))
      ensures ast.failed == old(ast.failed || ((ast.needProc || ast.weirdAuth) && reading.authorizer.None?))
    {
      hide Bag, HashRespectsMatches;
      if ast.needProc || ast.weirdAuth {
        if reading.authorizerVaries { ast.weirdAuth := true; }
        ast.authorizer := reading.authorizer;
        if ast.authorizer.None? { ast.failed := true; }
      }
    }

    /** The first loop of `keynote_fix_fields`, for one assertion. An error is noted and otherwise
        ignored. */
    method ProcessOne(ast: Assertion, reading: Reading)
      requires Indexed() && ast in byId && !ast.processed && recorded == []
      modifies this`recorded, ast`keylist, ast`authorizer, ast`weirdAuth, ast`weirdLics, ast`weirdSig, ast`failed
      ensures Indexed() && recorded == []
      ensures ast.AsKeyFields() == AfterReading(old(ast.AsKeyFields()), ast.licensees, reading, decode)
    {
      hide Indexed, Recordable, KeysRead;
      ReadSignature(ast, reading);
      ReadLicensees(ast, reading);
      ReadAuthorizer(ast, reading);
    }

    /** The key fields of `ast` have been read, `k` being what they were before. */
    ghost predicate IsRead(ast: Assertion, k: KeyFields, reading: Reading)
      reads ast`licensees, ast`authorizer, ast`keylist, ast`needProc, ast`weirdAuth, ast`weirdLics, ast`weirdSig,
        ast`failed
    {
      ast.AsKeyFields() == AfterReading(k, ast.licensees, reading, decode)
    }

    ghost predicate HasRead(ast: Assertion, before: seq<KeyFields>, readings: nat -> Reading)
      reads ast`licensees, ast`authorizer, ast`keylist, ast`needProc, ast`weirdAuth, ast`weirdLics, ast`weirdSig,
        ast`failed
    {
      ast.id < |before| && IsRead(ast, before[ast.id], readings(ast.id))
    }

    /** The key fields have been read, or are as they were before the loop. */
    ghost predicate ReadOrNot(ast: Assertion, before: seq<KeyFields>, readings: nat -> Reading)
      reads ast`licensees, ast`authorizer, ast`keylist, ast`needProc, ast`weirdAuth, ast`weirdLics, ast`weirdSig,
        ast`failed
    {
      ast.id < |before| && (ast.AsKeyFields() == before[ast.id] || IsRead(ast, before[ast.id], readings(ast.id)))
    }

    method ProcessNext(ast: Assertion, readings: nat -> Reading, ghost before: seq<KeyFields>)
      requires Indexed() && ast in byId && !ast.processed && recorded == [] && ReadOrNot(ast, before, readings)
      modifies this`recorded, ast`keylist, ast`authorizer, ast`weirdAuth, ast`weirdLics, ast`weirdSig, ast`failed
      ensures Indexed() && recorded == [] && ReadOrNot(ast, before, readings) && HasRead(ast, before, readings)
    {
      hide Indexed, AfterReading;
      ReadingTwice(before[ast.id], ast.licensees, readings(ast.id), decode);
      ProcessOne(ast, readings(ast.id));
    }

    ghost function AllKeyFields(list: seq<Assertion>): (r: seq<KeyFields>)
      reads list
      ensures |r| == |list| && forall a :: 0 <= a < |r| ==> r[a] == list[a].AsKeyFields()
    {
      if list == [] then [] else AllKeyFields(list[..|list| - 1]) + [list[|list| - 1].AsKeyFields()]
    }

    lemma NoneRead(readings: nat -> Reading)
      requires forall a :: 0 <= a < |byId| ==> byId[a].id == a
      ensures forall ast :: ast in byId ==> ReadOrNot(ast, AllKeyFields(byId), readings)
    {
      hide IsRead;
    }

    lemma IdsInOrder()
      requires Indexed()
      ensures forall a :: 0 <= a < |byId| ==> byId[a].id == a
    {
    }

    lemma ListedIsKnown(h: nat, i: nat)
      requires Indexed() && h < table.Length && i < |table[h]|
      ensures table[h][i] in byId
    {
    }

    method ProcessBucket(h: nat, readings: nat -> Reading, ghost before: seq<KeyFields>)
      requires Indexed() && h < table.Length && recorded == [] && forall ast :: ast in byId ==> !ast.processed
      requires forall ast :: ast in byId ==> ReadOrNot(ast, before, readings)
      modifies this`recorded, byId`keylist, byId`authorizer, byId`weirdAuth, byId`weirdLics, byId`weirdSig, byId`failed
      ensures Indexed() && recorded == []
      ensures forall ast :: ast in byId ==> ReadOrNot(ast, before, readings)
      ensures forall ast :: ast in byId && old(HasRead(ast, before, readings)) ==> HasRead(ast, before, readings)
      ensures forall i :: 0 <= i < |table[h]| ==> HasRead(table[h][i], before, readings)
    {
      hide Bag, Indexed, HasRead, ReadOrNot, IsRead;
      var bucket := table[h];
      var i := 0;
      while i < |bucket|
        invariant 0 <= i <= |bucket| && Indexed() && recorded == []
        invariant forall ast :: ast in byId ==> ReadOrNot(ast, before, readings)
        invariant forall ast :: ast in byId && old(HasRead(ast, before, readings)) ==> HasRead(ast, before, readings)
        invariant forall k :: 0 <= k < i ==> HasRead(bucket[k], before, readings)
      {
        ListedIsKnown(h, i);
        ProcessNext(bucket[i], readings, before);
        i := i + 1;
      }
    }

    lemma AllKnown()
      requires Indexed()
      ensures forall g, i :: 0 <= g < table.Length && 0 <= i < |table[g]| ==> table[g][i] in byId
    {
    }

    lemma ReadMeans(ast: Assertion, before: seq<KeyFields>, readings: nat -> Reading)
      requires HasRead(ast, before, readings)
      ensures ast.id < |before| && IsRead(ast, before[ast.id], readings(ast.id))
    {
    }

    lemma AllListed()
      requires Indexed()
      ensures forall ast :: ast in byId ==>
        exists g, i :: 0 <= g < table.Length && 0 <= i < |table[g]| && table[g][i] == ast
    {
      hide Bag;
      forall ast | ast in byId
        ensures exists g, i :: 0 <= g < table.Length && 0 <= i < |table[g]| && table[g][i] == ast
      {
        assert ast in multiset(byId);
        var g, i := FromBag(table[..], ast);
        assert table[g][i] == ast;
      }
    }

    /** The first loop of `keynote_fix_fields`. */
    method ProcessFields(readings: nat -> Reading)
      requires Indexed() && recorded == [] && forall ast :: ast in byId ==> !ast.processed
      modifies this`recorded, byId`keylist, byId`authorizer, byId`weirdAuth, byId`weirdLics, byId`weirdSig, byId`failed
      ensures Indexed() && recorded == []
      ensures forall ast :: ast in byId ==> IsRead(ast, old(ast.AsKeyFields()), readings(ast.id))
    {
      hide Bag, Indexed, HasRead, ReadOrNot, IsRead;
      IdsInOrder();
      AllKnown();
      NoneRead(readings);
      ghost var before := AllKeyFields(byId);
      var h := 0;
      while h < table.Length
        invariant 0 <= h <= table.Length && Indexed() && recorded == []
        invariant forall ast :: ast in byId ==> ReadOrNot(ast, before, readings)
        invariant forall g, i :: 0 <= g < h && 0 <= i < |table[g]| ==> HasRead(table[g][i], before, readings)
      {
        ProcessBucket(h, readings, before);
        h := h + 1;
      }
      AllListed();
      forall ast | ast in byId ensures IsRead(ast, old(ast.AsKeyFields()), readings(ast.id)) {
        var g, i :| 0 <= g < table.Length && 0 <= i < |table[g]| && table[g][i] == ast;
        ReadMeans(ast, before, readings);
      }
    }

    // ----- look-ups -----

    lemma BucketFacts(h: nat)
      requires Valid() && h < table.Length
      ensures valuesNum >= 1 && ValidGraph(Graph()) && Graph().table[h] == Ids(table[h])
      ensures forall i :: 0 <= i < |table[h]| ==>
        var ast := table[h][i];
        ast.id < |byId| == |Graph().nodes| && byId[ast.id] == ast && Graph().nodes[ast.id] == ast.AsNode()
    {
      hide ValidState, ValidGraph;
    }

    static lemma NothingLeft(g: Graph, ids: seq<nat>, key: Key)
      requires forall k :: 0 <= k < |ids| ==> ids[k] < |g.nodes|
      ensures Select(g, ids[|ids|..], key) == []
    {
    }

    /** The places of a bucket before `i` whose assertion `key` signed. */
    static ghost function SignedBefore(bucket: seq<Assertion>, key: Key, i: nat): set<nat>
      requires i <= |bucket|
      reads bucket`authorizer
    {
      set k: nat | k < i && bucket[k].authorizer.Some? && SameKey(bucket[k].authorizer.value, key)
    }

    /** `ast` is the assertion of the bucket that `num` others signed by `key` come before. */
    static ghost predicate IsNth(bucket: seq<Assertion>, key: Key, num: nat, ast: Assertion?)
      reads bucket`authorizer
    {
      if ast == null then |SignedBefore(bucket, key, |bucket|)| <= num
      else exists i: nat ::
        && i < |bucket| && bucket[i] == ast && bucket[i].authorizer.Some?
        && SameKey(bucket[i].authorizer.value, key) && |SignedBefore(bucket, key, i)| == num
    }

    static lemma SignedStep(bucket: seq<Assertion>, key: Key, i: nat)
      requires i < |bucket|
      ensures SignedBefore(bucket, key, i + 1) ==
        if bucket[i].authorizer.Some? && SameKey(bucket[i].authorizer.value, key)
        then SignedBefore(bucket, key, i) + {i} else SignedBefore(bucket, key, i)
    {
      hide SameKey;
    }

    /** The scan of one bucket: the num-th assertion in it that `key` signed. */
    static method ScanBucket(bucket: seq<Assertion>, key: Key, num: nat, ghost g: Graph) returns (ast: Assertion?)
      requires forall i :: 0 <= i < |bucket| ==>
        bucket[i].id < |g.nodes| && g.nodes[bucket[i].id].authorizer == bucket[i].authorizer
      ensures var ids := Select(g, Ids(bucket), key);
        if num < |ids| then ast != null && ast in bucket && ast.id == ids[num] else ast == null
      ensures IsNth(bucket, key, num, ast)
    {
      hide Matches, Select, SameKey;
      forall a, b ensures Matches(a, b) == SameKey(a, b) { MatchesMeans(a, b); }
      assert SignedBefore(bucket, key, 0) == {};
      ghost var ids := Ids(bucket);
      var n, i := num, 0;
      while i < |bucket|
        invariant 0 <= i <= |bucket|
        invariant 0 <= n <= num
        invariant num - n <= |Select(g, ids, key)|
        invariant Select(g, ids, key)[num - n..] == Select(g, ids[i..], key)
        invariant |SignedBefore(bucket, key, i)| == num - n
      {
        ast := bucket[i];
        SignedStep(bucket, key, i);
        SelectStep(g, ids, key, i);
        if ast.authorizer.Some? && Matches(ast.authorizer.value, key) {
          if n == 0 {
            assert Select(g, ids, key)[num] == ast.id;
            return ast;
          }
          n := n - 1;
        }
        i := i + 1;
      }
      NothingLeft(g, ids, key);
      ast := null;
    }

    lemma HashInTable(key: Key)
      requires Valid()
      ensures hash(key) < table.Length == |Graph().table|
    {
    }

    static lemma FindAllIs(g: TrustGraph.Graph, hash: Key -> nat, key: Key)
      requires ValidGraph(g) && hash(key) < |g.table|
      ensures forall i :: 0 <= i < |g.table[hash(key)]| ==> g.table[hash(key)][i] < |g.nodes|
      ensures FindAll(g, hash, key) == Select(g, g.table[hash(key)], key)
    {
    }

    lemma NodesAreOfId(h: nat)
      requires Valid() && h < table.Length
      ensures forall i :: 0 <= i < |table[h]| ==>
        var ast := table[h][i];
        ast.id < |byId| == |Graph().nodes| && Graph().nodes[ast.id].authorizer == ast.authorizer
    {
      hide ValidState, ValidGraph;
      BucketFacts(h);
    }

    /** `keynote_find_assertion`: the num-th assertion of the key's bucket that `key` signed. */
    method FindAssertion(key: Key, num: nat) returns (ast: Assertion?)
      requires Valid()
      ensures var ids := FindAll(Graph(), hash, key);
        if num < |ids| then ast != null && ast == byId[ids[num]] && ast.id == ids[num] else ast == null
      ensures hash(key) < table.Length && IsNth(table[hash(key)], key, num, ast)
    {
      hide *;
      HashInTable(key);
      BucketFacts(hash(key));
      FindAllIs(Graph(), hash, key);
      NodesAreOfId(hash(key));
      ast := ScanBucket(table[hash(key)], key, num, Graph());
    }

    /** `keynote_in_action_authorizers` with an explicit algorithm. */
    method InActionAuthorizers(key: Key) returns (found: bool)
      requires Valid()
      ensures found == Authorized(Graph(), key)
      ensures found <==> exists i :: 0 <= i < |authorizers| && SameKey(authorizers[i], key)
    {
      hide SameKey, Matches;
      forall a, b ensures Matches(a, b) == SameKey(a, b) { MatchesMeans(a, b); }
      var i := 0;
      while i < |authorizers|
        invariant 0 <= i <= |authorizers|
        invariant forall k :: 0 <= k < i ==> !Matches(authorizers[k], key)
      {
        if Matches(authorizers[i], key) {
          assert Graph().authorizers[i] == authorizers[i];
          return true;
        }
        i := i + 1;
      }
      found := false;
    }

    /** `keynote_keylist_find`. */
    method KeylistFind(keylist: seq<KeyEntry>, name: string) returns (key: Option<Key>)
      ensures key == Lookup(keylist, name)
      ensures key == None ==> forall i :: 0 <= i < |keylist| ==> keylist[i].name != name
      ensures key != None ==> exists i: nat :: RecordedAt(keylist, name, i) && key == Some(keylist[i].key)
    {
      LookupMeans(keylist, name);
      var i := 0;
      while i < |keylist|
        invariant 0 <= i <= |keylist|
        invariant Lookup(keylist, name) == Lookup(keylist[i..], name)
      {
        if keylist[i].name == name {
          return Some(keylist[i].key);
        }
        i := i + 1;
      }
      key := None;
    }

    // ----- evaluating the Licensees field -----

    lemma VisibleRange()
      requires Valid()
      ensures valuesNum >= 1 && ValidGraph(Graph()) && Graph().top == valuesNum - 1
      ensures |Graph().nodes| == |byId| && InRange(Graph(), Visible(Cells()))
    {
    }

    static lemma InRangeAt(g: TrustGraph.Graph, vals: seq<int>, a: nat)
      requires InRange(g, vals) && a < |vals|
      ensures 0 <= vals[a] <= g.top
    {
    }

    lemma VisibleAt(ast: Assertion, a: nat)
      requires Valid() && a < |byId| && byId[a] == ast
      ensures |Cells()| == |byId| && Visible(Cells())[a] == if ast.progress.Done? then ast.result else 0
      ensures 0 <= Visible(Cells())[a] <= valuesNum - 1
    {
      hide ValidGraph, Graph;
      VisibleRange();
      InRangeAt(Graph(), Visible(Cells()), a);
      assert Cells()[a] == ast.AsCell();
    }

    static lemma BestOf(p: int, m: int)
      ensures p >= m ==> Max(p, m) == p
      ensures p <= m ==> Max(p, m) == m
    {
    }

    static lemma BestStep(p: int, v: int, m: int)
      ensures Max(p, Max(v, m)) == Max(if p < v then v else p, m)
    {
    }

    static lemma NoMax(vals: seq<int>, ids: seq<nat>)
      requires forall k :: 0 <= k < |ids| ==> ids[k] < |vals|
      ensures MaxOf(vals, ids[|ids|..]) == 0
    {
    }

    static lemma MaxOfStep(vals: seq<int>, ids: seq<nat>, i: nat)
      requires i < |ids| && forall k :: 0 <= k < |ids| ==> ids[k] < |vals|
      ensures MaxOf(vals, ids[i..]) == Max(vals[ids[i]], MaxOf(vals, ids[i + 1..]))
    {
      assert ids[i..][0] == ids[i] && ids[i..][1..] == ids[i + 1..];
    }

    /** `resolve_assertion`: the best result of a finished assertion that `key` signed. */
    method ResolveAssertion(key: Key) returns (p: int)
      requires Valid()
      ensures p == MaxOf(Visible(Cells()), FindAll(Graph(), hash, key))
    {
      hide *;
      VisibleRange();
      ghost var g, vals, ids := Graph(), Visible(Cells()), FindAll(Graph(), hash, key);
      NoMax(vals, ids);
      MaxOfRange(g, vals, ids);
      p := 0;
      var i := 0;
      var ast := FindAssertion(key, i);
      assert ids[0..] == ids;
      BestOf(0, MaxOf(vals, ids));
      while ast != null
        invariant 0 <= i <= |ids|
        invariant if i < |ids| then ast != null && ast == byId[ids[i]] else ast == null
        invariant 0 <= p <= valuesNum - 1
        invariant MaxOf(vals, ids) == Max(p, MaxOf(vals, ids[i..]))
        decreases |ids| - i
      {
        MaxOfRange(g, vals, ids[i + 1..]);
        MaxOfStep(vals, ids, i);
        VisibleAt(ast, ids[i]);
        BestStep(p, vals[ids[i]], MaxOf(vals, ids[i + 1..]));
        if ast.progress.Done? && p < ast.result {
          p := ast.result;
        }
        BestOf(p, MaxOf(vals, ids[i + 1..]));
        if p == valuesNum - 1 {
          return p;
        }
        i := i + 1;
        ast := FindAssertion(key, i);
      }
      BestOf(p, 0);
    }

    ghost function LeafValues(current: Assertion): Leaves
      requires Valid() && current in byId
      reads this`table, this`authorizers, this`valuesNum, this`byId, table, byId
    {
      LeavesOf(Graph(), hash, Visible(Cells()), current.id)
    }

    lemma PrincipalIs(current: Assertion, name: string)
      requires Valid() && current in byId
      ensures valuesNum >= 1 && ValidGraph(Graph()) && |Cells()| == |Graph().nodes|
      ensures LeafValues(current)(name) ==
        match Lookup(current.keylist, name)
        case Some(key) =>
          if Authorized(Graph(), key) then valuesNum - 1 else MaxOf(Visible(Cells()), FindAll(Graph(), hash, key))
        case None => MaxOf(Visible(Cells()), FindAll(Graph(), hash, Key(Plain, name)))
    {
      hide ValidState, ValidGraph, FindAll, MaxOf, Authorized;
      assert Graph().nodes[current.id] == current.AsNode();
    }

    /** A principal outside the recording pass: nothing while the flag is set, the best value
        for an action authorizer, otherwise what its assertions are worth. */
    method PrincipalValue(current: Assertion, name: string) returns (v: int)
      requires Valid() && current in byId
      ensures v == if donteval then 0 else LeafValues(current)(name)
    {
      hide *;
      if donteval {
        return 0;
      }
      PrincipalIs(current, name);
      var entry := KeylistFind(current.keylist, name);
      match entry
      case Some(key) =>
        var authorized := InActionAuthorizers(key);
        if authorized {
          v := valuesNum - 1;
        } else {
          v := ResolveAssertion(key);
        }
      case None =>
        v := ResolveAssertion(Key(Plain, name));
    }

    lemma LeafValuesRanged(current: Assertion)
      requires Valid() && current in byId
      ensures Ranged(LeafValues(current), valuesNum - 1)
    {
      LeavesRanged(Graph(), hash, Visible(Cells()), current.id);
    }

    /** The list of a `k-of`: the principals from left to right. */
    method ListValues(current: Assertion, names: seq<string>) returns (vals: seq<int>)
      requires Valid() && current in byId
      ensures |vals| == |names|
      ensures !donteval ==> vals == Licensees.LeafValues(names, LeafValues(current))
    {
      hide Valid, LeafValues;
      vals := [];
      var i := 0;
      while i < |names|
        invariant 0 <= i <= |names| && |vals| == i
        invariant !donteval ==> forall j :: 0 <= j < i ==> vals[j] == LeafValues(current)(names[j])
      {
        var v := PrincipalValue(current, names[i]);
        vals := vals + [v];
        i := i + 1;
      }
    }

    /** `keylist`: the rule is right-recursive, so the values are counted from the right. */
    method CountValues(vals: seq<int>)
      requires forall i :: 0 <= i < |vals| ==> 0 <= vals[i] < valuesNum
      requires kthArray.Length == valuesNum && forall x :: 0 <= x < valuesNum ==> kthArray[x] == 0
      modifies kthArray
      ensures forall x :: 0 <= x < valuesNum ==> kthArray[x] == CountEqual(vals, x)
    {
      var i := |vals|;
      while i > 0
        invariant 0 <= i <= |vals|
        invariant forall x :: 0 <= x < valuesNum ==> kthArray[x] == CountEqual(vals[i..], x)
      {
        i := i - 1;
        assert vals[i..][1..] == vals[i + 1..];
        kthArray[vals[i]] := kthArray[vals[i]] + 1;
      }
      assert vals[0..] == vals;
    }

    lemma PositiveValues()
      requires Valid()
      ensures valuesNum >= 1
    {
    }

    /** `k-of`: an error if the list is too short, otherwise the k-th best of its values. */
    method KOfValue(current: Assertion, k: int, names: seq<string>) returns (ok: bool, v: int)
      requires Valid() && current in byId
      modifies this`kthArray
      ensures ok == (|names| >= k)
      ensures v ==
        if donteval || !ok then 0 else KthUpTo(Licensees.LeafValues(names, LeafValues(current)), k, valuesNum - 1)
    {
      hide Valid, LeafValues;
      var vals := ListValues(current, names);
      if !donteval {
        PositiveValues();
        LeafValuesRanged(current);
        kthArray := new nat[valuesNum](_ => 0);
        CountValues(vals);
      }
      var keylistcount := |names|;
      if keylistcount < k {
        return false, 0;
      }
      ok := true;
      if donteval {
        v := 0;
      } else {
        v := GetKth(kthArray, k, vals);
      }
    }

    /** The semantic actions of the Licensees grammar, in the order the parser runs them. */
    method KeyExpression(current: Assertion, e: Expr) returns (ok: bool, v: int)
      requires Valid() && current in byId
      modifies this`donteval, this`kthArray
      ensures ok == WellFormed(e)
      ensures ok ==> (v, donteval) == ShortCircuit(e, LeafValues(current), valuesNum - 1, old(donteval))
      decreases e, 1
    {
      hide Valid, LeafValues;
      PositiveValues();
      match e
      case Principal(name) =>
        v := PrincipalValue(current, name);
        ok := true;
      case KOf(k, names) =>
        ok, v := KOfValue(current, k, names);
      case And(_, _) =>
        ok, v := Conjunction(current, e);
      case Or(_, _) =>
        ok, v := Disjunction(current, e);
    }

    /** `&&`: a left value of 0 sets the flag for the right side; the end clears it. */
    method Conjunction(current: Assertion, e: Expr) returns (ok: bool, v: int)
      requires Valid() && current in byId && e.And?
      modifies this`donteval, this`kthArray
      ensures ok == WellFormed(e)
      ensures ok ==> (v, donteval) == ShortCircuit(e, LeafValues(current), valuesNum - 1, old(donteval))
      decreases e, 0
    {
      hide Valid, LeafValues, ShortCircuit, WellFormed;
      PositiveValues();
      ConjunctionStep(e, LeafValues(current), valuesNum - 1, donteval);
      var x, y;
      ok, x := KeyExpression(current, e.left);
      if !ok { return false, 0; }
      if x == 0 { donteval := true; }
      ok, y := KeyExpression(current, e.right);
      if !ok { return false, 0; }
      v := if x > y then y else x;
      donteval := false;
    }

    /** `||`: a left value that cannot be improved sets the flag; the end clears it. */
    method Disjunction(current: Assertion, e: Expr) returns (ok: bool, v: int)
      requires Valid() && current in byId && e.Or?
      modifies this`donteval, this`kthArray
      ensures ok == WellFormed(e)
      ensures ok ==> (v, donteval) == ShortCircuit(e, LeafValues(current), valuesNum - 1, old(donteval))
      decreases e, 0
    {
      hide Valid, LeafValues, ShortCircuit, WellFormed;
      PositiveValues();
      DisjunctionStep(e, LeafValues(current), valuesNum - 1, donteval);
      var x, y;
      ok, x := KeyExpression(current, e.left);
      if !ok { return false, 0; }
      if x == valuesNum - 1 { donteval := true; }
      ok, y := KeyExpression(current, e.right);
      if !ok { return false, 0; }
      v := if x >= y then x else y;
      donteval := false;
    }

    lemma FieldValue(current: Assertion)
      requires Valid() && current in byId
      ensures valuesNum >= 1 && ValidGraph(Graph()) && current.id < |byId| == |Graph().nodes|
      ensures LicenseesValue(Graph(), hash, Visible(Cells()), current.id) ==
        match current.licensees
        case Missing => valuesNum - 1
        case Empty => 0
        case Given(e) => if WellFormed(e) then Value(e, LeafValues(current), valuesNum - 1) else 0
    {
      hide ValidState, ValidGraph;
      assert Graph().nodes[current.id] == current.AsNode();
    }

    /** One run of the parser over a Licensees expression: the flag is cleared first, and a
        syntax error counts as value 0. */
    method RunParser(current: Assertion, e: Expr) returns (s: int)
      requires Valid() && current in byId
      modifies this`donteval, this`kthArray
      ensures valuesNum >= 1
      ensures s == if WellFormed(e) then Value(e, LeafValues(current), valuesNum - 1) else 0
    {
      hide Valid, LeafValues;
      PositiveValues();
      donteval := false;
      LeafValuesRanged(current);
      ShortCircuitCorrect(e, LeafValues(current), valuesNum - 1, false);
      var ok;
      ok, s := KeyExpression(current, e);
      if !ok {
        s := 0;
      }
    }

    /** `keynote_parse_keypred(as, 0)` as `rec_evaluate_query` uses it. */
    method ParseKeypred(current: Assertion) returns (s: int)
      requires Valid() && current in byId
      modifies this`donteval, this`kthArray
      ensures Valid()
      ensures s == LicenseesValue(Graph(), hash, Visible(Cells()), current.id)
    {
      hide Valid, LeafValues, ValidGraph, Graph, LicenseesValue;
      match current.licensees
      case Missing =>
        s := valuesNum - 1;
        FieldValue(current);
      case Empty =>
        s := 0;
        FieldValue(current);
      case Given(e) =>
        s := RunParser(current, e);
        FieldValue(current);
    }

    // ----- the recursive query -----

    lemma NodeFacts(ast: Assertion)
      requires Valid() && ast in byId
      ensures valuesNum >= 1 && ValidGraph(Graph()) && ValidState(Graph(), Cells())
      ensures ast.id < |byId| == |Cells()| == |Graph().nodes| && byId[ast.id] == ast
      ensures Cells()[ast.id] == ast.AsCell() && Graph().nodes[ast.id] == ast.AsNode()
      ensures Graph().top == valuesNum - 1
      ensures ast.conditions.Outcome? ==> ast.conditions.value <= valuesNum - 1
    {
      assert Graph().nodes[ast.id] == ast.AsNode();
    }

    twostate lemma SameNodes(list: seq<Assertion>)
      requires forall b :: b in list ==> b.AsNode() == old(b.AsNode())
      ensures NodesOf(list) == old(NodesOf(list))
    {
    }

    twostate lemma CellsUpdated(ast: Assertion)
      requires ast in byId && byId == old(byId)
      requires forall a :: 0 <= a < |byId| ==> byId[a].id == a
      requires forall b :: b in byId && b != ast ==> b.AsCell() == old(b.AsCell())
      ensures Cells() == old(Cells())[ast.id := ast.AsCell()]
    {
      forall a | 0 <= a < |byId| ensures Cells()[a] == old(Cells())[ast.id := ast.AsCell()][a] {
        assert byId[a] == ast <==> a == ast.id;
      }
    }

    static lemma CellsStayValid(g: Graph, st: State, st': State, a: nat)
      requires ValidState(g, st) && a < |st| == |st'| && st' == st[a := st'[a]]
      requires 0 <= st'[a].result <= g.top
      requires st'[a].signature == st[a].signature || st'[a].signature == (if Trusted(g.nodes[a]) then Good else Bad)
      ensures ValidState(g, st')
    {
    }

    /** A step that writes the query fields of one assertion, within range, changes one cell and
        nothing else. */
    twostate lemma OneCellChanged(ast: Assertion)
      requires old(Valid()) && ast in byId && byId == old(byId)
      requires table == old(table) && table[..] == old(table[..])
      requires authorizers == old(authorizers) && valuesNum == old(valuesNum)
      requires forall b :: b in byId ==> b.AsNode() == old(b.AsNode())
      requires forall b :: b in byId && b != ast ==> b.AsCell() == old(b.AsCell())
      requires 0 <= ast.result <= valuesNum - 1
      requires ast.signature == old(ast.signature) || ast.signature == (if Trusted(ast.AsNode()) then Good else Bad)
      ensures Valid() && Graph() == old(Graph())
      ensures Cells() == old(Cells())[ast.id := ast.AsCell()]
    {
      SameNodes(byId);
      CellsUpdated(ast);
      CellsStayValid(Graph(), old(Cells()), Cells(), ast.id);
    }

    /** `keynote_evaluate_assertion`, the Conditions field being given: false on an error. */
    method EvaluateConditions(ast: Assertion) returns (ok: bool)
      modifies ast`result
      ensures ok == !ast.conditions.BadConditions?
      ensures ast.result == match ast.conditions
        case NoConditions => valuesNum - 1
        case Outcome(v) => v
        case BadConditions => 0
    {
      ok := true;
      match ast.conditions
      case NoConditions =>
        ast.result := valuesNum - 1;
      case Outcome(v) =>
        ast.result := v;
      case BadConditions =>
        ast.result := 0;
        ok := false;
    }

    /** The beginning of `rec_evaluate_query`: false if the Conditions field settles the matter. */
    method BeginEvaluation(ast: Assertion) returns (go: bool)
      requires Valid() && ast in byId
      modifies ast`progress, ast`result, ast`failed
      ensures Valid() && Graph() == old(Graph())
      ensures ast.id < |Cells()| == |Graph().nodes|
      ensures go == (!ast.conditions.BadConditions? && ConditionsValue(Graph(), ast.id) != 0)
      ensures go ==> Cells() == Prepared(Graph(), old(Cells()), ast.id)
      ensures !go ==> Cells() == Settled(old(Cells()), ast.id, ast.conditions.BadConditions? || old(ast.failed))
      ensures ast.failed == (ast.conditions.BadConditions? || old(ast.failed))
      ensures ast.progress == if go then InProgress else Done
    {
      hide Valid, ValidGraph, ValidState, Graph, Cells, NodesOf;
      NodeFacts(ast);
      ast.progress := InProgress;
      go := EvaluateConditions(ast);
      if !go {
        ast.progress := Done;
        ast.failed := true;
      } else if ast.result == 0 {
        ast.progress := Done;
        go := false;
      }
      OneCellChanged(ast);
      NodeFacts(ast);
    }

    /** The signature is checked if it was not before; without a good one the result is 0. */
    method CheckSignature(ast: Assertion)
      modifies ast`result, ast`signature
      ensures ast.signature ==
        if old(ast.signature) != Unchecked then old(ast.signature)
        else if ast.local || ast.verifies then Good else Bad
      ensures ast.result == if ast.signature == Good then old(ast.result) else 0
      ensures ast.AsNode() == old(ast.AsNode())
    {
      if ast.signature == Unchecked {
        ast.signature := if !ast.local then (if ast.verifies then Good else Bad) else Good;
      }
      if ast.signature != Good {
        ast.result := 0;
        ast.signature := Bad;
      }
    }

    /** The part of `rec_evaluate_query` after the search. */
    method FinishEvaluation(ast: Assertion) returns (p: int)
      requires Valid() && ast in byId
      requires ast.id < |Graph().nodes| && ast.result == ConditionsValue(Graph(), ast.id)
      modifies this`donteval, this`kthArray, ast`progress, ast`result, ast`signature
      ensures Valid() && Graph() == old(Graph())
      ensures ast.id < |Cells()| && Cells() == Finish(old(Graph()), hash, old(Cells()), ast.id)
      ensures p == Cells()[ast.id].result
    {
      hide Valid, ValidGraph, ValidState, Graph, Cells, NodesOf, LicenseesValue, ConditionsValue;
      NodeFacts(ast);
      VisibleRange();
      LicenseesRange(Graph(), hash, Visible(Cells()), ast.id);
      var s := ParseKeypred(ast);
      ast.result := if ast.result < s then ast.result else s;
      CheckSignature(ast);
      ast.progress := Done;
      OneCellChanged(ast);
      NodeFacts(ast);
      p := ast.result;
    }

    /** `rec_evaluate_query`: evaluate `ast` and, first, everything it may rest on. */
    method RecEvaluateQuery(ast: Assertion) returns (p: int)
      requires Valid() && ast in byId
      modifies this`donteval, this`kthArray, byId`progress, byId`result, byId`signature, byId`failed
      ensures Valid() && Graph() == old(Graph())
      ensures Cells() == Evaluate(old(Graph()), hash, old(Cells()), ast.id)
      ensures p == Cells()[ast.id].result
      decreases Pending(Mark(Cells(), ast.id)), 2, 0
    {
      hide Valid, ValidGraph, ValidState, Graph, Visit, Finish, SuccessorsOf, ConditionsValue;
      NodeFacts(ast);
      ghost var st := Cells();
      var go := BeginEvaluation(ast);
      if !go {
        return 0;
      }
      assert Pending(Cells()) == Pending(Mark(st, ast.id));
      NodeFacts(ast);
      ExploreKeys(ast);
      NodeFacts(ast);
      p := FinishEvaluation(ast);
    }

    static lemma VisitNothing(g: TrustGraph.Graph, hash: Key -> nat, st: State)
      requires ValidGraph(g) && ValidState(g, st)
      ensures Visit(g, hash, st, SuccessorsOf(g, hash, [])) == st
    {
    }

    /** The loop of `rec_evaluate_query` over the listed keys. */
    method ExploreKeys(ast: Assertion)
      requires Valid() && ast in byId
      modifies this`donteval, this`kthArray, byId`progress, byId`result, byId`signature, byId`failed
      ensures Valid() && Graph() == old(Graph())
      ensures Cells() == Visit(old(Graph()), hash, old(Cells()), SuccessorsOf(old(Graph()), hash, ast.keylist))
      decreases Pending(Cells()), 1, 2
    {
      hide Valid, ValidGraph, ValidState, Graph, Cells, Visit, FindAll;
      NodeFacts(ast);
      ghost var g, st := Graph(), Cells();
      ghost var all := SuccessorsOf(g, hash, ast.keylist);
      var kl := 0;
      while kl < |ast.keylist|
        invariant 0 <= kl <= |ast.keylist|
        invariant Valid() && Graph() == g && |Cells()| == |st| && ValidState(g, Cells())
        invariant Pending(Cells()) <= Pending(st)
        invariant Visit(g, hash, st, all) == Visit(g, hash, Cells(), SuccessorsOf(g, hash, ast.keylist[kl..]))
      {
        var key := ast.keylist[kl].key;
        assert ast.keylist[kl..][1..] == ast.keylist[kl + 1..];
        ghost var rest := SuccessorsOf(g, hash, ast.keylist[kl + 1..]);
        ghost var now := Cells();
        var authorized := InActionAuthorizers(key);
        if !authorized {
          VisitConcat(g, hash, now, FindAll(g, hash, key), rest);
          ExploreKey(key);
          NodeFacts(ast);
        } else {
          assert [] + rest == rest;
        }
        kl := kl + 1;
      }
      VisitNothing(g, hash, Cells());
    }

    static lemma EvaluateShrinks(g: TrustGraph.Graph, hash: Key -> nat, st: State, a: nat)
      requires ValidGraph(g) && ValidState(g, st) && a < |st| && st[a].progress.Untouched?
      ensures Pending(Mark(st, a)) < Pending(st)
      ensures ValidState(g, Evaluate(g, hash, st, a)) && Pending(Evaluate(g, hash, st, a)) <= Pending(st)
    {
      assert Pending(Mark(st, a)) == Pending(st) - {a};
    }

    /** One assertion found for a key: recurse if it was not touched before. What is in progress
        is skipped: that is how a cycle is cut. */
    method EvaluateIfNeeded(ast: Assertion)
      requires Valid() && ast in byId
      modifies this`donteval, this`kthArray, byId`progress, byId`result, byId`signature, byId`failed
      ensures valuesNum >= 1 && Valid() && Graph() == old(Graph())
      ensures ValidGraph(Graph()) && ValidState(Graph(), old(Cells())) && ast.id < |old(Cells())|
      ensures Cells() == VisitOne(Graph(), hash, old(Cells()), ast.id)
      decreases Pending(Cells()), 1, 0
    {
      hide Valid, ValidGraph, ValidState, Graph, Cells, Evaluate, CellsOf;
      NodeFacts(ast);
      if ast.progress == Untouched {
        EvaluateShrinks(Graph(), hash, Cells(), ast.id);
        var _ := RecEvaluateQuery(ast);
      }
    }

    lemma SessionFacts()
      requires Valid()
      ensures valuesNum >= 1 && ValidGraph(Graph()) && ValidState(Graph(), Cells())
      ensures |Graph().nodes| == |Cells()| == |byId|
    {
    }

    /** The loop of `rec_evaluate_query` over the assertions signed by one key. */
    method ExploreKey(key: Key)
      requires Valid()
      modifies this`donteval, this`kthArray, byId`progress, byId`result, byId`signature, byId`failed
      ensures Valid() && Graph() == old(Graph())
      ensures Cells() == Visit(old(Graph()), hash, old(Cells()), FindAll(old(Graph()), hash, key))
      decreases Pending(Cells()), 1, 1
    {
      hide *;
      SessionFacts();
      ghost var g, st := Graph(), Cells();
      ghost var ids := FindAll(g, hash, key);
      var i := 0;
      VisitedStart(g, hash, st, ids);
      var ast := FindAssertion(key, i);
      while ast != null
        invariant 0 <= i <= |ids|
        invariant Valid() && Graph() == g && Pending(Cells()) <= Pending(st)
        invariant VisitedTo(g, hash, st, ids, i, Cells())
        invariant if i < |ids| then ast != null && ast == byId[ids[i]] && ast.id == ids[i] else ast == null
        decreases |ids| - i
      {
        ghost var now := Cells();
        VisitedStep(g, hash, st, ids, i, now);
        EvaluateIfNeeded(ast);
        VisitedPending(g, hash, st, ids, i + 1, Cells());
        i := i + 1;
        ast := FindAssertion(key, i);
      }
      VisitedEnd(g, hash, st, ids, Cells());
    }

    // ----- the policy loop -----

    static lemma BestIsMax(prev: int, p: int)
      ensures Max(prev, p) == if p > prev then p else prev
    {
    }

    /** One policy: evaluate it, keep the best result, and let the delegation check veto. */
    method QueryPolicy(ast: Assertion, prev: int, valid: bool) returns (best: int)
      requires Valid() && ast in byId
      modifies this`donteval, this`kthArray, byId`progress, byId`result, byId`signature, byId`failed
      ensures Valid() && Graph() == old(Graph()) && ast.id < |old(Cells())|
      ensures Cells() == Evaluate(Graph(), hash, old(Cells()), ast.id)
      ensures best == if valid then Max(prev, Cells()[ast.id].result) else 0
    {
      hide *;
      NodeFacts(ast);
      var p := RecEvaluateQuery(ast);
      best := if p > prev then p else prev;
      BestIsMax(prev, p);
      if !valid {
        best := 0;
      }
    }

    static lemma NothingPrepended(rest: seq<nat>)
      ensures [] + rest == rest
    {
    }

    lemma TableFacts()
      requires Valid()
      ensures valuesNum >= 1 && |Graph().table| == table.Length && Graph().top == valuesNum - 1
    {
    }

    /** A locally trusted assertion whose authorizer is the string POLICY. */
    method CheckPolicy(ast: Assertion) returns (b: bool)
      requires Valid() && ast in byId
      ensures valuesNum >= 1 && ast.id < |Graph().nodes| && b == IsPolicy(Graph().nodes[ast.id])
    {
      NodeFacts(ast);
      b := ast.authorizer == Some(Key(Plain, "POLICY")) && ast.local;
    }

    static lemma BucketIds(g: TrustGraph.Graph, h: nat)
      requires ValidGraph(g) && h < |g.table|
      ensures forall i :: 0 <= i < |g.table[h][0..]| ==> g.table[h][0..][i] < |g.nodes|
    {
    }

    /** The loop of `keynote_evaluate_query` over one bucket; `best` if the highest value was reached. */
    method QueryBucket(h: nat, start: int, valid: nat -> bool, first: nat, ghost st: State)
      returns (prev: int, count: nat, best: bool)
      requires Valid() && h < table.Length == |Graph().table| && ValidGraph(Graph())
      requires QueriedTo(Graph(), hash, st, Cells(),
        PoliciesIn(Graph(), Graph().table[h][0..]) + PoliciesFrom(Graph(), h + 1), start, valid, first)
      modifies this`donteval, this`kthArray, byId`progress, byId`result, byId`signature, byId`failed
      ensures Valid() && Graph() == old(Graph()) && ValidGraph(Graph()) && ValidState(Graph(), st)
      ensures |Graph().table| == table.Length && |st| == |Graph().nodes|
      ensures best ==> Query(Graph(), hash, st, PoliciesFrom(Graph(), 0), 0, valid, 0) == (Cells(), prev)
      ensures !best ==> QueriedTo(Graph(), hash, st, Cells(), PoliciesFrom(Graph(), h + 1), prev, valid, count)
    {
      hide *;
      SessionFacts();
      TableFacts();
      ghost var g := Graph();
      BucketIds(g, h);
      QueriedFacts(g, hash, st, Cells(), PoliciesIn(g, g.table[h][0..]) + PoliciesFrom(g, h + 1), start, valid, first);
      prev, count, best := start, first, false;
      PoliciesBucket(g, h);
      BucketFacts(h);
      var bucket := table[h];
      var i := 0;
      while i < |bucket|
        invariant 0 <= i <= |bucket| == |g.table[h]|
        invariant Valid() && Graph() == g
        invariant QueriedTo(g, hash, st, Cells(), PoliciesIn(g, g.table[h][i..]) + PoliciesFrom(g, h + 1), prev, valid,
          count)
      {
        var ast := bucket[i];
        assert ast.id == g.table[h][i] by { BucketFacts(h); }
        PoliciesStep(g, h, i);
        ghost var rest := PoliciesIn(g, g.table[h][i + 1..]) + PoliciesFrom(g, h + 1);
        NothingPrepended(rest);
        var policy := CheckPolicy(ast);
        if policy {
          QueriedStep(g, hash, st, Cells(), ast.id, rest, prev, valid, count);
          prev := QueryPolicy(ast, prev, valid(count));
          count := count + 1;
          SessionFacts();
          if prev == valuesNum - 1 {
            return prev, count, true;
          }
        }
        i := i + 1;
      }
    }

    /** `keynote_evaluate_query` once the key fields are fixed. `valid(i)` is the answer of
        `validate_delgation` after the i-th policy. */
    method EvaluateQuery(valid: nat -> bool) returns (prev: int)
      requires Valid()
      modifies this`donteval, this`kthArray, byId`progress, byId`result, byId`signature, byId`failed
      ensures Valid() && Graph() == old(Graph())
      ensures ValidGraph(Graph()) && ValidState(Graph(), old(Cells()))
      ensures (Cells(), prev) == Query(Graph(), hash, old(Cells()), PoliciesFrom(Graph(), 0), 0, valid, 0)
    {
      hide *;
      SessionFacts();
      ghost var g, st := Graph(), Cells();
      QueriedStart(g, hash, st, valid);
      prev := 0;
      var count: nat := 0;
      var h := 0;
      TableFacts();
      while h < table.Length
        invariant 0 <= h <= table.Length == |g.table|
        invariant Valid() && Graph() == g && ValidGraph(g)
        invariant QueriedTo(g, hash, st, Cells(), PoliciesFrom(g, h), prev, valid, count)
      {
        PoliciesBucket(g, h);
        var best;
        prev, count, best := QueryBucket(h, prev, valid, count, st);
        if best {
          return;
        }
        h := h + 1;
      }
      PoliciesBucket(g, h);
      QueriedEnd(g, hash, st, Cells(), prev, valid, count);
    }

    // ----- moving assertions between buckets -----

    /** Take the assertion with this id out of the first bucket that has it. */
    method RemoveAssertion(assertid: nat) returns (found: bool)
      modifies table
      ensures found ==
        exists h, i :: 0 <= h < table.Length && 0 <= i < |old(table[h])| && old(table[h])[i].id == assertid
      ensures !found ==> table[..] == old(table[..])
      ensures found ==> exists h, i ::
        && 0 <= h < table.Length && 0 <= i < |old(table[h])|
        && old(table[h])[i].id == assertid && (forall k :: 0 <= k < i ==> old(table[h])[k].id != assertid)
        && (forall g, k :: 0 <= g < h && 0 <= k < |old(table[g])| ==> old(table[g])[k].id != assertid)
        && table[h] == old(table[h])[..i] + old(table[h])[i + 1..]
        && (forall g :: 0 <= g < table.Length && g != h ==> table[g] == old(table[g]))
        && table[..] == Without(old(table[..]), h, i)
    {
      var h := 0;
      while h < table.Length
        invariant 0 <= h <= table.Length && table[..] == old(table[..])
        invariant forall g, i :: 0 <= g < h && 0 <= i < |table[g]| ==> table[g][i].id != assertid
      {
        var bucket := table[h];
        var i := 0;
        while i < |bucket|
          invariant 0 <= i <= |bucket|
          invariant forall k :: 0 <= k < i ==> bucket[k].id != assertid
        {
          if bucket[i].id == assertid {
            assert old(table[h])[i].id == assertid;
            table[h] := bucket[..i] + bucket[i + 1..];
            return true;
          }
          i := i + 1;
        }
        h := h + 1;
      }
      found := false;
    }

    /** `keynote_add_htable(as, 1)`: an error if there is no authorizer, otherwise the assertion
        goes to the front of its authorizer's bucket. */
    method AddToTable(ast: Assertion) returns (ok: bool)
      requires forall k :: hash(k) < table.Length
      modifies table
      ensures ok == ast.authorizer.Some?
      ensures !ok ==> table[..] == old(table[..])
      ensures ok ==> table[..] == WithFront(old(table[..]), hash(ast.authorizer.value), ast)
      ensures forall h :: 0 <= h < table.Length ==>
        table[h] == if ok && h == hash(ast.authorizer.value) then [ast] + old(table[h]) else old(table[h])
    {
      match ast.authorizer
      case None => ok := false;
      case Some(key) =>
        table[hash(key)] := [ast] + table[hash(key)];
        ok := true;
    }

    /** No assertion of the first `b` buckets needs a move. */
    ghost predicate SettledBefore(b: nat)
      reads this`table, table, this`byId, byId`needProc, byId`weirdAuth, byId`processed
    {
      forall h, i :: 0 <= h < b && h < table.Length && 0 <= i < |table[h]| && table[h][i] in byId ==>
        !table[h][i].Misplaced()
    }

    ghost function MisplacedSet(): set<Assertion>
      reads this`byId, byId`needProc, byId`weirdAuth, byId`processed
    {
      set ast | ast in byId && ast.Misplaced()
    }

    /** The scan of one bucket for the first assertion that must move. */
    method FirstMisplaced(bucket: seq<Assertion>) returns (j: nat)
      ensures j <= |bucket| && (j < |bucket| ==> bucket[j].Misplaced())
      ensures forall k :: 0 <= k < j ==> !bucket[k].Misplaced()
    {
      j := 0;
      while j < |bucket| && !bucket[j].Misplaced()
        invariant 0 <= j <= |bucket|
        invariant forall k :: 0 <= k < j ==> !bucket[k].Misplaced()
      {
        j := j + 1;
      }
    }

    /** Unlink an assertion and link it at the front of the right bucket. */
    method Relink(ast: Assertion, ghost h: nat, ghost i: nat) returns (ok: bool)
      requires forall k :: hash(k) < table.Length
      requires h < table.Length && i < |table[h]| && table[h][i] == ast
      requires forall g, j :: 0 <= g < table.Length && 0 <= j < |table[g]| && table[g][j].id == ast.id ==>
        table[g][j] == ast
      requires Bag(table[..])[ast] == 1
      modifies table
      ensures ok == ast.authorizer.Some?
      ensures Bag(table[..]) == if ok then old(Bag(table[..])) else old(Bag(table[..])) - multiset{ast}
      ensures ok ==> Moved(old(table[..]), table[..], ast, hash(ast.authorizer.value))
    {
      hide *;
      ghost var before: seq<seq<Assertion>> := table[..];
      var found := RemoveAssertion(ast.id);
      assert before[h][i].id == ast.id;
      ghost var middle: seq<seq<Assertion>> := table[..];
      ghost var h', i' :| 0 <= h' < |before| && 0 <= i' < |before[h']| && before[h'][i'].id == ast.id
        && middle == Without(before, h', i');
      BagWithout(before, h', i');
      ok := AddToTable(ast);
      if ok {
        BagWithFront(middle, hash(ast.authorizer.value), ast);
        MovedTable(before, middle, h', i', ast, hash(ast.authorizer.value));
      }
    }

    lemma SameId(ast: Assertion)
      requires Indexed() && ast in byId
      ensures Bag(table[..])[ast] == 1
      ensures forall g, j :: 0 <= g < table.Length && 0 <= j < |table[g]| && table[g][j].id == ast.id ==>
        table[g][j] == ast
    {
      OnceInSequence(byId, ast);
    }

    /** One move of the repositioning loop. */
    method MoveAssertion(ast: Assertion, ghost h: nat, ghost i: nat) returns (ok: bool)
      requires Indexed() && ast in byId && ast.Misplaced()
      requires h < table.Length && i < |table[h]| && table[h][i] == ast && SettledBefore(h)
      modifies table, ast`needProc, ast`processed
      ensures !ast.Misplaced() && ok == ast.authorizer.Some?
      ensures ok ==> Indexed() && SettledBefore(h)
      ensures !ok ==> Bag(table[..]) == multiset(byId) - multiset{ast}
    {
      hide Bag;
      ghost var before: seq<seq<Assertion>> := table[..];
      SameId(ast);
      ast.needProc := false;
      ast.processed := true;
      ok := Relink(ast, h, i);
    }

    lemma AllSettled()
      requires Indexed() && SettledBefore(table.Length)
      ensures MisplacedSet() == {} && forall ast :: ast in byId ==> !ast.Misplaced()
    {
      forall ast | ast in byId ensures !ast.Misplaced() {
        assert ast in multiset(byId);
        var h, i := FromBag(table[..], ast);
        assert table[h][i] == ast;
      }
    }

    /** The repositioning loop of `keynote_fix_fields`: after each move it starts the bucket
        again. It ends, because every move clears a flag that nothing sets. It succeeds exactly
        if whatever must move has an authorizer; then all assertions are still there, each in
        the bucket of its authorizer's hash. Otherwise one of them is lost from the table. */
    method Reposition() returns (ok: bool)
      requires Indexed()
      modifies table, byId`needProc, byId`processed
      ensures ok == forall ast :: ast in byId && old(ast.Misplaced()) ==> ast.authorizer.Some?
      ensures ok ==> Indexed() && MisplacedSet() == {}
      ensures !ok ==>
        exists ast :: ast in byId && ast.authorizer.None? && Bag(table[..]) == multiset(byId) - multiset{ast}
    {
      hide Indexed, Bag;
      var i := 0;
      while i < table.Length
        invariant 0 <= i <= table.Length
        invariant Indexed() && SettledBefore(i)
        invariant forall ast :: ast in byId && ast.Misplaced() ==> old(ast.Misplaced())
        invariant forall ast :: ast in byId && old(ast.Misplaced()) && !ast.Misplaced() ==> ast.authorizer.Some?
        decreases MisplacedSet(), table.Length - i
      {
        var bucket := table[i];
        var j := FirstMisplaced(bucket);
        if j < |bucket| {
          var ast := bucket[j];
          ListedIsKnown(i, j);
          ghost var needy := MisplacedSet();
          ok := MoveAssertion(ast, i, j);
          if !ok {
            return;
          }
          assert ast in needy && MisplacedSet() <= needy - {ast};
        } else {
          i := i + 1;
        }
      }
      AllSettled();
      ok := true;
    }

    // ----- a query from the outside -----

    /** Nothing from earlier queries is left, except the answer for a signature that does not depend
        on the environment. */
    ghost predicate IsReset(ast: Assertion)
      reads ast`progress, ast`result, ast`failed, ast`processed
    {
      ast.progress == Untouched && ast.result == 0 && !ast.failed && !ast.processed
    }

    twostate predicate WasReset(ast: Assertion)
      reads ast
    {
      IsReset(ast) && ast.signature == if ast.weirdSig then Unchecked else old(ast.signature)
    }

    twostate predicate SignatureKept(ast: Assertion)
      reads ast
    {
      ast.signature == old(ast.signature) || (ast.weirdSig && ast.signature == Unchecked)
    }

    method ResetOne(ast: Assertion)
      requires Indexed() && ast in byId
      modifies ast`progress, ast`result, ast`processed, ast`failed, ast`signature
      ensures Indexed() && WasReset(ast)
    {
      hide Bag;
      ast.progress := Untouched;
      ast.result := 0;
      ast.processed := false;
      ast.failed := false;
      if ast.weirdSig {
        ast.signature := Unchecked;
      }
    }

    /** The reset loop of `kn_do_query`. */
    method ResetAssertions()
      requires Indexed()
      modifies byId`progress, byId`result, byId`processed, byId`failed, byId`signature
      ensures Indexed()
      ensures forall ast :: ast in byId ==>
        IsReset(ast) && ast.signature == if ast.weirdSig then Unchecked else old(ast.signature)
      ensures forall ast :: ast in byId ==>
        ast.progress == Untouched && ast.result == 0 && !ast.failed && !ast.processed
    {
      hide Bag, Indexed;
      var h := 0;
      while h < table.Length
        invariant 0 <= h <= table.Length && Indexed()
        invariant forall ast :: ast in byId ==> SignatureKept(ast)
        invariant forall g, i :: 0 <= g < h && 0 <= i < |table[g]| ==> WasReset(table[g][i])
      {
        var bucket := table[h];
        var i := 0;
        while i < |bucket|
          invariant 0 <= i <= |bucket| && Indexed()
          invariant forall ast :: ast in byId ==> SignatureKept(ast)
          invariant forall k :: 0 <= k < i ==> WasReset(bucket[k])
          invariant forall g, i :: 0 <= g < h && 0 <= i < |table[g]| ==> WasReset(table[g][i])
        {
          ListedIsKnown(h, i);
          ResetOne(bucket[i]);
          i := i + 1;
        }
        h := h + 1;
      }
      AllListed();
      forall ast | ast in byId ensures WasReset(ast) {
        var g, i :| 0 <= g < table.Length && 0 <= i < |table[g]| && table[g][i] == ast;
      }
    }

    /** The Conditions fields yield one of `num` return values, or an error. */
    ghost predicate ValuesBelow(num: nat)
      reads this`byId, byId`conditions
    {
      forall ast :: ast in byId && ast.conditions.Outcome? ==> ast.conditions.value < num
    }

    /** All key lists that can be recorded are. */
    ghost predicate AllKeys()
      reads this`byId, byId`keylist, byId`licensees
    {
      forall ast :: ast in byId && Recordable(ast.licensees, decode) ==> Answers(ast.keylist, ast.licensees, decode)
    }

    lemma AllKeysRecorded()
      requires AllKeys()
      ensures KeysRecorded()
    {
    }

    twostate lemma KeysProcessed(readings: nat -> Reading)
      requires old(KeysRecorded()) && byId == old(byId)
      requires forall ast :: ast in byId ==>
        IsRead(ast, old(ast.AsKeyFields()), readings(ast.id)) && ast.licensees == old(ast.licensees)
      ensures AllKeys()
    {
      hide Recordable, Answers, KeysRead;
      forall ast | ast in byId && Recordable(ast.licensees, decode)
        ensures Answers(ast.keylist, ast.licensees, decode) {
        KeysReadAnswer(ast.licensees, old(ast.keylist), decode);
        assert IsRead(ast, old(ast.AsKeyFields()), readings(ast.id));
      }
    }

    /** No assertion has been read yet. The lexer has no `0-of`. */
    ghost predicate AllNew()
      reads this`byId, byId`needProc, byId`keylist, byId`licensees
    {
      forall ast :: ast in byId ==>
        ast.needProc && ast.keylist == [] && (ast.licensees.Given? ==> PositiveCounts(ast.licensees.expr))
    }

    /** The key lists are those of the fields. */
    ghost predicate ListsAreFields()
      reads this`byId, byId`keylist, byId`licensees
    {
      forall ast :: ast in byId ==>
        && ast.keylist == KeysRead(ast.licensees, [], decode)
        && (ast.licensees.Given? ==> PositiveCounts(ast.licensees.expr))
    }

    lemma NodeAt(a: nat)
      requires Valid() && a < |byId|
      ensures valuesNum >= 1 && |Graph().nodes| == |byId| && Graph().nodes[a] == byId[a].AsNode()
    {
    }

    lemma GraphFromFields()
      requires Valid() && ListsAreFields()
      ensures FromFields(Graph(), decode)
    {
      hide Valid, Graph, KeysRead;
      SessionFacts();
      forall a | 0 <= a < |Graph().nodes|
        ensures Graph().nodes[a].keylist == KeysRead(Graph().nodes[a].licensees, [], decode)
        ensures Graph().nodes[a].licensees.Given? ==> PositiveCounts(Graph().nodes[a].licensees.expr)
      {
        NodeAt(a);
        assert byId[a] in byId;
      }
    }

    /** `keynote_fix_fields`: read the key fields that need it, then put every assertion into the
        right bucket. It fails exactly if an Authorizer field that is read yields no key. */
    method FixFields(readings: nat -> Reading) returns (ok: bool)
      requires Indexed() && recorded == [] && forall ast :: ast in byId ==> !ast.processed
      modifies this`recorded, table, byId`keylist, byId`authorizer, byId`needProc, byId`weirdAuth, byId`weirdLics,
        byId`weirdSig, byId`processed, byId`failed
      ensures recorded == [] && (old(KeysRecorded()) ==> AllKeys())
      ensures old(AllNew()) ==> ListsAreFields()
      ensures forall ast :: ast in byId ==>
        ast.keylist == old(if ast.needProc || ast.weirdLics then KeysRead(ast.licensees, ast.keylist, decode)
          else ast.keylist)
      ensures forall ast :: ast in byId ==>
        ast.failed == old(ast.failed || FailsToRead(ast.AsKeyFields(), ast.licensees, readings(ast.id), decode))
      ensures forall ast :: ast in byId ==>
        var reading := readings(ast.id);
        && ast.authorizer == (if old(ast.needProc || ast.weirdAuth) then reading.authorizer else old(ast.authorizer))
        && ast.weirdAuth == old(ast.weirdAuth || (ast.needProc && reading.authorizerVaries))
        && ast.weirdSig == old(ast.weirdSig || (ast.needProc && reading.signatureVaries))
        && ast.weirdLics ==
             old(ast.weirdLics || (ast.needProc && Recordable(ast.licensees, decode) && reading.licenseesVary))
        && (ast.failed <==>
             || old(ast.failed)
             || (old(ast.needProc || ast.weirdSig) && !reading.signatureParses)
             || (old(ast.needProc || ast.weirdLics) && !Recordable(ast.licensees, decode))
             || (old(ast.needProc || ast.weirdAuth) && reading.authorizer.None?))
      ensures ok == forall ast :: ast in byId && old(ast.needProc || ast.weirdAuth) ==>
        readings(ast.id).authorizer.Some?
      ensures ok ==> Indexed() && MisplacedSet() == {}
    {
      hide Indexed, KeysRecorded, AllKeys, Bag, Recordable, Answers, KeysRead, MisplacedSet;
      ProcessFields(readings);
      if old(KeysRecorded()) {
        KeysProcessed(readings);
      }
      forall ast | ast in byId
        ensures ast.failed == old(ast.failed || FailsToRead(ast.AsKeyFields(), ast.licensees, readings(ast.id), decode))
        ensures ast.keylist == old(if ast.needProc || ast.weirdLics then KeysRead(ast.licensees, ast.keylist, decode)
          else ast.keylist)
        ensures ast.Misplaced() == old(ast.needProc || ast.weirdAuth)
        ensures ast.weirdAuth == old(ast.weirdAuth || (ast.needProc && readings(ast.id).authorizerVaries))
        ensures ast.weirdSig == old(ast.weirdSig || (ast.needProc && readings(ast.id).signatureVaries))
        ensures ast.weirdLics ==
          old(ast.weirdLics || (ast.needProc && Recordable(ast.licensees, decode) && readings(ast.id).licenseesVary))
        ensures !old(ast.needProc || ast.weirdAuth) ==> ast.authorizer == old(ast.authorizer)
        ensures old(ast.needProc || ast.weirdAuth) ==> ast.authorizer == readings(ast.id).authorizer
      {
        assert IsRead(ast, old(ast.AsKeyFields()), readings(ast.id));
      }
      ok := Reposition();
    }

    /** The cell in which a query finds an assertion, given what reading its key fields yields. */
    ghost function StartCell(ast: Assertion, reading: Reading): Cell
      reads ast`authorizer, ast`keylist, ast`needProc, ast`weirdAuth, ast`weirdLics, ast`weirdSig, ast`failed,
        ast`licensees, ast`signature
    {
      Cell(Untouched, 0, if ast.weirdSig then Unchecked else ast.signature,
        FailsToRead(ast.AsKeyFields(), ast.licensees, reading, decode))
    }

    ghost function StartUpTo(readings: nat -> Reading, n: nat): (st: State)
      requires n <= |byId|
      reads this`byId, byId
      ensures |st| == n && forall a :: 0 <= a < n ==> st[a] == StartCell(byId[a], readings(a))
    {
      if n == 0 then [] else StartUpTo(readings, n - 1) + [StartCell(byId[n - 1], readings(n - 1))]
    }

    ghost function StartCells(readings: nat -> Reading): (st: State)
      reads this`byId, byId
      ensures |st| == |byId| && forall a :: 0 <= a < |st| ==> st[a] == StartCell(byId[a], readings(a))
    {
      StartUpTo(readings, |byId|)
    }

    twostate lemma CellsStarted(readings: nat -> Reading)
      requires byId == old(byId)
      requires forall a :: 0 <= a < |byId| ==> byId[a].id == a
      requires forall ast :: ast in byId ==> ast.AsCell() == old(StartCell(ast, readings(ast.id)))
      ensures Cells() == old(StartCells(readings))
    {
    }

    ghost predicate ReadyCell(ast: Assertion)
      reads this`valuesNum, ast`progress, ast`result, ast`signature, ast`conditions
    {
      && ast.progress == Untouched && ast.result == 0
      && (ast.conditions.Outcome? ==> ast.conditions.value < valuesNum)
      && (ast.local ==> ast.signature != Bad)
    }

    lemma ListedAtMostOnce()
      requires Indexed() && valuesNum >= 1
      ensures ListedOnce(Graph())
    {
      hide Bag;
      var t: seq<seq<Assertion>> := table[..];
      forall h, i, h', i' | 0 <= h < |t| && 0 <= i < |t[h]| && 0 <= h' < |t| && 0 <= i' < |t[h']|
        && t[h][i].id == t[h'][i'].id
        ensures h == h' && i == i'
      {
        assert t[h][i] in byId && t[h'][i'] in byId;
        OnceInSequence(byId, t[h][i]);
        OnePosition(t, h, i, h', i');
      }
      assert Graph().table == IdTable(t);
    }

    /** With the assertions reset and none misplaced, the session is ready for the search. */
    lemma ReadyForQuery()
      requires Indexed() && MisplacedSet() == {} && valuesNum >= 1
      requires forall ast :: ast in byId ==> ReadyCell(ast)
      ensures Valid() && IndexComplete(Graph(), hash) && Started(Cells())
    {
      hide Bag;
      forall h, i | 0 <= h < table.Length && 0 <= i < |table[h]|
        ensures table[h][i].id < |byId| && byId[table[h][i].id] == table[h][i] && PlacedAt(table[h][i], h)
      {
        assert table[h][i] in byId;
        assert table[h][i] !in MisplacedSet();
      }
      forall a | 0 <= a < |byId|
        ensures byId[a].conditions.Outcome? ==> byId[a].conditions.value < valuesNum
        ensures Cells()[a].signature != Unchecked ==> (Cells()[a].signature == Good <==> Trusted(Graph().nodes[a]))
        ensures Cells()[a].result == 0 && Cells()[a].progress == Untouched
      {
        assert ReadyCell(byId[a]);
      }
      ListedAtMostOnce();
      forall a | 0 <= a < |byId| ensures Listed(Graph(), a) {
        assert byId[a] in multiset(byId);
        var h, i := FromBag(table[..], byId[a]);
        assert Graph().table[h][i] == a;
      }
    }

    /** From the reset of `kn_do_query` to the end of `keynote_fix_fields`. */
    method PrepareQuery(readings: nat -> Reading) returns (ok: bool)
      requires Indexed() && recorded == [] && valuesNum >= 1 && LocalTrusted() && ValuesBelow(valuesNum)
      modifies this`recorded, table, byId`progress, byId`result, byId`signature, byId`failed, byId`needProc,
        byId`weirdAuth, byId`weirdLics, byId`weirdSig, byId`processed, byId`keylist, byId`authorizer
      ensures recorded == [] && (old(KeysRecorded()) ==> AllKeys())
      ensures old(AllNew()) ==> ListsAreFields()
      ensures LocalTrusted()
      ensures ok == forall ast :: ast in byId && old(ast.needProc || ast.weirdAuth) ==>
        readings(ast.id).authorizer.Some?
      ensures ok ==>
        && Indexed() && Valid() && IndexComplete(Graph(), hash)
        && Started(Cells()) && Cells() == old(StartCells(readings))
    {
      hide Indexed, KeysRecorded, AllKeys, AllNew, ListsAreFields, Bag, Recordable, Answers, KeysRead, MisplacedSet,
        Valid, IndexComplete,
        ValidState, ValidGraph, Graph, Started, StartCells, Cells;
      ResetAssertions();
      ok := FixFields(readings);
      if ok {
        forall ast | ast in byId
          ensures ReadyCell(ast) && ast.AsCell() == old(StartCell(ast, readings(ast.id)))
        {
        }
        ReadyForQuery();
        IdsInOrder();
        CellsStarted(readings);
      }
    }

    lemma ValidTrusts()
      requires Valid()
      ensures LocalTrusted()
    {
      hide ValidGraph;
      forall ast | ast in byId && ast.local ensures ast.signature != Bad {
        NodeFacts(ast);
      }
    }

    /** The end of `keynote_evaluate_query`. */
    method RunQuery(valid: nat -> bool) returns (r: int)
      requires Indexed() && Valid() && IndexComplete(Graph(), hash) && Started(Cells())
      modifies this`donteval, this`kthArray, byId`progress, byId`result, byId`signature, byId`failed
      ensures Indexed() && Valid() && LocalTrusted() && Graph() == old(Graph()) && r >= 0
      ensures old(ListsAreFields()) ==> FromFields(Graph(), decode)
      ensures ValidGraph(Graph()) && ValidState(Graph(), old(Cells()))
        && (Cells(), r) == WholeQuery(Graph(), hash, old(Cells()), valid)
      ensures forall v: seq<int> :: IsPlainSolution(Graph(), v) ==> r <= PolicyValue(Graph(), v)
      ensures Recorded(Graph()) && CyclesEnteredOnce(Graph()) && (forall j: nat :: valid(j)) ==>
        forall v: seq<int> :: IsPlainSolution(Graph(), v) ==> r == PolicyValue(Graph(), v)
      ensures AnswerMeans(Graph(), valid, r)
    {
      hide *;
      SessionFacts();
      ghost var start := Cells();
      r := EvaluateQuery(valid);
      ValidTrusts();
      if old(ListsAreFields()) {
        GraphFromFields();
      }
      QueryRange(Graph(), hash, start, PoliciesFrom(Graph(), 0), 0, valid, 0);
      WholeQueryIs(Graph(), hash, start, valid);
      EverySolution(Graph(), hash, start, valid);
      QueryMeans(Graph(), hash, start, valid);
    }

    /** `kn_do_query`: -1 without action authorizers or return values, or if an Authorizer field
        that had to be read yields no key; otherwise the result of the query on freshly reset
        assertions, with every assertion in the bucket of its authorizer's hash. That result is
        never more than the compliance value of RFC 2704, and exactly that if every cycle is
        entered at one assertion only and the delegation check never vetoes. */
    method DoQuery(returnvalues: Option<nat>, readings: nat -> Reading, valid: nat -> bool) returns (r: int)
      requires Indexed() && recorded == []
      requires returnvalues == None || returnvalues.value >= 1
      requires LocalTrusted() && ValuesBelow(if returnvalues.Some? then returnvalues.value else valuesNum)
      modifies this`valuesNum, this`donteval, this`kthArray, this`recorded, table, byId`progress, byId`result,
        byId`signature, byId`failed, byId`needProc, byId`weirdAuth, byId`weirdLics, byId`weirdSig, byId`processed,
        byId`keylist, byId`authorizer
      ensures recorded == [] && (old(KeysRecorded()) ==> KeysRecorded()) && LocalTrusted()
      ensures r == -1 <==>
        || authorizers == [] || (returnvalues == None && old(valuesNum) == 0)
        || exists ast :: ast in byId && old(ast.needProc || ast.weirdAuth) && readings(ast.id).authorizer.None?
      ensures r != -1 ==>
        && Indexed() && Valid() && IndexComplete(Graph(), hash) && ValidGraph(Graph())
        && (old(KeysRecorded()) ==> AllKeys())
        && ValidState(Graph(), old(StartCells(readings)))
        && (Cells(), r) == WholeQuery(Graph(), hash, old(StartCells(readings)), valid)
      ensures r != -1 && old(AllNew()) ==> FromFields(Graph(), decode)
      ensures r != -1 ==> forall v: seq<int> :: IsPlainSolution(Graph(), v) ==> r <= PolicyValue(Graph(), v)
      ensures r != -1 && Recorded(Graph()) && CyclesEnteredOnce(Graph()) && (forall j: nat :: valid(j)) ==>
        forall v: seq<int> :: IsPlainSolution(Graph(), v) ==> r == PolicyValue(Graph(), v)
      ensures r != -1 ==> AnswerMeans(Graph(), valid, r) && Graph().top == valuesNum - 1
      ensures authorizers != [] && returnvalues.Some? ==> valuesNum == returnvalues.value
      ensures authorizers == [] || returnvalues.None? ==> valuesNum == old(valuesNum)
    {
      hide *;
      if authorizers == [] || (returnvalues == None && valuesNum == 0) {
        return -1;
      }
      if returnvalues.Some? {
        valuesNum := returnvalues.value;
      }
      var ok := PrepareQuery(readings);
      if old(KeysRecorded()) {
        AllKeysRecorded();
      }
      if !ok {
        return -1;
      }
      r := RunQuery(valid);
      TableFacts();
    }

    /** The recording pass has found every principal that the evaluation will look up, provided
        the names of the Licensees fields decode. */
    lemma RecordedGraph()
      requires Valid() && AllKeys()
      requires forall ast :: ast in byId && ast.licensees.Given? && WellFormed(ast.licensees.expr) ==>
        AllDecode(Names(ast.licensees.expr), decode)
      ensures Recorded(Graph())
    {
      hide Valid, Graph, WellFormed;
      SessionFacts();
      forall a, s | 0 <= a < |Graph().nodes| && Graph().nodes[a].licensees.Given?
        && WellFormed(Graph().nodes[a].licensees.expr) && s in Names(Graph().nodes[a].licensees.expr)
        ensures Lookup(Graph().nodes[a].keylist, s).Some?
      {
        NodeAt(a);
        assert Recordable(byId[a].licensees, decode) && Answers(byId[a].keylist, byId[a].licensees, decode);
      }
    }
  }

  /** A session under the hash of `keynote_keyhash`. `numbers` gives the big numbers of an RSA or DSA
      key as a function of its material. */
  method NewSession(numbers: string -> seq<nat>, decode: string -> Option<Key>) returns (s: Session)
    ensures fresh(s) && fresh(s.table) && s.table.Length == 37
    ensures s.hash == Hasher(numbers, HASHTABLESIZE) && s.decode == decode
    ensures s.Indexed() && s.KeysRecorded() && s.LocalTrusted() && s.recorded == [] && s.byId == []
      && s.authorizers == [] && s.valuesNum == 0
  {
    KeyHashRespectsMatches(numbers, HASHTABLESIZE);
    s := new Session(HASHTABLESIZE, Hasher(numbers, HASHTABLESIZE), decode);
  }
}
