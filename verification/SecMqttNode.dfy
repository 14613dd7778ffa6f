/** The publisher as an object: the fields of the class SecMqtt that Phases I and II use. */
module SecMqttNode {
  import opened Options
  import opened CArithmetic
  import opened CStrings
  import opened ShareText
  import opened ShareStrings
  import opened Database
  import opened ProtocolSteps

  /** What one round of `loop()` brings: perhaps an acknowledgement. */
  datatype Arrival = Nothing | Received(i: nat, ack: Ack, junk: Hash)

  /** The wait loop of `SecConnect`: it ends when all KeyStores are verified, when the time is up
      (the arrivals end), or when an acknowledgement was wrong. */
  function Awaited(p: Publisher, hpk: Hash, arrivals: seq<Arrival>): Publisher
    requires forall k :: 0 <= k < |arrivals| && arrivals[k].Received? ==> arrivals[k].i < |p.ksn|
    decreases |arrivals|
  {
    if p.status == GoodNonce then p
    else if arrivals == [] then p.(status := TimedOut)
    else if p.status == BadNonce then p
    else if arrivals[0].Nothing? then Awaited(p, hpk, arrivals[1..])
    else Awaited(AfterAck(p, arrivals[0].i, arrivals[0].ack, hpk, arrivals[0].junk), hpk, arrivals[1..])
  }

  lemma AwaitedNext(p: Publisher, hpk: Hash, arrivals: seq<Arrival>, k: nat)
    requires p.status != GoodNonce && k < |arrivals|
    requires forall k :: 0 <= k < |arrivals| && arrivals[k].Received? ==> arrivals[k].i < |p.ksn|
    ensures Awaited(p, hpk, arrivals[k..]) ==
      if p.status == BadNonce then p
      else if arrivals[k].Nothing? then Awaited(p, hpk, arrivals[k + 1..])
      else Awaited(AfterAck(p, arrivals[k].i, arrivals[k].ack, hpk, arrivals[k].junk), hpk, arrivals[k + 1..])
  {
    assert arrivals[k..][0] == arrivals[k] && arrivals[k..][1..] == arrivals[k + 1..];
  }

  lemma AwaitedEnd(p: Publisher, hpk: Hash, arrivals: seq<Arrival>)
    requires forall k :: 0 <= k < |arrivals| && arrivals[k].Received? ==> arrivals[k].i < |p.ksn|
    requires p.status == GoodNonce || arrivals == []
    ensures Awaited(p, hpk, arrivals) == if p.status == GoodNonce then p else p.(status := TimedOut)
  {
  }

  // ----- what the wait loop decides -----

  /** The acknowledgement decrypts under this key to a hash that is H(pk) once the nonce is off. */
  ghost predicate RightAnswer(a: Arrival, key: Block, nonce: Nonce, hpk: Hash) {
    a.Received? &&
    var plain := if a.ack.key == key then a.ack.plain else a.junk;
    forall j :: 0 <= j < 32 ==> plain[j] ^ nonce[j % 16] == hpk[j]
  }

  ghost predicate WrongAnswer(a: Arrival, ksn: seq<Entry>, hpk: Hash) {
    a.Received? && a.i < |ksn| && !RightAnswer(a, ksn[a.i].masterkey, ksn[a.i].nonce, hpk)
  }

  /** The first `w` arrivals bring no wrong answer; the next one, if there is one, does. */
  ghost predicate UpToWrong(ksn: seq<Entry>, hpk: Hash, arrivals: seq<Arrival>, w: nat) {
    && w <= |arrivals| && (forall k :: 0 <= k < w ==> !WrongAnswer(arrivals[k], ksn, hpk))
    && (w < |arrivals| ==> WrongAnswer(arrivals[w], ksn, hpk))
  }

  ghost predicate Answered(arrivals: seq<Arrival>, i: nat) {
    exists k :: 0 <= k < |arrivals| && arrivals[k].Received? && arrivals[k].i == i
  }

  /** At least one of these arrivals is an answer, and every KeyStore is among those that answered or
      was verified before. */
  ghost predicate AllAnswered(ksn: seq<Entry>, arrivals: seq<Arrival>) {
    && (exists k :: 0 <= k < |arrivals| && arrivals[k].Received?)
    && (forall i: nat :: i < |ksn| ==> ksn[i].verified || Answered(arrivals, i))
  }

  lemma AnswerIs(a: Arrival, e: Entry, hpk: Hash)
    requires a.Received?
    ensures Masked(CbcDecrypt(a.ack, e.masterkey, a.junk), e.nonce) == hpk <==>
      RightAnswer(a, e.masterkey, e.nonce, hpk)
  {
    var plain := CbcDecrypt(a.ack, e.masterkey, a.junk);
    if RightAnswer(a, e.masterkey, e.nonce, hpk) {
      assert forall j :: 0 <= j < 32 ==> Masked(plain, e.nonce)[j] == hpk[j];
    }
  }

  /** Two lists of KeyStores that differ in their flags only. */
  ghost predicate SameKeys(ksn: seq<Entry>, ksn': seq<Entry>) {
    |ksn'| == |ksn| && forall i :: 0 <= i < |ksn| ==>
      ksn'[i].masterkey == ksn[i].masterkey && ksn'[i].nonce == ksn[i].nonce
  }

  ghost predicate SameFlags(ksn: seq<Entry>, ksn': seq<Entry>) {
    |ksn'| == |ksn| && forall i :: 0 <= i < |ksn| ==> ksn'[i].verified == ksn[i].verified
  }

  ghost predicate Waits(p: Publisher) {
    p.status != GoodNonce && p.status != BadNonce
  }

  /** One arrival before the first wrong one. */
  lemma AwaitedOne(p: Publisher, hpk: Hash, a: Arrival)
    requires Waits(p) && a.Received? && a.i < |p.ksn|
    ensures var p' := AfterAck(p, a.i, a.ack, hpk, a.junk);
      && SameKeys(p.ksn, p'.ksn)
      && (if WrongAnswer(a, p.ksn, hpk) then p'.status == BadNonce
          else
            && (forall i :: 0 <= i < |p.ksn| ==> p'.ksn[i].verified == (p.ksn[i].verified || i == a.i))
            && p'.status == if (forall i :: 0 <= i < |p.ksn| ==> p.ksn[i].verified || i == a.i) then GoodNonce
                 else p.status)
  {
    hide Masked, RightAnswer;
    AnswerIs(a, p.ksn[a.i], hpk);
  }

  lemma SameWrong(ksn: seq<Entry>, ksn': seq<Entry>, hpk: Hash, a: Arrival)
    requires SameKeys(ksn, ksn')
    ensures WrongAnswer(a, ksn', hpk) == WrongAnswer(a, ksn, hpk)
  {
  }

  /** The outcome of the wait: verified if all have answered before a wrong answer came, otherwise
      refused if one came and the time was not up right after it, otherwise timed out. */
  lemma {:induction false} AwaitedOutcome(p: Publisher, hpk: Hash, arrivals: seq<Arrival>, w: nat)
    requires Waits(p) && UpToWrong(p.ksn, hpk, arrivals, w)
    requires forall k :: 0 <= k < |arrivals| && arrivals[k].Received? ==> arrivals[k].i < |p.ksn|
    ensures Awaited(p, hpk, arrivals).status ==
      if AllAnswered(p.ksn, arrivals[..w]) then GoodNonce else if w + 1 < |arrivals| then BadNonce else TimedOut
    decreases |arrivals|
  {
    hide RightAnswer, AfterAck;
    if arrivals != [] {
      var a, rest := arrivals[0], arrivals[1..];
      assert forall k :: 0 <= k < |rest| ==> rest[k] == arrivals[k + 1];
      if a.Nothing? {
        assert w > 0;
        AwaitedOutcome(p, hpk, rest, w - 1);
        AnsweredAfterNothing(p.ksn, arrivals[..w], rest[..w - 1]);
      } else {
        AwaitedOne(p, hpk, a);
        var p' := AfterAck(p, a.i, a.ack, hpk, a.junk);
        if w > 0 {
          AnsweredAfterOne(p.ksn, p'.ksn, arrivals[..w], rest[..w - 1]);
          if p'.status != GoodNonce {
            forall k | 0 <= k < |rest| ensures WrongAnswer(rest[k], p'.ksn, hpk) == WrongAnswer(rest[k], p.ksn, hpk) {
              SameWrong(p.ksn, p'.ksn, hpk, rest[k]);
            }
            AwaitedOutcome(p', hpk, rest, w - 1);
          }
        }
      }
    }
  }

  lemma AnsweredAfterNothing(ksn: seq<Entry>, all: seq<Arrival>, rest: seq<Arrival>)
    requires all != [] && all[0].Nothing? && rest == all[1..]
    ensures AllAnswered(ksn, all) == AllAnswered(ksn, rest)
  {
    forall i: nat | i < |ksn| ensures Answered(all, i) == Answered(rest, i) {
      if Answered(all, i) {
        var k :| 0 <= k < |all| && all[k].Received? && all[k].i == i;
        assert rest[k - 1] == all[k];
      }
      if Answered(rest, i) {
        var k :| 0 <= k < |rest| && rest[k].Received? && rest[k].i == i;
        assert all[k + 1] == rest[k];
      }
    }
    if exists k :: 0 <= k < |all| && all[k].Received? {
      var k :| 0 <= k < |all| && all[k].Received?;
      assert rest[k - 1].Received?;
    }
    if exists k :: 0 <= k < |rest| && rest[k].Received? {
      var k :| 0 <= k < |rest| && rest[k].Received?;
      assert all[k + 1].Received?;
    }
  }

  lemma AnsweredAfterOne(ksn: seq<Entry>, ksn': seq<Entry>, all: seq<Arrival>, rest: seq<Arrival>)
    requires all != [] && all[0].Received? && all[0].i < |ksn| == |ksn'| && rest == all[1..]
    requires forall i :: 0 <= i < |ksn| ==> ksn'[i].verified == (ksn[i].verified || i == all[0].i)
    ensures (forall i :: 0 <= i < |ksn| ==> ksn'[i].verified) ==> AllAnswered(ksn, all)
    ensures !(forall i :: 0 <= i < |ksn| ==> ksn'[i].verified) ==> AllAnswered(ksn, all) == AllAnswered(ksn', rest)
  {
    assert all[0].Received?;
    forall i: nat | i < |ksn|
      ensures (ksn[i].verified || Answered(all, i)) <==> (ksn'[i].verified || Answered(rest, i))
    {
      if Answered(all, i) {
        var k :| 0 <= k < |all| && all[k].Received? && all[k].i == i;
        if k > 0 { assert rest[k - 1] == all[k]; }
      }
      if Answered(rest, i) {
        var k :| 0 <= k < |rest| && rest[k].Received? && rest[k].i == i;
        assert all[k + 1] == rest[k];
      }
    }
    if !(forall i :: 0 <= i < |ksn| ==> ksn'[i].verified) && AllAnswered(ksn, all) {
      var i: nat :| i < |ksn| && !ksn'[i].verified;
      assert Answered(rest, i);
    }
  }

  /** Some arrival for KeyStore `i` is a right answer. */
  ghost predicate Proved(arrivals: seq<Arrival>, i: nat, key: Block, nonce: Nonce, hpk: Hash) {
    exists k :: 0 <= k < |arrivals| && arrivals[k].Received? && arrivals[k].i == i &&
      RightAnswer(arrivals[k], key, nonce, hpk)
  }

  /** The wait leaves keys and nonces alone, and verifies only KeyStores that gave a right answer. */
  lemma {:induction false} AwaitedVerified(p: Publisher, hpk: Hash, arrivals: seq<Arrival>)
    requires forall k :: 0 <= k < |arrivals| && arrivals[k].Received? ==> arrivals[k].i < |p.ksn|
    ensures SameKeys(p.ksn, Awaited(p, hpk, arrivals).ksn)
    ensures forall i: nat :: i < |p.ksn| && Awaited(p, hpk, arrivals).ksn[i].verified ==>
      p.ksn[i].verified || Proved(arrivals, i, p.ksn[i].masterkey, p.ksn[i].nonce, hpk)
    decreases |arrivals|
  {
    hide RightAnswer, AfterAck;
    if p.status != GoodNonce && p.status != BadNonce && arrivals != [] {
      var a, rest := arrivals[0], arrivals[1..];
      if a.Nothing? {
        AwaitedVerified(p, hpk, rest);
        ProvedLater(p.ksn, hpk, arrivals);
      } else {
        AwaitedOne(p, hpk, a);
        AckVerifiesOne(p, hpk, a);
        var p' := AfterAck(p, a.i, a.ack, hpk, a.junk);
        AwaitedVerified(p', hpk, rest);
        ProvedLater(p'.ksn, hpk, arrivals);
        ProvedLater(p.ksn, hpk, arrivals);
        SameProved(p.ksn, p'.ksn, hpk, rest);
      }
    }
  }

  lemma AckVerifiesOne(p: Publisher, hpk: Hash, a: Arrival)
    requires a.Received? && a.i < |p.ksn|
    ensures var p' := AfterAck(p, a.i, a.ack, hpk, a.junk);
      forall i: nat :: i < |p.ksn| && p'.ksn[i].verified ==>
        p.ksn[i].verified || (i == a.i && RightAnswer(a, p.ksn[i].masterkey, p.ksn[i].nonce, hpk))
  {
    hide Masked, RightAnswer;
    AnswerIs(a, p.ksn[a.i], hpk);
  }

  lemma ProvedLater(ksn: seq<Entry>, hpk: Hash, arrivals: seq<Arrival>)
    requires arrivals != []
    ensures forall i: nat :: i < |ksn| && Proved(arrivals[1..], i, ksn[i].masterkey, ksn[i].nonce, hpk) ==>
      Proved(arrivals, i, ksn[i].masterkey, ksn[i].nonce, hpk)
  {
    hide RightAnswer;
    assert forall k :: 0 <= k < |arrivals[1..]| ==> arrivals[1..][k] == arrivals[k + 1];
  }

  lemma SameProved(ksn: seq<Entry>, ksn': seq<Entry>, hpk: Hash, arrivals: seq<Arrival>)
    requires SameKeys(ksn, ksn')
    ensures forall i: nat :: i < |ksn| ==>
      var before, after := ksn[i], ksn'[i];
      Proved(arrivals, i, after.masterkey, after.nonce, hpk) == Proved(arrivals, i, before.masterkey, before.nonce, hpk)
  {
    hide RightAnswer;
  }

  /** There is a first wrong arrival, or none. */
  lemma {:induction false} FirstWrong(ksn: seq<Entry>, hpk: Hash, arrivals: seq<Arrival>) returns (w: nat)
    ensures UpToWrong(ksn, hpk, arrivals, w)
  {
    hide WrongAnswer;
    w := 0;
    while w < |arrivals| && !WrongAnswer(arrivals[w], ksn, hpk)
      invariant w <= |arrivals| && forall k :: 0 <= k < w ==> !WrongAnswer(arrivals[k], ksn, hpk)
    {
      w := w + 1;
    }
  }

  /** Without an answer the wait ends when the time is up. */
  lemma {:induction false} AwaitedNothing(p: Publisher, hpk: Hash, arrivals: seq<Arrival>)
    requires Waits(p) && forall k :: 0 <= k < |arrivals| ==> arrivals[k].Nothing?
    ensures Awaited(p, hpk, arrivals) == p.(status := TimedOut)
    decreases |arrivals|
  {
    if arrivals != [] {
      AwaitedNothing(p, hpk, arrivals[1..]);
    }
  }

  /** How the wait ends, by what came first: answers of all KeyStores, a wrong answer, the time. */
  ghost predicate AwaitEnds(before: Status, ksn: seq<Entry>, hpk: Hash, arrivals: seq<Arrival>, after: Status) {
    if before == GoodNonce then after == GoodNonce
    else if before == BadNonce then after == if arrivals == [] then TimedOut else BadNonce
    else exists w: nat ::
      && UpToWrong(ksn, hpk, arrivals, w)
      && after == if AllAnswered(ksn, arrivals[..w]) then GoodNonce
                  else if w + 1 < |arrivals| then BadNonce
                  else TimedOut
  }

  /** What the wait may leave, in terms of the arrivals alone. */
  ghost predicate Waited(p: Publisher, hpk: Hash, arrivals: seq<Arrival>, p': Publisher) {
    && SameKeys(p.ksn, p'.ksn)
    && (forall i: nat :: i < |p.ksn| && p'.ksn[i].verified ==>
         p.ksn[i].verified || Proved(arrivals, i, p.ksn[i].masterkey, p.ksn[i].nonce, hpk))
    && AwaitEnds(p.status, p.ksn, hpk, arrivals, p'.status)
    && (p.status != GoodNonce && p.status != BadNonce && (forall k :: 0 <= k < |arrivals| ==> arrivals[k].Nothing?) ==>
         p'.status == TimedOut)
  }

  lemma AwaitFacts(p: Publisher, hpk: Hash, arrivals: seq<Arrival>)
    requires forall k :: 0 <= k < |arrivals| && arrivals[k].Received? ==> arrivals[k].i < |p.ksn|
    ensures Waited(p, hpk, arrivals, Awaited(p, hpk, arrivals))
  {
    hide RightAnswer, AfterAck, Proved, AllAnswered;
    AwaitedVerified(p, hpk, arrivals);
    if Waits(p) {
      var w := FirstWrong(p.ksn, hpk, arrivals);
      AwaitedOutcome(p, hpk, arrivals, w);
      if forall k :: 0 <= k < |arrivals| ==> arrivals[k].Nothing? { AwaitedNothing(p, hpk, arrivals); }
    }
  }

  class SecMqtt {
    const pk: PublicKey
    const hpk: Hash
    const topic: Hash
    const n: int32
    const t: int32
    var status: Status
    var counter: nat
    var sessionKey: seq<byte>
    const ksn: array<Entry>
    const shares: array<string>

    constructor (pk: PublicKey, hpk: Hash, topic: Hash, n: int32, t: int32, nonce: Nonce)
      requires 1 <= t <= n < 256
      ensures this.pk == pk && this.hpk == hpk && this.topic == topic && this.n == n && this.t == t
      ensures Valid() && fresh(ksn) && fresh(shares)
      ensures status == Disconnected && counter == 0 && forall i :: 0 <= i < n as int ==> !ksn[i].verified
    {
      this.pk, this.hpk, this.topic, this.n, this.t := pk, hpk, topic, n, t;
      status, counter, sessionKey := Disconnected, 0, [];
      ksn := new Entry[n as int](_ => Entry(false, [], nonce));
      shares := new string[n as int](_ => "");
    }

    /** The status is GoodNonce only while every KeyStore is verified. */
    ghost predicate Valid()
      reads this, ksn
    {
      && 1 <= t <= n < 256 && ksn.Length == shares.Length == n as int
      && (status == GoodNonce ==> forall i :: 0 <= i < ksn.Length ==> ksn[i].verified)
    }

    ghost function State(): (p: Publisher)
      reads this, ksn, shares
      ensures |p.ksn| == ksn.Length && |p.shares| == shares.Length
    {
      Publisher(status, counter, sessionKey, ksn[..], shares[..])
    }

    /** The first loop of `SecConnect`. */
    method GenerateKeys(keys: seq<Block>, nonces: seq<Nonce>)
      requires Valid() && |keys| == |nonces| == n as int
      modifies ksn
      ensures Valid() && State() == Begun(old(State()), keys, nonces)
      ensures forall i :: 0 <= i < ksn.Length ==>
        ksn[i].masterkey == keys[i] && ksn[i].nonce == nonces[i] && ksn[i].verified == old(ksn[i].verified)
    {
      ghost var p := State();
      var i := 0;
      while i < ksn.Length
        invariant 0 <= i <= ksn.Length
        invariant forall k :: 0 <= k < i ==> ksn[k] == Begun(p, keys, nonces).ksn[k]
        invariant forall k :: i <= k < ksn.Length ==> ksn[k] == p.ksn[k]
        invariant forall k :: 0 <= k < ksn.Length ==> ksn[k].verified == p.ksn[k].verified
      {
        ksn[i] := ksn[i].(masterkey := keys[i], nonce := nonces[i]);
        i := i + 1;
      }
      assert ksn[..] == Begun(p, keys, nonces).ksn;
    }

    /** The second loop of `SecConnect`: one message to every KeyStore, with its own key. */
    method PublishKeys() returns (sent: seq<KeyMessage>)
      requires Valid()
      ensures |sent| == n as int && forall i :: 0 <= i < |sent| ==> sent[i] == KeyMessageTo(State(), i, pk, hpk)
      ensures forall i :: 0 <= i < |sent| ==>
        sent[i] == KeyMessage(i + 1, KeyBody(ksn[i].masterkey, ksn[i].nonce, hpk), pk)
    {
      sent := [];
      var i := 0;
      while i < ksn.Length
        invariant 0 <= i <= ksn.Length && |sent| == i
        invariant forall k :: 0 <= k < i ==> sent[k] == KeyMessageTo(State(), k, pk, hpk)
      {
        sent := sent + [KeyMessage(i + 1, KeyBody(ksn[i].masterkey, ksn[i].nonce, hpk), pk)];
        i := i + 1;
      }
    }

    /** `secmqtt_check_all_ksn_nonce_stat`. */
    method CheckAllKsnNonceStat() returns (rc: bool)
      requires Valid()
      ensures rc <==> forall i :: 0 <= i < ksn.Length ==> ksn[i].verified
    {
      rc := true;
      var i := 0;
      while i < ksn.Length
        invariant 0 <= i <= ksn.Length
        invariant rc == forall k :: 0 <= k < i ==> ksn[k].verified
      {
        rc := rc && ksn[i].verified;
        i := i + 1;
      }
    }

    /** The loop of `SecCallback` that takes the nonce off. */
    method Unmask(plain: Hash, nonce: Nonce) returns (h: Hash)
      ensures h == Masked(plain, nonce) && |h| == 32
      ensures forall k :: 0 <= k < 32 ==> h[k] == plain[k] ^ nonce[k % 16]
    {
      h := ZERO;
      var i := 0;
      while i < HASH_LEN
        invariant 0 <= i <= HASH_LEN
        invariant forall k :: 0 <= k < i ==> h[k] == plain[k] ^ nonce[k % NONCE_SIZE]
      {
        h := h[i := nonce[i % NONCE_SIZE] ^ plain[i]];
        XorSwap(nonce[i % NONCE_SIZE], plain[i]);
        i := i + 1;
      }
    }

    static lemma XorSwap(a: bv8, b: bv8)
      ensures a ^ b == b ^ a
    {
    }

    method SecCallback(i: nat, ack: Ack, junk: Hash)
      requires Valid() && i < n as int
      modifies this`status, ksn
      ensures Valid() && State() == AfterAck(old(State()), i, ack, hpk, junk)
      ensures ksn[i].verified <==>
        RightAnswer(Received(i, ack, junk), old(ksn[i].masterkey), old(ksn[i].nonce), hpk)
      ensures SameKeys(old(ksn[..]), ksn[..])
      ensures forall k :: 0 <= k < ksn.Length && k != i ==> ksn[k].verified == old(ksn[k].verified)
      ensures status == if !ksn[i].verified then BadNonce
                        else if forall k :: 0 <= k < ksn.Length ==> ksn[k].verified then GoodNonce else old(status)
    {
      ghost var p := State();
      AnswerIs(Received(i, ack, junk), ksn[i], hpk);
      var plain := CbcDecrypt(ack, ksn[i].masterkey, junk);
      var h := Unmask(plain, ksn[i].nonce);
      if h == hpk {
        ksn[i] := ksn[i].(verified := true);
        assert ksn[..] == p.ksn[i := p.ksn[i].(verified := true)];
        var all := CheckAllKsnNonceStat();
        if all {
          status := GoodNonce;
        }
      } else {
        ksn[i] := ksn[i].(verified := false);
        status := BadNonce;
        assert ksn[..] == p.ksn[i := p.ksn[i].(verified := false)];
      }
    }

    /** The wait loop. */
    method Await(arrivals: seq<Arrival>)
      requires Valid() && forall k :: 0 <= k < |arrivals| && arrivals[k].Received? ==> arrivals[k].i < n as int
      modifies this`status, ksn
      ensures Valid() && State() == Awaited(old(State()), hpk, arrivals)
      ensures Waited(old(State()), hpk, arrivals, State())
    {
      hide Awaited, Waited, SameKeys, RightAnswer;
      ghost var p := State();
      AwaitFacts(p, hpk, arrivals);
      var k := 0;
      while status != GoodNonce
        invariant 0 <= k <= |arrivals| && Valid()
        invariant Awaited(p, hpk, arrivals) == Awaited(State(), hpk, arrivals[k..])
        decreases |arrivals| - k
      {
        if k == |arrivals| {
          AwaitedEnd(State(), hpk, arrivals[k..]);
          status := TimedOut;
          return;
        }
        AwaitedNext(State(), hpk, arrivals, k);
        if status == BadNonce {
          return;
        }
        match arrivals[k] {
          case Nothing =>
          case Received(i, ack, junk) => SecCallback(i, ack, junk);
        }
        k := k + 1;
      }
      AwaitedEnd(State(), hpk, arrivals[k..]);
    }

    /** The k-th slot of a text. */
    static function Slot(text: string, size: nat, k: nat): string {
      if 0 <= k * size <= k * size + size <= |text| then text[k * size..k * size + size] else ""
    }

    /** `secmqtt_sss_split`: split the session key and cut the text into slots. */
    method SssSplit(random: seq<seq<int32>>)
      requires Valid() && Randomness(random, |CBytes(sessionKey)|, t as int)
      modifies shares
      ensures Valid() && SplitInto(sessionKey, random, n as int, t as int, shares[..])
    {
      hide Line, CStrings.Holds, Randomness, GeneratedText, Slot, SplitInto;
      var strTmp := sessionKey + [0];
      WithNul(sessionKey);
      var share := GenerateShareStrings(strTmp, n, t, random, |sessionKey|);
      CutSlots(share, 7 + 2 * |sessionKey|);
      SlotsAreLines(share, shares[..], sessionKey, random, n as int, t as int);
    }

    /** The `memcpy` loop. */
    method CutSlots(share: array<char>, size: nat)
      requires Valid() && share.Length == n as int * size + 1
      modifies shares
      ensures forall k :: 0 <= k < shares.Length ==> shares[k] == Slot(share[..], size, k)
    {
      hide Slot;
      var i := 0;
      while i < shares.Length
        invariant 0 <= i <= shares.Length
        invariant forall k :: 0 <= k < i ==> shares[k] == Slot(share[..], size, k)
      {
        NextSlot(i, n as int, size);
        SlotOf(share[..], size, i);
        assert share[i * size..i * size + size] == share[..][i * size..i * size + size];
        shares[i] := share[i * size..i * size + size];
        i := i + 1;
      }
    }

    static lemma SlotOf(text: string, size: nat, k: nat)
      requires 0 <= k * size <= k * size + size <= |text|
      ensures Slot(text, size, k) == text[k * size..k * size + size]
    {
    }

    static lemma {:induction false} WithNul(key: seq<byte>)
      ensures CBytes(key + [0]) == CBytes(key)
    {
      if key != [] && key[0] != 0 {
        WithNul(key[1..]);
        assert (key + [0])[1..] == key[1..] + [0];
      }
    }

    /** Without a zero byte in the key, every slot is one line with its newline. */
    static lemma SlotsAreLines(share: array<char>, slots: seq<string>, key: seq<byte>, random: seq<seq<int32>>, n: nat,
        t: nat)
      requires 1 <= t <= n < 256 && |slots| == n && Randomness(random, |CBytes(key)|, t)
      requires CStrings.Holds(share, GeneratedText(CBytes(key), |key|, random, n, t))
      requires forall k :: 0 <= k < n ==> slots[k] == Slot(share[..], 7 + 2 * |key|, k)
      ensures SplitInto(key, random, n, t, slots)
    {
      hide Line, Slot, CStrings.Holds, GeneratedText;
      NoZeroByte(key);
      if 0 !in key {
        forall k | 0 <= k < n ensures slots[k] == Line(Draws(key, random), k + 1, t) + "\n" {
          SlotIsLine(share, key, random, n, t, k);
        }
      }
    }

    static lemma SlotIsLine(share: array<char>, key: seq<byte>, random: seq<seq<int32>>, n: nat, t: nat, k: nat)
      requires 1 <= t <= n < 256 && k < n && Randomness(random, |key|, t)
      requires CStrings.Holds(share, GeneratedText(key, |key|, random, n, t))
      ensures Slot(share[..], 7 + 2 * |key|, k) == Line(Draws(key, random), k + 1, t) + "\n"
    {
      hide Line, Slot, JoinText;
      var ls, size := Lines(Draws(key, random), n, t), 7 + 2 * |key|;
      var text := JoinText(ls);
      SlotOfLine(ls, size, k);
      NextSlot(k, n, size);
      SlotOf(text, size, k);
      SlotOfPrefix(text, share[..], size, k);
    }

    static lemma SlotOfPrefix(text: string, all: string, size: nat, k: nat)
      requires text <= all && 0 <= k * size <= k * size + size <= |text|
      ensures Slot(all, size, k) == Slot(text, size, k)
    {
    }

    /** The beginning of `SecSessionKeyUpdate`. */
    method NewSessionKey(key: seq<byte>, random: seq<seq<int32>>)
      requires Valid() && Randomness(random, |CBytes(key)|, t as int)
      modifies this`counter, this`sessionKey, shares
      ensures Valid() && State() == Updated(old(State()), key, shares[..])
      ensures counter == 0 && sessionKey == key && SplitInto(key, random, n as int, t as int, shares[..])
    {
      counter := 0;
      sessionKey := key;
      SssSplit(random);
    }

    /** `SecSessionKeyUpdate`: a new key, split, and one share to every KeyStore. */
    method SecSessionKeyUpdate(key: seq<byte>, random: seq<seq<int32>>) returns (sent: seq<ShareMessage>)
      requires Valid() && Randomness(random, |CBytes(key)|, t as int)
      modifies this`counter, this`sessionKey, shares
      ensures Valid() && State() == Updated(old(State()), key, shares[..])
      ensures counter == 0 && sessionKey == key && SplitInto(key, random, n as int, t as int, shares[..])
      ensures |sent| == n as int && forall i :: 0 <= i < |sent| ==> sent[i] == ShareMessageTo(State(), i, topic, hpk)
      ensures SharesSent(sent)
    {
      hide Randomness, CBytes, SplitInto;
      NewSessionKey(key, random);
      sent := [];
      var i := 0;
      while i < ksn.Length
        invariant 0 <= i <= ksn.Length && |sent| == i
        invariant forall k :: 0 <= k < i ==> sent[k] == ShareMessageTo(State(), k, topic, hpk)
      {
        sent := sent + [ShareMessage(ksn[i].masterkey, ShareBody(shares[i], topic), hpk)];
        i := i + 1;
      }
    }

    /** One message for each KeyStore: its share under its master key. */
    ghost predicate SharesSent(sent: seq<ShareMessage>)
      reads this, ksn, shares
    {
      |sent| == ksn.Length == shares.Length && forall i :: 0 <= i < |sent| ==>
        sent[i] == ShareMessage(ksn[i].masterkey, ShareBody(shares[i], topic), hpk)
    }

    /** What `SecSessionKeyUpdate` leaves and sends: a new session key, one share for each KeyStore. */
    ghost predicate NewKeySent(p: Publisher, key: seq<byte>, random: seq<seq<int32>>, sent: seq<ShareMessage>)
      reads this, ksn, shares
    {
      && n >= 0 && t >= 0 && State() == Updated(p, key, shares[..])
      && SplitInto(key, random, n as int, t as int, shares[..])
      && |sent| == n as int == ksn.Length
      && (forall i :: 0 <= i < |sent| ==> sent[i] == ShareMessageTo(State(), i, topic, hpk))
    }

    /** `SecConnect`: connected, with shares of a session key sent out, exactly if every KeyStore
        was verified before the time was up and no acknowledgement was wrong. A publisher that is
        connected already sends a new session key at once. */
    method SecConnect(keys: seq<Block>, nonces: seq<Nonce>, arrivals: seq<Arrival>, key: seq<byte>,
        random: seq<seq<int32>>)
      returns (sentKeys: seq<KeyMessage>, sentShares: seq<ShareMessage>)
      requires Valid() && |keys| == |nonces| == n as int
      requires forall k :: 0 <= k < |arrivals| && arrivals[k].Received? ==> arrivals[k].i < n as int
      requires Randomness(random, |CBytes(key)|, t as int)
      modifies this`status, this`counter, this`sessionKey, ksn, shares
      ensures
        if old(status) == Connected then sentKeys == [] && NewKeySent(old(State()), key, random, sentShares)
        else
          var begun := Begun(old(State()), keys, nonces);
          var awaited := Awaited(begun, hpk, arrivals);
          && |sentKeys| == n as int
          && (forall i :: 0 <= i < |sentKeys| ==> sentKeys[i] == KeyMessageTo(begun, i, pk, hpk))
          && if awaited.status == GoodNonce
             then NewKeySent(awaited.(status := Connected), key, random, sentShares)
             else State() == awaited && sentShares == []
      ensures Valid()
      ensures old(status) == Connected ==> status == Connected && sentKeys == [] && ksn[..] == old(ksn[..])
      ensures old(status) != Connected ==>
        && |sentKeys| == ksn.Length
        && (forall i :: 0 <= i < ksn.Length ==> ksn[i].masterkey == keys[i] && ksn[i].nonce == nonces[i])
        && (forall i :: 0 <= i < ksn.Length ==>
             sentKeys[i] == KeyMessage(i + 1, KeyBody(keys[i], nonces[i], hpk), pk))
        && (forall i :: 0 <= i < ksn.Length && ksn[i].verified ==>
             old(ksn[i].verified) || Proved(arrivals, i, ksn[i].masterkey, ksn[i].nonce, hpk))
        && (status == Connected ==> forall i :: 0 <= i < ksn.Length ==> ksn[i].verified)
        && (status != Connected ==> sentShares == [])
        && (exists begun: seq<Entry>, end: Status ::
             && SameFlags(begun, old(ksn[..])) && SameKeys(begun, ksn[..])
             && AwaitEnds(old(status), begun, hpk, arrivals, end)
             && status == if end == GoodNonce then Connected else end)
      ensures status == Connected ==> counter == 0 && sessionKey == key && SharesSent(sentShares)
      ensures
        && old(status) != Connected && old(status) != GoodNonce && old(status) != BadNonce
        && (forall k :: 0 <= k < |arrivals| ==> arrivals[k].Nothing?)
        ==> status == TimedOut && sentShares == []
    {
      hide Randomness, CBytes, SplitInto, Awaited, Begun, Proved, UpToWrong, AllAnswered;
      sentKeys := [];
      if status != Connected {
        GenerateKeys(keys, nonces);
        sentKeys := PublishKeys();
        Await(arrivals);
        if status != GoodNonce {
          return sentKeys, [];
        }
        status := Connected;
      }
      sentShares := SecSessionKeyUpdate(key, random);
    }

    /** `SecPublish`: the message is encrypted under the session key, which is replaced first if
        it was used `MAX_SK_USAGE` times; nothing is sent unless connected. */
    method SecPublish(msg: string, key: seq<byte>, random: seq<seq<int32>>)
      returns (sent: Option<(seq<byte>, string)>, sentShares: seq<ShareMessage>)
      requires Valid() && Randomness(random, |CBytes(key)|, t as int)
      modifies this`counter, this`sessionKey, shares
      ensures
        if old(status) != Connected then State() == old(State()) && sent == None && sentShares == []
        else
          && sent == Some((sessionKey, msg))
          && if old(counter) >= MAX_SK_USAGE
             then
               && State() == Updated(old(State()), key, shares[..]).(counter := 1)
               && SplitInto(key, random, n as int, t as int, shares[..]) && |sentShares| == n as int
               && (forall i :: 0 <= i < |sentShares| ==> sentShares[i] == ShareMessageTo(State(), i, topic, hpk))
             else State() == old(State()).(counter := old(counter) + 1) && sentShares == []
      ensures Valid() && status == old(status)
      ensures status != Connected ==> sent == None && sentShares == [] && counter == old(counter)
      ensures status == Connected ==> sent == Some((sessionKey, msg)) && 1 <= counter
      ensures status == Connected && old(counter) >= 50 ==>
        counter == 1 && sessionKey == key && SharesSent(sentShares)
      ensures status == Connected && old(counter) < 50 ==>
        counter == old(counter) + 1 && sessionKey == old(sessionKey) && sentShares == []
    {
      hide Randomness, CBytes, SplitInto;
      sentShares := [];
      if status != Connected {
        return None, [];
      }
      if counter >= MAX_SK_USAGE {
        sentShares := SecSessionKeyUpdate(key, random);
      }
      sent := Some((sessionKey, msg));
      counter := counter + 1;
    }
  }
}
