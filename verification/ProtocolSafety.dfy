/** What Phases I and II promise, in every run: whose key and whose share a KeyStore has for the
    publisher, when these are the publisher's own, and that the shares of one epoch recombine. */
module ProtocolSafety {
  import opened Options
  import opened ShareText
  import opened Database
  import opened ProtocolSteps
  import opened ProtocolRuns
  import opened ProtocolInvariant

  // ----- Phase I -----

  /** KeyStore `i` maps H(pk) to the publisher's master key for it. */
  ghost predicate HasOwnKey(c: Config, s: System, i: nat)
    requires Shape(c, s) && i < c.n
  {
    var store := s.stores[i].store;
    c.hash(c.pk) in store && store[c.hash(c.pk)].key == s.pub.ksn[i].masterkey
  }

  /** In every run, whatever others send: when the publisher is connected, a KeyStore maps H(pk)
      to the publisher's master key if and only if the last key message naming H(pk) that it
      acknowledged carried that key and found a row. No session key is used more than
      50 times. */
  lemma ConnectedKeyIff(c: Config, s0: System, steps: seq<Step>, s: System)
    requires ValidConfig(c) && Initial(c, s0) && Reaches(c, s0, steps, s)
    ensures Shape(c, s) && s.pub.counter <= 50
    ensures s.pub.status == Connected ==> forall i :: 0 <= i < c.n ==>
      && s.lastKey[i].Some?
      && (c.hash(c.pk) in s.stores[i].store <==> !s.keyRefused[i])
      && (HasOwnKey(c, s, i) <==> !s.keyRefused[i] && s.lastKey[i] == Some(s.pub.ksn[i].masterkey))
  {
    ReachedInv(c, s0, steps, s);
    if s.pub.status == Connected {
      forall i | 0 <= i < c.n
        ensures s.lastKey[i].Some?
        ensures c.hash(c.pk) in s.stores[i].store <==> !s.keyRefused[i]
        ensures HasOwnKey(c, s, i) <==> !s.keyRefused[i] && s.lastKey[i] == Some(s.pub.ksn[i].masterkey)
      {
        KeyStoredIff(c, s, i);
      }
    }
  }

  /** The publisher is connected only once every KeyStore has answered a message with its own master
      key and nonce, whatever others send. */
  lemma ConnectedAllAnswered(c: Config, s0: System, steps: seq<Step>, s: System)
    requires ValidConfig(c) && Initial(c, s0) && Reaches(c, s0, steps, s)
    ensures Shape(c, s) && (s.pub.status == Connected ==> forall i :: 0 <= i < c.n ==> s.answered[i])
  {
    ReachedInv(c, s0, steps, s);
    if s.pub.status == Connected {
      forall i | 0 <= i < c.n ensures s.answered[i] {
        InvAt(c, s, i);
      }
    }
  }

  // ----- the keys of a connection -----

  /** After the keys are drawn no step touches them. */
  lemma KeysStep(c: Config, s: System, step: Step)
    requires Enabled(c, s, step) && s.place != Idle
    ensures var s' := Apply(c, s, step);
      && Shape(c, s') && s'.place != Idle
      && forall i :: 0 <= i < c.n ==>
           s'.pub.ksn[i].masterkey == s.pub.ksn[i].masterkey && s'.pub.ksn[i].nonce == s.pub.ksn[i].nonce
  {
    hide OnValue, OnSk, Acknowledged, Writes, Decrypted, Masked;
  }

  lemma {:induction false} KeysRun(c: Config, s: System, steps: seq<Step>, s': System)
    requires Shape(c, s) && s.place != Idle && Reaches(c, s, steps, s')
    ensures Shape(c, s') && forall i :: 0 <= i < c.n ==>
      s'.pub.ksn[i].masterkey == s.pub.ksn[i].masterkey && s'.pub.ksn[i].nonce == s.pub.ksn[i].nonce
    decreases |steps|
  {
    hide Enabled, Apply;
    if steps != [] {
      KeysStep(c, s, steps[0]);
      KeysRun(c, Apply(c, s, steps[0]), steps[1..], s');
    }
  }

  /** In every run: the keys and nonces drawn by `Connect` are the ones every later state has, each
      KeyStore its own; so different keys stay different. */
  lemma {:induction false} DrawnKeysStay(c: Config, s0: System, steps: seq<Step>, s: System, k: nat,
      keys: seq<Block>, nonces: seq<Nonce>)
    requires Shape(c, s0) && Reaches(c, s0, steps, s) && k < |steps| && steps[k] == Connect(keys, nonces)
    ensures Shape(c, s) && |keys| == |nonces| == c.n
    ensures forall i :: 0 <= i < c.n ==> s.pub.ksn[i].masterkey == keys[i] && s.pub.ksn[i].nonce == nonces[i]
    ensures forall i, j :: 0 <= i < j < c.n && keys[i] != keys[j] ==>
      s.pub.ksn[i].masterkey != s.pub.ksn[j].masterkey
    decreases |steps|
  {
    var s1 := Apply(c, s0, steps[0]);
    StepShape(c, s0, steps[0]);
    if k == 0 {
      KeysRun(c, s1, steps[1..], s);
    } else {
      DrawnKeysStay(c, s1, steps[1..], s, k - 1, keys, nonces);
    }
  }

  lemma KeyStoredIff(c: Config, s: System, i: nat)
    requires Inv(c, s) && i < c.n && s.epochs != []
    ensures s.lastKey[i].Some? && (c.hash(c.pk) in s.stores[i].store <==> !s.keyRefused[i])
    ensures HasOwnKey(c, s, i) <==> !s.keyRefused[i] && s.lastKey[i] == Some(s.pub.ksn[i].masterkey)
  {
    hide NewEpoch;
    InvAt(c, s, i);
    assert InvFor(c, s, i);
  }

  /** The step is a message of somebody else that names H(pk). */
  predicate NamesPublisher(c: Config, step: Step) {
    || (step.OtherKey? && c.hash(step.key.pk) == c.hash(c.pk))
    || (step.OtherShare? && step.share.hpk == c.hash(c.pk))
  }

  predicate Unnamed(c: Config, steps: seq<Step>) {
    forall k :: 0 <= k < |steps| ==> !NamesPublisher(c, steps[k])
  }

  /** What holds as long as nobody else names H(pk): the only key is the publisher's, and the only
      share its latest. */
  ghost predicate OwnRecord(c: Config, s: System, i: nat)
    requires Shape(c, s) && i < c.n
  {
    var hpk, store := c.hash(c.pk), s.stores[i].store;
    && (if KeyTaken(s, i) then s.lastKey[i] == Some(s.pub.ksn[i].masterkey) else s.lastKey[i] == None)
    && (hpk in store ==>
         if s.delivered[i] == 0 then store[hpk].shares.Keys == {ZERO} && s.origin[i] == Nobody
         else store[hpk].shares.Keys == {c.topic} && s.origin[i] == Own(s.delivered[i] - 1))
  }

  ghost predicate OwnRecords(c: Config, s: System) {
    Shape(c, s) && forall i :: 0 <= i < c.n ==> OwnRecord(c, s, i)
  }

  lemma SameOwnRecord(c: Config, s: System, s': System, i: nat)
    requires Shape(c, s) && Shape(c, s') && i < c.n && OwnRecord(c, s, i) && SameRecord(c, s, s', i)
    requires KeyTaken(s', i) == KeyTaken(s, i) && s'.delivered[i] == s.delivered[i]
    requires KeyTaken(s, i) ==> s'.pub.ksn[i].masterkey == s.pub.ksn[i].masterkey
    ensures OwnRecord(c, s', i)
  {
  }

  lemma UnnamedSame(c: Config, s: System, step: Step, i: nat)
    requires Enabled(c, s, step) && i < c.n && !NamesPublisher(c, step)
    requires (step.DeliverShare? || step.DeliverKey?) ==> step.i != i
    ensures SameRecord(c, s, Apply(c, s, step), i) && Apply(c, s, step).delivered[i] == s.delivered[i]
  {
    hide KeyFits, ShareFits, AfterAck;
  }

  lemma TakenSame(c: Config, s: System, step: Step, i: nat)
    requires ValidConfig(c) && Inv(c, s) && Enabled(c, s, step) && i < c.n
    requires step.DeliverKey? ==> step.i != i
    ensures KeyTaken(Apply(c, s, step), i) == KeyTaken(s, i)
  {
    hide OnValue, OnSk, Acknowledged, Writes, Decrypted, RecordSound, NewEpoch, AfterAck, InvFor, PhaseTwo, AllVerified;
    InvAt(c, s, i);
    PublisherAt(c, s);
    if step.DeliverShare? {
      NextShare(c, s, step.i);
    }
  }

  lemma MasterkeySame(c: Config, s: System, step: Step, i: nat)
    requires Enabled(c, s, step) && i < c.n && KeyTaken(s, i)
    ensures Apply(c, s, step).pub.ksn[i].masterkey == s.pub.ksn[i].masterkey
  {
    hide OnValue, OnSk, Acknowledged, Writes, Decrypted;
  }

  lemma DeliverKeyOwn(c: Config, s: System, step: Step)
    requires ValidConfig(c) && Inv(c, s) && OwnRecords(c, s) && Enabled(c, s, step) && step.DeliverKey?
    ensures OwnRecord(c, Apply(c, s, step), step.i)
  {
    hide Inv, KeyFits;
    var i := step.i;
    InvAt(c, s, i);
    assert OwnRecord(c, s, i);
    KeyFirst(c, s, i);
    OwnKeyAcknowledged(c, s.stores[i], s.pub, i, step.junk);
  }

  lemma DeliverShareOwn(c: Config, s: System, step: Step)
    requires ValidConfig(c) && Inv(c, s) && OwnRecords(c, s) && Enabled(c, s, step) && step.DeliverShare?
    ensures OwnRecord(c, Apply(c, s, step), step.i)
  {
    hide Inv;
    var i := step.i;
    InvAt(c, s, i);
    assert OwnRecord(c, s, i);
    NextShare(c, s, i);
  }

  lemma OwnRecordsKept(c: Config, s: System, step: Step)
    requires ValidConfig(c) && Inv(c, s) && OwnRecords(c, s) && Enabled(c, s, step) && !NamesPublisher(c, step)
    ensures OwnRecords(c, Apply(c, s, step))
  {
    hide Inv, Enabled, OwnRecord, NamesPublisher;
    var s' := Apply(c, s, step);
    StepShape(c, s, step);
    forall i | 0 <= i < c.n ensures OwnRecord(c, s', i) {
      if step.DeliverKey? && step.i == i {
        DeliverKeyOwn(c, s, step);
      } else if step.DeliverShare? && step.i == i {
        DeliverShareOwn(c, s, step);
      } else {
        UnnamedSame(c, s, step, i);
        TakenSame(c, s, step, i);
        if KeyTaken(s, i) { MasterkeySame(c, s, step, i); }
        SameOwnRecord(c, s, s', i);
      }
    }
  }

  lemma StepShape(c: Config, s: System, step: Step)
    requires Enabled(c, s, step)
    ensures Shape(c, Apply(c, s, step))
  {
    hide OnValue, OnSk, Acknowledged, Writes, Decrypted;
  }

  lemma InitialOwnRecords(c: Config, s: System)
    requires ValidConfig(c) && Initial(c, s)
    ensures OwnRecords(c, s)
  {
  }

  lemma {:induction false} UnnamedRun(c: Config, s0: System, steps: seq<Step>, s: System)
    requires ValidConfig(c) && Inv(c, s0) && OwnRecords(c, s0) && Reaches(c, s0, steps, s) && Unnamed(c, steps)
    ensures OwnRecords(c, s)
    decreases |steps|
  {
    hide Inv, OwnRecords, NamesPublisher;
    if steps != [] {
      assert !NamesPublisher(c, steps[0]);
      OwnRecordsKept(c, s0, steps[0]);
      StepKeeps(c, s0, steps[0]);
      assert forall k :: 0 <= k < |steps[1..]| ==> steps[1..][k] == steps[k + 1];
      UnnamedRun(c, Apply(c, s0, steps[0]), steps[1..], s);
    }
  }

  /** In every run in which nobody else names H(pk): when the publisher is connected, a KeyStore
      maps H(pk) to its master key if and only if its key was not refused for want of a row. */
  lemma ConnectedStoredIff(c: Config, s0: System, steps: seq<Step>, s: System, i: nat)
    requires ValidConfig(c) && Initial(c, s0) && Reaches(c, s0, steps, s) && Unnamed(c, steps)
    requires Shape(c, s) && s.pub.status == Connected && i < c.n
    ensures HasOwnKey(c, s, i) <==> !s.keyRefused[i]
  {
    hide Initial, Reaches, Unnamed, OwnRecord;
    ReachedInv(c, s0, steps, s);
    InitialInv(c, s0);
    InitialOwnRecords(c, s0);
    UnnamedRun(c, s0, steps, s);
    OwnKeyAt(c, s, i);
  }

  lemma OwnKeyAt(c: Config, s: System, i: nat)
    requires Inv(c, s) && OwnRecords(c, s) && i < c.n && s.epochs != []
    ensures HasOwnKey(c, s, i) <==> !s.keyRefused[i]
  {
    hide NewEpoch;
    KeyStoredIff(c, s, i);
    InvAt(c, s, i);
    assert OwnRecord(c, s, i);
  }

  /** A copy of the key message, sent by anybody before the message itself arrives, is answered, and
      the answer verifies at the publisher. */
  lemma CopyIsAnswered(c: Config, s: System, i: nat, junk: KeyBody, plain: Hash)
    requires ValidConfig(c) && Inv(c, s) && i < c.n && s.place == Waiting && s.pub.status == Disconnected
    requires s.toKs[i] != [] && s.toKs[i][0].Value?
    ensures var copied, reply := OtherKey(i, s.toKs[i][0].key, junk), OtherAck(i, OwnAck(c, s.pub, i), plain);
      && Enabled(c, s, copied) && Enabled(c, Apply(c, s, copied), reply)
      && Apply(c, Apply(c, s, copied), reply).pub.ksn[i].verified
      && Apply(c, Apply(c, s, copied), reply).toKs == s.toKs
  {
    KeyFirst(c, s, i);
    OwnKeyAcknowledged(c, s.stores[i], s.pub, i, junk);
    AckAcceptedIff(s.pub, i, OwnAck(c, s.pub, i), c.hash(c.pk), plain);
  }

  // ----- where a KeyStore does not have the publisher's key -----

  /** Whoever sends a key message for H(pk), made of pk and any key and nonce, has it acknowledged,
      and it replaces the publisher's key; the publisher stays connected. */
  lemma OtherKeyReplaces(c: Config, s: System, i: nat, key: Block, nonce: Nonce, junk: KeyBody)
    requires ValidConfig(c) && Inv(c, s) && i < c.n && c.hash(c.pk) in s.stores[i].store
    ensures var m := KeyMessage(i + 1, KeyBody(key, nonce, c.hash(c.pk)), c.pk);
      && Enabled(c, s, OtherKey(i, m, junk))
      && OnValue(c.hash, i + 1, s.stores[i], m, junk).1 == Some(Ack(key, Masked(c.hash(c.pk), nonce)))
      && (var s' := Apply(c, s, OtherKey(i, m, junk));
          && s'.pub == s.pub && c.hash(c.pk) in s'.stores[i].store && s'.stores[i].store[c.hash(c.pk)].key == key
          && (HasOwnKey(c, s', i) <==> key == s.pub.ksn[i].masterkey))
  {
    PublisherAt(c, s);
  }

  /** A KeyStore without a free row acknowledges the key and does not store it, and the publisher
      connects all the same: with one KeyStore, in three steps. */
  lemma FullStoreConnects(c: Config, s: System, junk: KeyBody, plain: Hash, e: Epoch) returns (s': System)
    requires ValidConfig(c) && Inv(c, s) && c.n == 1 && s.place == Waiting && s.pub.status == Disconnected
    requires s.toKs[0] != [] && s.toKs[0][0].Value? && !KeyFits(s.stores[0], c.hash(c.pk)) && NewEpoch(c, e)
    ensures Reaches(c, s, [DeliverKey(0, junk), ReceiveAck(0, plain), Finish(e)], s')
    ensures s'.pub.status == Connected && Shape(c, s') && !HasOwnKey(c, s', 0)
    ensures c.hash(c.pk) !in s'.stores[0].store && s'.keyRefused[0]
  {
    hide NewEpoch;
    KeyFirst(c, s, 0);
    OwnKeyAcknowledged(c, s.stores[0], s.pub, 0, junk);
    var s1 := Apply(c, s, DeliverKey(0, junk));
    StepKeeps(c, s, DeliverKey(0, junk));
    AckVerifies(c, s1, 0, plain);
    var s2 := Apply(c, s1, ReceiveAck(0, plain));
    s' := Apply(c, s2, Finish(e));
    ThreeSteps(c, s, DeliverKey(0, junk), ReceiveAck(0, plain), Finish(e));
  }

  lemma ThreeSteps(c: Config, s: System, a: Step, b: Step, d: Step)
    requires Enabled(c, s, a) && Enabled(c, Apply(c, s, a), b) && Enabled(c, Apply(c, Apply(c, s, a), b), d)
    ensures Reaches(c, s, [a, b, d], Apply(c, Apply(c, Apply(c, s, a), b), d))
  {
    hide Apply, Enabled;
    var s1 := Apply(c, s, a);
    var s2 := Apply(c, s1, b);
    var s3 := Apply(c, s2, d);
    assert [a, b, d][1..] == [b, d] && [b, d][1..] == [d] && [d][1..] == [];
    assert Reaches(c, s3, [], s3);
    assert Reaches(c, s2, [d], s3);
    assert Reaches(c, s1, [b, d], s3);
  }

  // ----- Phase II -----

  /** KeyStore number `x` has the publisher's share of epoch `e`. */
  ghost predicate HoldsShare(c: Config, s: System, x: int, e: nat)
    requires Shape(c, s)
  {
    && 1 <= x <= c.n && e < |s.epochs| && |s.epochs[e].shares| == c.n
    && StoredAt(c, s, x) == Some(s.epochs[e].shares[x - 1])
  }

  lemma OwnMeansHeld(c: Config, s: System, i: nat)
    requires Inv(c, s) && i < c.n && s.origin[i].Own?
    ensures HoldsShare(c, s, i + 1, s.origin[i].epoch)
  {
    hide NewEpoch;
    InvAt(c, s, i);
    EpochShape(c, s, s.origin[i].epoch);
  }

  lemma EpochShape(c: Config, s: System, e: nat)
    requires PublisherSound(c, s) && e < |s.epochs|
    ensures NewEpoch(c, s.epochs[e]) && |s.epochs[e].shares| == c.n
  {
  }

  /** A share message of the publisher that is taken becomes the stored share if and only if the
      KeyStore has the publisher's key for H(pk) and a row for the topic. */
  lemma TakenShareIff(c: Config, s: System, step: Step)
    requires ValidConfig(c) && Inv(c, s) && Enabled(c, s, step) && step.DeliverShare?
    requires step.junkBody != s.toKs[step.i][0].share.body
    ensures Apply(c, s, step).origin[step.i] == Own(s.delivered[step.i]) <==>
      HasOwnKey(c, s, step.i) && ShareFits(s.stores[step.i], c.hash(c.pk), c.topic)
  {
    hide Inv, NewEpoch, ShareFits, OnSk, PhaseOne, PhaseTwo, StoredAt;
    var i, hpk := step.i, c.hash(c.pk);
    InvAt(c, s, i);
    NextShare(c, s, i);
    var m := s.toKs[i][0].share;
    assert m.hpk == hpk && m.body.topic == c.topic && m.key == s.pub.ksn[i].masterkey;
    if hpk in s.stores[i].store {
      assert Decrypted(s, i, m, step.junkKey, step.junkBody) == m.body <==> HasOwnKey(c, s, i);
    } else {
      NoRowNoShare(c, s, i);
    }
  }

  lemma NoRowNoShare(c: Config, s: System, i: nat)
    requires Shape(c, s) && i < c.n && c.hash(c.pk) !in s.stores[i].store
    ensures !ShareFits(s.stores[i], c.hash(c.pk), c.topic)
  {
  }

  /** The last share that somebody else made KeyStore `i` write in a run. */
  ghost function LastOther(c: Config, s: System, steps: seq<Step>, i: nat, last: Option<string>): Option<string>
    decreases |steps|
  {
    if steps == [] || !Enabled(c, s, steps[0]) || i >= c.n then last
    else
      var next := match steps[0] {
        case OtherShare(g, m, junkKey, junkBody) =>
          if g == i && Writes(c, s, i, m, junkKey, junkBody)
          then Some(Decrypted(s, i, m, junkKey, junkBody).share) else last
        case _ => last
      };
      LastOther(c, Apply(c, s, steps[0]), steps[1..], i, next)
  }

  predicate NoDelivery(steps: seq<Step>, i: nat) {
    forall k :: 0 <= k < |steps| ==> !(steps[k].DeliverShare? && steps[k].i == i)
  }

  /** The origin after a run without new share messages of the publisher. */
  function OriginAfter(origin: Origin, last: Option<string>): Origin {
    match last case None => origin case Some(share) => Other(share)
  }

  lemma OriginStep(c: Config, s: System, step: Step, i: nat)
    requires Enabled(c, s, step) && i < c.n && !(step.DeliverShare? && step.i == i)
    ensures Apply(c, s, step).origin[i] ==
      if step.OtherShare? && step.i == i && Writes(c, s, i, step.share, step.junkKey, step.junkBody)
      then Other(Decrypted(s, i, step.share, step.junkKey, step.junkBody).share) else s.origin[i]
    ensures s.epochs <= Apply(c, s, step).epochs
  {
    hide OnValue, OnSk, Writes, Decrypted, Acknowledged;
  }

  lemma {:induction false} OriginAfterRun(c: Config, s1: System, steps: seq<Step>, s2: System, i: nat, origin: Origin,
      last: Option<string>)
    requires Shape(c, s1) && i < c.n && Reaches(c, s1, steps, s2) && NoDelivery(steps, i)
    requires s1.origin[i] == OriginAfter(origin, last)
    ensures Shape(c, s2) && s2.origin[i] == OriginAfter(origin, LastOther(c, s1, steps, i, last))
    ensures s1.epochs <= s2.epochs
    decreases |steps|
  {
    hide Enabled, Apply, Writes, Decrypted;
    if steps != [] {
      var step, s := steps[0], Apply(c, s1, steps[0]);
      assert forall k :: 0 <= k < |steps[1..]| ==> steps[1..][k] == steps[k + 1];
      StepShape(c, s1, step);
      OriginStep(c, s1, step, i);
      var next := if step.OtherShare? && step.i == i && Writes(c, s1, i, step.share, step.junkKey, step.junkBody)
        then Some(Decrypted(s1, i, step.share, step.junkKey, step.junkBody).share) else last;
      OriginAfterRun(c, s, steps[1..], s2, i, origin, next);
    }
  }

  /** From the moment a KeyStore has the publisher's share of an epoch, and as long as it takes no
      newer one: it has that share if and only if no later message of somebody else that names
      H(pk) made it write a share under this topic, or the last such message carried the same
      text. What it has is exactly the last one written. */
  lemma ShareHeldIff(c: Config, s1: System, steps: seq<Step>, s2: System, i: nat)
    requires ValidConfig(c) && Inv(c, s1) && i < c.n && s1.origin[i].Own?
    requires Reaches(c, s1, steps, s2) && NoDelivery(steps, i)
    ensures var e, last := s1.origin[i].epoch, LastOther(c, s1, steps, i, None);
      && e < |s1.epochs| && i < |s1.epochs[e].shares| && Shape(c, s2)
      && StoredAt(c, s2, i + 1) == (if last == None then Some(s1.epochs[e].shares[i]) else last)
      && (HoldsShare(c, s2, i + 1, e) <==> last == None || last == Some(s1.epochs[e].shares[i]))
  {
    hide Inv, Reaches, NoDelivery, LastOther, StoredAt;
    InvAt(c, s1, i);
    OwnMeansHeld(c, s1, i);
    OriginAfterRun(c, s1, steps, s2, i, s1.origin[i], None);
    RunKeeps(c, s1, steps, s2);
    PublisherAt(c, s2);
    InvAt(c, s2, i);
    EpochShape(c, s2, s1.origin[i].epoch);
  }

  /** A share message of somebody else for H(pk) replaces the share of a topic, even if it does not
      decrypt: what then comes out of the decryption is stored, when it has this topic. */
  lemma OtherShareReplaces(c: Config, s: System, i: nat, m: ShareMessage, junkKey: Block, junk: string)
    requires ValidConfig(c) && Inv(c, s) && i < c.n && m.hpk == c.hash(c.pk)
    requires StoredAt(c, s, i + 1).Some? && m.key != s.stores[i].store[c.hash(c.pk)].key
    ensures var step := OtherShare(i, m, junkKey, ShareBody(junk, c.topic));
      && Enabled(c, s, step) && Apply(c, s, step).pub == s.pub
      && StoredAt(c, Apply(c, s, step), i + 1) == Some(junk)
  {
    PublisherAt(c, s);
  }

  /** The shares a subscriber has collected, one after the other. */
  function Gathered(shares: seq<string>): string {
    if shares == [] then "" else shares[0] + Gathered(shares[1..])
  }

  lemma {:induction false} GatheredText(shares: seq<string>, ls: seq<string>)
    requires |shares| == |ls| && forall j :: 0 <= j < |ls| ==> shares[j] == ls[j] + "\n"
    ensures Gathered(shares) == JoinText(ls)
  {
    if ls != [] {
      GatheredText(shares[1..], ls[1..]);
    }
  }

  /** In every run and at every moment: the shares that any t or more KeyStores have of one epoch,
      in any order, give back that epoch's session key, if it has no zero byte. */
  lemma EpochRecombines(c: Config, s0: System, steps: seq<Step>, s: System, e: nat, pick: seq<int>, shares: seq<string>)
    requires ValidConfig(c) && Initial(c, s0) && Reaches(c, s0, steps, s)
    requires Shape(c, s) && DistinctNumbers(pick) && |pick| >= c.t && |shares| == |pick|
    requires forall j :: 0 <= j < |pick| ==> HoldsShare(c, s, pick[j], e) && StoredAt(c, s, pick[j]) == Some(shares[j])
    ensures e < |s.epochs|
    ensures 0 !in s.epochs[e].key ==>
      var text := Gathered(shares);
      && Framed(KeptLines(text)) && ExtractAll(text) == Some(s.epochs[e].key)
      && |KeptLines(text)| >= c.t && Framed(KeptLines(text)[..c.t]) && ExtractFirst(text, c.t) == Some(s.epochs[e].key)
  {
    ReachedInv(c, s0, steps, s);
    hide Inv, Initial, Reaches;
    assert HoldsShare(c, s, pick[0], e);
    var epoch := s.epochs[e];
    if 0 !in epoch.key {
      PublisherAt(c, s);
      EpochShape(c, s, e);
      var polys := Draws(epoch.key, epoch.random);
      var ls := Picked(polys, c.t, pick);
      forall j | 0 <= j < |pick| ensures shares[j] == ls[j] + "\n" {
        assert HoldsShare(c, s, pick[j], e);
      }
      GatheredText(shares, ls);
      DrawsAreShares(epoch.key, epoch.random, c.t);
      TextRoundTrip(polys, epoch.key, c.t, pick);
    }
  }

  /** In every run in which nobody else names H(pk), a KeyStore has the last share it took, unless
      its key was refused, and then it has none. */
  lemma UnnamedShare(c: Config, s0: System, steps: seq<Step>, s: System, i: nat)
    requires ValidConfig(c) && Initial(c, s0) && Reaches(c, s0, steps, s) && Unnamed(c, steps)
    requires Shape(c, s) && i < c.n
    ensures s.delivered[i] <= |s.epochs|
    ensures if s.keyRefused[i] || s.delivered[i] == 0 then StoredAt(c, s, i + 1) == None
      else HoldsShare(c, s, i + 1, s.delivered[i] - 1)
  {
    hide Initial, Reaches, Unnamed, OwnRecord;
    ReachedInv(c, s0, steps, s);
    InitialInv(c, s0);
    InitialOwnRecords(c, s0);
    UnnamedRun(c, s0, steps, s);
    UnnamedShareAt(c, s, i);
  }

  lemma UnnamedShareAt(c: Config, s: System, i: nat)
    requires Inv(c, s) && OwnRecords(c, s) && i < c.n
    ensures s.delivered[i] <= |s.epochs|
    ensures if s.keyRefused[i] || s.delivered[i] == 0 then StoredAt(c, s, i + 1) == None
      else HoldsShare(c, s, i + 1, s.delivered[i] - 1)
  {
    hide NewEpoch, HoldsShare;
    InvAt(c, s, i);
    assert OwnRecord(c, s, i);
    DeliveredBound(c, s, i);
    if !s.keyRefused[i] && s.delivered[i] > 0 {
      OwnMeansHeld(c, s, i);
    }
  }

  /** Once Phase II is delivered to a KeyStore, the last share it took is of the session key in
      use. */
  lemma DeliveredIsCurrent(c: Config, s0: System, steps: seq<Step>, s: System, i: nat)
    requires ValidConfig(c) && Initial(c, s0) && Reaches(c, s0, steps, s)
    requires Shape(c, s) && i < c.n && s.place == Ready && s.toKs[i] == []
    ensures s.epochs != [] && s.delivered[i] == |s.epochs| && s.epochs[s.delivered[i] - 1].key == s.pub.sessionKey
  {
    ReachedInv(c, s0, steps, s);
    InvAt(c, s, i);
  }

  /** The two phases together: if nobody else names H(pk), then once everything the publisher has
      sent to some t or more KeyStores is delivered, and none of them refused its key, what they
      have gives back the session key in use, in any order, if it has no zero byte. */
  lemma SessionKeyRecovered(c: Config, s0: System, steps: seq<Step>, s: System, pick: seq<int>)
    returns (shares: seq<string>)
    requires ValidConfig(c) && Initial(c, s0) && Reaches(c, s0, steps, s) && Unnamed(c, steps)
    requires Shape(c, s) && s.place == Ready && DistinctNumbers(pick) && |pick| >= c.t
    requires forall j :: 0 <= j < |pick| ==>
      1 <= pick[j] <= c.n && s.toKs[pick[j] - 1] == [] && !s.keyRefused[pick[j] - 1]
    ensures |shares| == |pick| && forall j :: 0 <= j < |pick| ==> StoredAt(c, s, pick[j]) == Some(shares[j])
    ensures 0 !in s.pub.sessionKey ==>
      var text := Gathered(shares);
      && Framed(KeptLines(text)) && ExtractAll(text) == Some(s.pub.sessionKey)
      && |KeptLines(text)| >= c.t && Framed(KeptLines(text)[..c.t])
      && ExtractFirst(text, c.t) == Some(s.pub.sessionKey)
  {
    hide Initial, Reaches, Unnamed, StoredAt;
    var e := |s.epochs| - 1;
    forall j | 0 <= j < |pick|
      ensures s.epochs != [] && s.epochs[e].key == s.pub.sessionKey && HoldsShare(c, s, pick[j], e)
    {
      DeliveredIsCurrent(c, s0, steps, s, pick[j] - 1);
      UnnamedShare(c, s0, steps, s, pick[j] - 1);
    }
    assert HoldsShare(c, s, pick[0], e);
    shares := seq(|pick|, j requires 0 <= j < |pick| => s.epochs[e].shares[pick[j] - 1]);
    EpochRecombines(c, s0, steps, s, e, pick, shares);
  }
}
