/** What every step of ProtocolRuns keeps. */
module ProtocolInvariant {
  import opened Options
  import opened Database
  import opened ProtocolSteps
  import opened ProtocolRuns

  // ----- the invariant -----

  /** How many share messages the publisher has sent to KeyStore `i`. */
  function SharesTo(s: System, i: nat): int {
    if s.place.Distributing? && s.place.next <= i then |s.epochs| - 1 else |s.epochs|
  }

  /** A channel without the key message at its head, if there is one. */
  function AfterKey(msgs: seq<Message>): seq<Message> {
    if msgs != [] && msgs[0].Value? then msgs[1..] else msgs
  }

  /** Phase I with one KeyStore goes through stages: nothing sent, key in flight, key taken. The
      KeyStore may have answered a copy of the key message while the message itself is in flight. */
  ghost predicate PhaseOne(c: Config, s: System, i: nat)
    requires Shape(c, s) && i < c.n
  {
    && (s.pub.ksn[i].verified || s.epochs != [] ==> s.answered[i])
    && (s.answered[i] ==> s.lastKey[i].Some?)
    && (s.epochs == [] ==> AfterKey(s.toKs[i]) == [])
    && if !KeySent(s, i) then
         s.toKs[i] == [] && s.fromKs[i] == [] && !s.pub.ksn[i].verified && s.epochs == []
       else if s.toKs[i] != [] && s.toKs[i][0].Value? then
         && s.toKs[i][0] == Value(KeyMessageTo(s.pub, i, c.pk, c.hash(c.pk)))
         && s.fromKs[i] == [] && s.delivered[i] == 0
       else
         s.answered[i] && (s.fromKs[i] == [] || s.fromKs[i] == [OwnAck(c, s.pub, i)])
  }

  function SkMessage(c: Config, key: Block, share: string): Message {
    Sk(ShareMessage(key, ShareBody(share, c.topic), c.hash(c.pk)))
  }

  /** The messages carry the shares of the epochs from `from` on, in order. */
  ghost predicate InFlight(c: Config, key: Block, msgs: seq<Message>, epochs: seq<Epoch>, from: nat, i: nat) {
    forall j :: 0 <= j < |msgs| && from + j < |epochs| && i < |epochs[from + j].shares| ==>
      msgs[j] == SkMessage(c, key, epochs[from + j].shares[i])
  }

  /** The share messages on their way to KeyStore `i` are the latest ones in order. */
  ghost predicate PhaseTwo(c: Config, s: System, i: nat)
    requires Shape(c, s) && i < c.n
  {
    if s.epochs == [] then s.delivered[i] == 0
    else
      && s.delivered[i] + |AfterKey(s.toKs[i])| == SharesTo(s, i)
      && InFlight(c, s.pub.ksn[i].masterkey, AfterKey(s.toKs[i]), s.epochs, s.delivered[i], i)
  }

  /** What `GetShare` returns to a subscriber with permission, from KeyStore number `x`. */
  ghost function StoredAt(c: Config, s: System, x: int): Option<string>
    requires Shape(c, s) && 1 <= x <= c.n
  {
    var store := s.stores[x - 1].store;
    if c.hash(c.pk) in store && c.topic in store[c.hash(c.pk)].shares
    then Some(store[c.hash(c.pk)].shares[c.topic]) else None
  }

  /** The text that history says a KeyStore has. */
  ghost function OriginText(s: System, i: nat): Option<string>
    requires i < |s.origin|
  {
    match s.origin[i]
    case Nobody => None
    case Own(e) => if e < |s.epochs| && i < |s.epochs[e].shares| then Some(s.epochs[e].shares[i]) else None
    case Other(share) => Some(share)
  }

  /** The record of KeyStore `i` for the publisher's device agrees with history. */
  ghost predicate RecordSound(c: Config, s: System, i: nat)
    requires Shape(c, s) && i < c.n
  {
    var hpk, store := c.hash(c.pk), s.stores[i].store;
    && (hpk in store <==> s.lastKey[i].Some? && !s.keyRefused[i])
    && (hpk in store ==> store[hpk].key == s.lastKey[i].value)
    && StoredAt(c, s, i + 1) == OriginText(s, i)
    && (s.origin[i].Own? ==> s.origin[i].epoch < s.delivered[i] <= |s.epochs|)
  }

  ghost predicate PublisherSound(c: Config, s: System) {
    && Shape(c, s)
    && (s.place.SendingKeys? ==> s.place.next < c.n)
    && (s.place.Distributing? ==> s.place.next < c.n)
    && (forall k :: 0 <= k < |s.epochs| ==> NewEpoch(c, s.epochs[k]))
    && s.pub.counter <= MAX_SK_USAGE
    && (s.place.Distributing? ==> s.pub.counter == 0 && s.pub.status == Connected)
    && (s.place == Idle || s.place.SendingKeys? ==> s.pub.status == Disconnected)
    && (s.place == Waiting && s.pub.status == GoodNonce ==> AllVerified(s.pub.ksn))
    && (s.pub.status == Connected ==> s.place == Ready || s.place.Distributing?)
    && (s.epochs != [] <==> s.place == Ready || s.place.Distributing?)
    && (s.epochs != [] ==>
         && s.pub.sessionKey == s.epochs[|s.epochs| - 1].key
         && s.pub.shares == s.epochs[|s.epochs| - 1].shares)
  }

  ghost predicate InvFor(c: Config, s: System, i: nat)
    requires Shape(c, s) && i < c.n
  {
    PhaseOne(c, s, i) && PhaseTwo(c, s, i) && RecordSound(c, s, i)
  }

  ghost predicate Inv(c: Config, s: System) {
    PublisherSound(c, s) && forall i :: 0 <= i < c.n ==> InvFor(c, s, i)
  }

  lemma InvAt(c: Config, s: System, i: nat)
    requires Inv(c, s) && i < c.n
    ensures Shape(c, s) && PhaseOne(c, s, i) && PhaseTwo(c, s, i) && RecordSound(c, s, i)
  {
    assert InvFor(c, s, i);
  }

  lemma PublisherAt(c: Config, s: System)
    requires Inv(c, s)
    ensures PublisherSound(c, s)
  {
  }

  // ----- steps that leave a KeyStore alone -----

  ghost predicate SameRecord(c: Config, s: System, s': System, i: nat)
    requires Shape(c, s) && Shape(c, s') && i < c.n
  {
    var hpk := c.hash(c.pk);
    && (hpk in s.stores[i].store <==> hpk in s'.stores[i].store)
    && (hpk in s.stores[i].store ==> s.stores[i].store[hpk] == s'.stores[i].store[hpk])
    && s'.lastKey[i] == s.lastKey[i] && s'.keyRefused[i] == s.keyRefused[i] && s'.origin[i] == s.origin[i]
  }

  ghost predicate SameTraffic(c: Config, s: System, s': System, i: nat)
    requires Shape(c, s) && Shape(c, s') && i < c.n
  {
    && s'.toKs[i] == s.toKs[i] && s'.fromKs[i] == s.fromKs[i] && s'.delivered[i] == s.delivered[i]
    && KeySent(s', i) == KeySent(s, i) && s.epochs <= s'.epochs && (s.answered[i] ==> s'.answered[i])
    && (s.epochs == [] && s'.epochs != [] ==> KeySent(s, i) && s.pub.ksn[i].verified)
    && if s.epochs == [] then SharesTo(s', i) == 0 else SharesTo(s', i) == SharesTo(s, i)
  }

  lemma TrafficKept(c: Config, s: System, s': System, i: nat)
    requires Shape(c, s) && Shape(c, s') && i < c.n && PhaseOne(c, s, i) && PhaseTwo(c, s, i)
    requires SameTraffic(c, s, s', i) && s'.pub.ksn[i] == s.pub.ksn[i]
    requires s'.answered[i] ==> s'.lastKey[i].Some?
    ensures PhaseOne(c, s', i) && PhaseTwo(c, s', i)
  {
  }

  lemma RecordKept(c: Config, s: System, s': System, i: nat)
    requires Shape(c, s) && Shape(c, s') && i < c.n && RecordSound(c, s, i)
    requires SameRecord(c, s, s', i) && s.epochs <= s'.epochs && s.delivered[i] <= s'.delivered[i] <= |s'.epochs|
    ensures RecordSound(c, s', i)
  {
  }

  lemma AnsweredIsKnown(c: Config, s: System, i: nat)
    requires Shape(c, s) && i < c.n && InvFor(c, s, i)
    ensures s.answered[i] ==> s.lastKey[i].Some?
  {
  }

  lemma Untouched(c: Config, s: System, s': System, i: nat)
    requires Shape(c, s) && Shape(c, s') && i < c.n && InvFor(c, s, i)
    requires SameTraffic(c, s, s', i) && s'.pub.ksn[i] == s.pub.ksn[i] && SameRecord(c, s, s', i)
    requires s'.answered[i] == s.answered[i]
    ensures InvFor(c, s', i)
  {
    hide PhaseOne, RecordSound, InFlight, AfterKey;
    AnsweredIsKnown(c, s, i);
    TrafficKept(c, s, s', i);
    DeliveredBound(c, s', i);
    RecordKept(c, s, s', i);
  }

  lemma DeliveredBound(c: Config, s: System, i: nat)
    requires Shape(c, s) && i < c.n && PhaseTwo(c, s, i)
    ensures s.delivered[i] <= |s.epochs|
  {
  }

  // ----- key messages -----

  /** Whoever sent it: a key message keeps the record in agreement with history. */
  lemma KeyRecord(c: Config, s: System, i: nat, m: KeyMessage, junk: KeyBody, g: nat)
    requires ValidConfig(c) && Shape(c, s) && i < c.n && g < c.n && RecordSound(c, s, g)
    requires s.answered[g] ==> s.lastKey[g].Some?
    ensures RecordSound(c, KeyArrives(c, s, i, m, junk), g)
    ensures s.answered[g] ==> KeyArrives(c, s, i, m, junk).answered[g]
    ensures KeyArrives(c, s, i, m, junk).answered[g] ==> KeyArrives(c, s, i, m, junk).lastKey[g].Some?
  {
    hide Slots;
  }

  lemma OtherKeyKeeps(c: Config, s: System, step: Step)
    requires ValidConfig(c) && Inv(c, s) && Enabled(c, s, step) && step.OtherKey?
    ensures Inv(c, Apply(c, s, step))
  {
    hide PhaseOne, PhaseTwo, RecordSound, OnValue, KeyFits, InvFor, Acknowledged;
    var s' := Apply(c, s, step);
    forall g | 0 <= g < c.n ensures InvFor(c, s', g) {
      InvAt(c, s, g);
      KeyRecord(c, s, step.i, step.key, step.junk, g);
      TrafficKept(c, s, s', g);
      IsInvFor(c, s', g);
    }
  }

  lemma IsInvFor(c: Config, s: System, i: nat)
    requires Shape(c, s) && i < c.n && PhaseOne(c, s, i) && PhaseTwo(c, s, i) && RecordSound(c, s, i)
    ensures InvFor(c, s, i)
  {
  }

  /** The share messages in a channel. */
  lemma ShareAtPosition(c: Config, s: System, i: nat, j: nat)
    requires Inv(c, s) && i < c.n && j < |AfterKey(s.toKs[i])| && s.epochs != []
    ensures s.delivered[i] + j < |s.epochs| && i < |s.epochs[s.delivered[i] + j].shares|
    ensures AfterKey(s.toKs[i])[j] == SkMessage(c, s.pub.ksn[i].masterkey, s.epochs[s.delivered[i] + j].shares[i])
  {
    assert InvFor(c, s, i);
    assert NewEpoch(c, s.epochs[s.delivered[i] + j]);
  }

  /** A key message at the head of a channel is the publisher's. */
  lemma KeyFirst(c: Config, s: System, i: nat)
    requires Inv(c, s) && i < c.n && s.toKs[i] != [] && s.toKs[i][0].Value?
    ensures s.toKs[i][0] == Value(KeyMessageTo(s.pub, i, c.pk, c.hash(c.pk)))
      && AfterKey(s.toKs[i][1..]) == s.toKs[i][1..]
    ensures KeySent(s, i) && s.fromKs[i] == [] && s.delivered[i] == 0
  {
    assert InvFor(c, s, i);
    if s.epochs != [] && s.toKs[i][1..] != [] {
      ShareAtPosition(c, s, i, 0);
    }
  }

  lemma OwnKeyAcknowledged(c: Config, ks: KeyStoreState, p: Publisher, i: nat, junk: KeyBody)
    requires i < |p.ksn|
    ensures var m := KeyMessageTo(p, i, c.pk, c.hash(c.pk));
      && Acknowledged(c, i, m, junk) && IbeDecrypt(m, i + 1, junk).key == p.ksn[i].masterkey
      && OnValue(c.hash, i + 1, ks, m, junk).1 == Some(Ack(p.ksn[i].masterkey, Masked(c.hash(c.pk), p.ksn[i].nonce)))
  {
  }

  lemma DeliverKeyHere(c: Config, s: System, step: Step)
    requires ValidConfig(c) && Inv(c, s) && Enabled(c, s, step) && step.DeliverKey?
    ensures PhaseOne(c, Apply(c, s, step), step.i) && PhaseTwo(c, Apply(c, s, step), step.i)
  {
    hide Inv, NewEpoch, OnValue, Acknowledged, RecordSound;
    InvAt(c, s, step.i);
    KeyFirst(c, s, step.i);
    OwnKeyAcknowledged(c, s.stores[step.i], s.pub, step.i, step.junk);
  }

  lemma DeliverKeyKeeps(c: Config, s: System, step: Step)
    requires ValidConfig(c) && Inv(c, s) && Enabled(c, s, step) && step.DeliverKey?
    ensures Inv(c, Apply(c, s, step))
  {
    hide PhaseOne, PhaseTwo, RecordSound, OnValue, KeyFits, InvFor, Acknowledged;
    var s', m := Apply(c, s, step), s.toKs[step.i][0].key;
    var s1 := KeyArrives(c, s, step.i, m, step.junk);
    forall g | 0 <= g < c.n ensures InvFor(c, s', g) {
      InvAt(c, s, g);
      KeyRecord(c, s, step.i, m, step.junk, g);
      DeliveredBound(c, s, g);
      RecordKept(c, s1, s', g);
      if g != step.i {
        TrafficKept(c, s, s', g);
      } else {
        DeliverKeyHere(c, s, step);
      }
      IsInvFor(c, s', g);
    }
  }

  // ----- share messages -----

  /** Whoever sent it: a share message keeps the record in agreement with history. */
  lemma ShareRecord(c: Config, s: System, i: nat, m: ShareMessage, junkKey: Block, junkBody: ShareBody, own: bool,
      g: nat)
    requires ValidConfig(c) && Shape(c, s) && i < c.n && g < c.n && RecordSound(c, s, g) && s.delivered[g] <= |s.epochs|
    requires own ==>
      && s.delivered[i] < |s.epochs| && i < |s.epochs[s.delivered[i]].shares|
      && m.body.share == s.epochs[s.delivered[i]].shares[i]
    ensures var s1 := ShareArrives(c, s, i, m, junkKey, junkBody, own);
      RecordSound(c, s1.(delivered := if own then s1.delivered[i := s1.delivered[i] + 1] else s1.delivered), g)
  {
    hide Slots;
  }

  lemma OtherShareKeeps(c: Config, s: System, step: Step)
    requires ValidConfig(c) && Inv(c, s) && Enabled(c, s, step) && step.OtherShare?
    ensures Inv(c, Apply(c, s, step))
  {
    hide PhaseOne, PhaseTwo, RecordSound, OnSk, InvFor, Writes, Decrypted;
    var s' := Apply(c, s, step);
    forall g | 0 <= g < c.n ensures InvFor(c, s', g) {
      InvAt(c, s, g);
      DeliveredBound(c, s, g);
      ShareRecord(c, s, step.i, step.share, step.junkKey, step.junkBody, false, g);
      TrafficKept(c, s, s', g);
      IsInvFor(c, s', g);
    }
  }

  lemma NextShare(c: Config, s: System, i: nat)
    requires Inv(c, s) && i < c.n && s.toKs[i] != [] && s.toKs[i][0].Sk?
    ensures s.epochs != [] && s.delivered[i] < |s.epochs| && i < |s.epochs[s.delivered[i]].shares|
    ensures s.toKs[i][0] == SkMessage(c, s.pub.ksn[i].masterkey, s.epochs[s.delivered[i]].shares[i])
    ensures forall j :: 0 <= j < |s.toKs[i]| ==> s.toKs[i][j].Sk?
  {
    assert InvFor(c, s, i);
    forall j | 0 <= j < |s.toKs[i]| ensures s.toKs[i][j].Sk? {
      ShareAtPosition(c, s, i, j);
    }
    ShareAtPosition(c, s, i, 0);
  }

  lemma DeliverShareHere(c: Config, s: System, step: Step)
    requires ValidConfig(c) && Inv(c, s) && Enabled(c, s, step) && step.DeliverShare?
    ensures PhaseOne(c, Apply(c, s, step), step.i) && PhaseTwo(c, Apply(c, s, step), step.i)
  {
    hide OnSk, PublisherSound, Inv, Writes, Decrypted, RecordSound;
    InvAt(c, s, step.i);
    NextShare(c, s, step.i);
  }

  lemma DeliverShareRecord(c: Config, s: System, step: Step, g: nat)
    requires ValidConfig(c) && Inv(c, s) && Enabled(c, s, step) && step.DeliverShare? && g < c.n
    ensures RecordSound(c, Apply(c, s, step), g)
  {
    hide OnSk, PhaseOne, RecordSound, Writes, Decrypted, Inv;
    var s', i, m := Apply(c, s, step), step.i, s.toKs[step.i][0].share;
    NextShare(c, s, i);
    InvAt(c, s, g);
    DeliveredBound(c, s, g);
    ShareRecord(c, s, i, m, step.junkKey, step.junkBody, true, g);
    var s1 := ShareArrives(c, s, i, m, step.junkKey, step.junkBody, true);
    RecordKept(c, s1.(delivered := s1.delivered[i := s1.delivered[i] + 1]), s', g);
  }

  lemma DeliverShareKeeps(c: Config, s: System, step: Step)
    requires ValidConfig(c) && Inv(c, s) && Enabled(c, s, step) && step.DeliverShare?
    ensures Inv(c, Apply(c, s, step))
  {
    hide OnSk, PhaseOne, PhaseTwo, RecordSound, InvFor, Writes, Decrypted;
    var s' := Apply(c, s, step);
    forall g | 0 <= g < c.n ensures InvFor(c, s', g) {
      InvAt(c, s, g);
      DeliverShareRecord(c, s, step, g);
      if g != step.i {
        TrafficKept(c, s, s', g);
      } else {
        DeliverShareHere(c, s, step);
      }
      IsInvFor(c, s', g);
    }
  }

  // ----- acknowledgements -----

  /** The publisher's test: an acknowledgement is accepted if and only if it decrypts to the
      masked hash. */
  lemma AckAcceptedIff(p: Publisher, i: nat, ack: Ack, hpk: Hash, junk: Hash)
    requires i < |p.ksn|
    ensures var plain, r := CbcDecrypt(ack, p.ksn[i].masterkey, junk), AfterAck(p, i, ack, hpk, junk);
      && |r.ksn| == |p.ksn| && (r.ksn[i].verified <==> plain == Masked(hpk, p.ksn[i].nonce))
      && (r.ksn[i].verified ==> r.status == if AllVerified(r.ksn) then GoodNonce else p.status)
      && (!r.ksn[i].verified ==> r.status == BadNonce)
      && r == p.(ksn := p.ksn[i := p.ksn[i].(verified := r.ksn[i].verified)], status := r.status)
  {
    hide Masked;
    var plain := CbcDecrypt(ack, p.ksn[i].masterkey, junk);
    Unmasked(hpk, p.ksn[i].nonce);
    Unmasked(plain, p.ksn[i].nonce);
  }

  /** The acknowledgement at the head of a channel always verifies. */
  lemma AckVerifies(c: Config, s: System, i: nat, junk: Hash)
    requires ValidConfig(c) && Inv(c, s) && i < c.n && s.fromKs[i] != []
    ensures s.fromKs[i][1..] == [] && s.answered[i]
    ensures var ksn := s.pub.ksn[i := s.pub.ksn[i].(verified := true)];
      AfterAck(s.pub, i, s.fromKs[i][0], c.hash(c.pk), junk) ==
        s.pub.(ksn := ksn, status := if AllVerified(ksn) then GoodNonce else s.pub.status)
  {
    InvAt(c, s, i);
    Unmasked(c.hash(c.pk), s.pub.ksn[i].nonce);
  }

  /** What the callback may change when it verifies a KeyStore only after that answered. */
  lemma CallbackKeeps(c: Config, s: System, s': System, i: nat, verified: bool, status: Status)
    requires Inv(c, s) && i < c.n && MayReceive(s) && (verified ==> s.answered[i])
    requires s'.pub == s.pub.(ksn := s.pub.ksn[i := s.pub.ksn[i].(verified := verified)], status := status)
    requires status == s.pub.status || status == BadNonce || (status == GoodNonce && AllVerified(s'.pub.ksn))
    requires s' == s.(pub := s'.pub, fromKs := s'.fromKs) && |s'.fromKs| == c.n
    requires forall g :: 0 <= g < c.n && g != i ==> s'.fromKs[g] == s.fromKs[g]
    requires s'.fromKs[i] == s.fromKs[i] || s'.fromKs[i] == []
    ensures Inv(c, s')
  {
    hide RecordSound, InvFor;
    PublisherAt(c, s);
    forall g | 0 <= g < c.n ensures InvFor(c, s', g) {
      InvAt(c, s, g);
      DeliveredBound(c, s, g);
      RecordKept(c, s, s', g);
      IsInvFor(c, s', g);
    }
  }

  lemma ReceiveAckKeeps(c: Config, s: System, step: Step)
    requires ValidConfig(c) && Inv(c, s) && Enabled(c, s, step) && step.ReceiveAck?
    ensures Inv(c, Apply(c, s, step))
  {
    hide AfterAck, Inv;
    PublisherAt(c, s);
    var s' := Apply(c, s, step);
    AckVerifies(c, s, step.i, step.plain);
    CallbackKeeps(c, s, s', step.i, true, s'.pub.status);
  }

  /** An acknowledgement of somebody else, or a copy, can end the connection attempt, or a
      connection, but not bring one about before the KeyStores have answered. */
  lemma OtherAckKeeps(c: Config, s: System, step: Step)
    requires ValidConfig(c) && Inv(c, s) && Enabled(c, s, step) && step.OtherAck?
    ensures Inv(c, Apply(c, s, step))
  {
    hide AfterAck, Inv, Masked;
    PublisherAt(c, s);
    var s' := Apply(c, s, step);
    AckAcceptedIff(s.pub, step.i, step.ack, c.hash(c.pk), step.plain);
    CallbackKeeps(c, s, s', step.i, s'.pub.ksn[step.i].verified, s'.pub.status);
  }

  // ----- the publisher's own steps -----

  lemma ConnectKeeps(c: Config, s: System, step: Step)
    requires ValidConfig(c) && Inv(c, s) && Enabled(c, s, step) && step.Connect?
    ensures Inv(c, Apply(c, s, step))
  {
    hide RecordSound;
    var s' := Apply(c, s, step);
    forall i | 0 <= i < c.n ensures InvFor(c, s', i) {
      assert InvFor(c, s, i);
      RecordKept(c, s, s', i);
    }
  }

  lemma PublishKeyKeeps(c: Config, s: System, step: Step)
    requires ValidConfig(c) && Inv(c, s) && Enabled(c, s, step) && step.PublishKey?
    ensures Inv(c, Apply(c, s, step))
  {
    hide RecordSound;
    var s' := Apply(c, s, step);
    forall i | 0 <= i < c.n ensures InvFor(c, s', i) {
      assert InvFor(c, s, i);
      RecordKept(c, s, s', i);
      if i != s.place.next {
        Untouched(c, s, s', i);
      }
    }
  }

  lemma StopKeeps(c: Config, s: System, step: Step)
    requires ValidConfig(c) && Inv(c, s) && Enabled(c, s, step) && (step.Expire? || step.GiveUp? || step.PublishData?)
    ensures Inv(c, Apply(c, s, step))
  {
    hide InvFor;
    var s' := Apply(c, s, step);
    forall i | 0 <= i < c.n ensures InvFor(c, s', i) {
      Untouched(c, s, s', i);
    }
  }

  lemma NewKeyKeeps(c: Config, s: System, step: Step)
    requires ValidConfig(c) && Inv(c, s) && Enabled(c, s, step) && (step.Finish? || step.PublishDataLate?)
    ensures Inv(c, Apply(c, s, step))
  {
    hide InvFor;
    var s' := Apply(c, s, step);
    forall i | 0 <= i < c.n ensures InvFor(c, s', i) {
      Untouched(c, s, s', i);
    }
  }

  lemma InFlightSnoc(c: Config, key: Block, msgs: seq<Message>, epochs: seq<Epoch>, from: nat, i: nat, share: string)
    requires InFlight(c, key, msgs, epochs, from, i) && from + |msgs| + 1 == |epochs|
    requires i < |epochs[|epochs| - 1].shares| && share == epochs[|epochs| - 1].shares[i]
    ensures InFlight(c, key, msgs + [SkMessage(c, key, share)], epochs, from, i)
  {
  }

  lemma AppliedPublishShare(c: Config, s: System, step: Step)
    requires ValidConfig(c) && Inv(c, s) && Enabled(c, s, step) && step.PublishShare?
    ensures var i, s' := s.place.next, Apply(c, s, step);
      && Shape(c, s') && s'.pub.ksn == s.pub.ksn && s'.stores == s.stores && s'.fromKs == s.fromKs
      && s'.epochs == s.epochs && s'.delivered == s.delivered && s'.lastKey == s.lastKey
      && s'.keyRefused == s.keyRefused && s'.answered == s.answered && s'.origin == s.origin
      && s'.toKs[i] == s.toKs[i] + [SkMessage(c, s.pub.ksn[i].masterkey, s.pub.shares[i])]
      && KeySent(s', i) && SharesTo(s', i) == |s.epochs|
  {
  }

  lemma AfterKeySnoc(msgs: seq<Message>, m: Message)
    requires m.Sk?
    ensures AfterKey(msgs + [m]) == AfterKey(msgs) + [m]
    ensures msgs + [m] != [] && ((msgs + [m])[0].Value? <==> msgs != [] && msgs[0].Value?)
    ensures msgs != [] ==> (msgs + [m])[0] == msgs[0]
  {
  }

  lemma PublishShareHere(c: Config, s: System, step: Step)
    requires ValidConfig(c) && Inv(c, s) && Enabled(c, s, step) && step.PublishShare?
    ensures PhaseOne(c, Apply(c, s, step), s.place.next) && PhaseTwo(c, Apply(c, s, step), s.place.next)
  {
    var i, s' := s.place.next, Apply(c, s, step);
    hide Inv, NewEpoch, Apply, InFlight, RecordSound, AfterKey;
    InvAt(c, s, i);
    PublisherAt(c, s);
    AppliedPublishShare(c, s, step);
    AfterKeySnoc(s.toKs[i], SkMessage(c, s.pub.ksn[i].masterkey, s.pub.shares[i]));
    InFlightSnoc(c, s.pub.ksn[i].masterkey, AfterKey(s.toKs[i]), s.epochs, s.delivered[i], i, s.pub.shares[i]);
  }

  lemma PublishShareKeeps(c: Config, s: System, step: Step)
    requires ValidConfig(c) && Inv(c, s) && Enabled(c, s, step) && step.PublishShare?
    ensures Inv(c, Apply(c, s, step))
  {
    hide PhaseOne, PhaseTwo, RecordSound, InvFor;
    var s' := Apply(c, s, step);
    forall i | 0 <= i < c.n ensures InvFor(c, s', i) {
      InvAt(c, s, i);
      if i != s.place.next {
        Untouched(c, s, s', i);
      } else {
        PublishShareHere(c, s, step);
        DeliveredBound(c, s, i);
        RecordKept(c, s, s', i);
        IsInvFor(c, s', i);
      }
    }
  }

  // ----- runs -----

  lemma StepKeeps(c: Config, s: System, step: Step)
    requires ValidConfig(c) && Inv(c, s) && Enabled(c, s, step)
    ensures Inv(c, Apply(c, s, step))
  {
    hide Inv, Enabled, Apply;
    match step
    case Connect(_, _) => ConnectKeeps(c, s, step);
    case PublishKey => PublishKeyKeeps(c, s, step);
    case DeliverKey(_, _) => DeliverKeyKeeps(c, s, step);
    case DeliverShare(_, _, _) => DeliverShareKeeps(c, s, step);
    case ReceiveAck(_, _) => ReceiveAckKeeps(c, s, step);
    case Expire => StopKeeps(c, s, step);
    case GiveUp => StopKeeps(c, s, step);
    case Finish(_) => NewKeyKeeps(c, s, step);
    case PublishShare => PublishShareKeeps(c, s, step);
    case PublishData => StopKeeps(c, s, step);
    case PublishDataLate(_) => NewKeyKeeps(c, s, step);
    case OtherKey(_, _, _) => OtherKeyKeeps(c, s, step);
    case OtherShare(_, _, _, _) => OtherShareKeeps(c, s, step);
    case OtherAck(_, _, _) => OtherAckKeeps(c, s, step);
  }

  lemma InitialInv(c: Config, s: System)
    requires ValidConfig(c) && Initial(c, s)
    ensures Inv(c, s)
  {
  }

  lemma {:induction false} RunKeeps(c: Config, s0: System, steps: seq<Step>, s: System)
    requires ValidConfig(c) && Inv(c, s0) && Reaches(c, s0, steps, s)
    ensures Inv(c, s)
    decreases |steps|
  {
    if steps != [] {
      StepKeeps(c, s0, steps[0]);
      RunKeeps(c, Apply(c, s0, steps[0]), steps[1..], s);
    }
  }

  lemma ReachedInv(c: Config, s0: System, steps: seq<Step>, s: System)
    requires ValidConfig(c) && Initial(c, s0) && Reaches(c, s0, steps, s)
    ensures Inv(c, s)
  {
    InitialInv(c, s0);
    RunKeeps(c, s0, steps, s);
  }
}
