/** All interleavings of one publisher, its KeyStores, and anybody else who sends messages to them:
    the states of Phases I and II and the steps between them. */
module ProtocolRuns {
  import opened Options
  import opened CArithmetic
  import opened ShareText
  import opened Database
  import opened ProtocolSteps

  /** What does not change: n KeyStores, threshold t, the publisher's public key, the hash
      function, and the hash of the topic. Hashes are not zero. */
  datatype Config = Config(n: nat, t: nat, pk: PublicKey, hash: PublicKey -> Hash, topic: Hash)

  ghost predicate ValidConfig(c: Config) {
    1 <= c.t <= c.n < 256 && c.topic != ZERO
  }

  /** Where the publisher is: inside `SecConnect`, inside `SecSessionKeyUpdate`, or outside. */
  datatype Place =
    | Idle
    | SendingKeys(next: nat)
    | Waiting
    | Distributing(next: nat, publishing: bool)
    | Ready
    | Returned   // `SecConnect` gave up

  /** A session key and what was split from it. */
  datatype Epoch = Epoch(key: seq<byte>, random: seq<seq<int32>>, shares: seq<string>)

  /** Who wrote the share that a KeyStore has for the publisher and its topic: nobody so far, the
      publisher with its share of an epoch, or somebody else. */
  datatype Origin = Nobody | Own(epoch: nat) | Other(share: string)

  /** Channels are first in, first out. The fields from `epochs` on are history: the session keys
      so far; and for every KeyStore how many of the publisher's share messages it has taken, the
      key in the last key message naming H(pk) that it acknowledged, whether that key found no row,
      whether it has acknowledged the publisher's own key and nonce, in whosever message they came,
      and who wrote the share it has. */
  datatype System = System(
    place: Place,
    pub: Publisher,
    stores: seq<KeyStoreState>,
    toKs: seq<seq<Message>>,
    fromKs: seq<seq<Ack>>,
    epochs: seq<Epoch>,
    delivered: seq<nat>,
    lastKey: seq<Option<Block>>,
    keyRefused: seq<bool>,
    answered: seq<bool>,
    origin: seq<Origin>)

  /** The steps of others carry any message: H(pk) and pk are sent in clear, and encrypting to a
      KeyStore needs no secret. */
  datatype Step =
    | Connect(keys: seq<Block>, nonces: seq<Nonce>)
    | PublishKey
    | DeliverKey(i: nat, junk: KeyBody)
    | DeliverShare(i: nat, junkKey: Block, junkBody: ShareBody)
    | ReceiveAck(i: nat, plain: Hash)
    | Expire
    | GiveUp
    | Finish(epoch: Epoch)
    | PublishShare
    | PublishData
    | PublishDataLate(epoch: Epoch)
    | OtherKey(i: nat, key: KeyMessage, junk: KeyBody)
    | OtherShare(i: nat, share: ShareMessage, junkKey: Block, junkBody: ShareBody)
    | OtherAck(i: nat, ack: Ack, plain: Hash)

  ghost predicate Shape(c: Config, s: System) {
    && |s.pub.ksn| == |s.stores| == |s.toKs| == |s.fromKs| == c.n
    && |s.delivered| == |s.lastKey| == |s.keyRefused| == |s.answered| == |s.origin| == c.n
  }

  ghost predicate Initial(c: Config, s: System) {
    && Shape(c, s) && s.place == Idle && s.pub.status == Disconnected && s.pub.counter == 0 && s.epochs == []
    && (forall i :: 0 <= i < c.n ==>
         && !s.pub.ksn[i].verified && s.toKs[i] == [] && s.fromKs[i] == []
         && s.delivered[i] == 0 && s.lastKey[i] == None && !s.keyRefused[i] && !s.answered[i] && s.origin[i] == Nobody
         && c.hash(c.pk) !in s.stores[i].store)
  }

  ghost predicate NewEpoch(c: Config, e: Epoch) {
    SplitInto(e.key, e.random, c.n, c.t, e.shares)
  }

  predicate KeySent(s: System, i: nat) {
    match s.place
    case Idle => false
    case SendingKeys(next) => i < next
    case _ => true
  }

  /** KeyStore `i` has taken the publisher's own key message. */
  predicate KeyTaken(s: System, i: nat)
    requires i < |s.toKs|
  {
    KeySent(s, i) && !(s.toKs[i] != [] && s.toKs[i][0].Value?)
  }

  /** `loop()` runs the callback while `SecConnect` waits, and when the application calls it. */
  predicate MayReceive(s: System) {
    || (s.place == Waiting && s.pub.status != GoodNonce && s.pub.status != BadNonce)
    || s.place == Ready || s.place == Returned
  }

  /** Nobody else knows a master key or a nonce. So an acknowledgement that decrypts to the masked
      hash comes from the KeyStore, in answer to a message with this key and nonce: the publisher's
      own, or a copy that somebody else has sent it. */
  ghost predicate Producible(c: Config, s: System, i: nat, ack: Ack, plain: Hash)
    requires Shape(c, s) && i < c.n
  {
    CbcDecrypt(ack, s.pub.ksn[i].masterkey, plain) == Masked(c.hash(c.pk), s.pub.ksn[i].nonce) ==> s.answered[i]
  }

  /** The acknowledgement that KeyStore `i` owes the publisher. */
  function OwnAck(c: Config, p: Publisher, i: nat): Ack
    requires i < |p.ksn|
  {
    Ack(p.ksn[i].masterkey, Masked(c.hash(c.pk), p.ksn[i].nonce))
  }

  ghost predicate Enabled(c: Config, s: System, step: Step) {
    Shape(c, s) &&
    match step
    case Connect(keys, nonces) => s.place == Idle && |keys| == |nonces| == c.n
    case PublishKey => s.place.SendingKeys? && s.place.next < c.n
    case DeliverKey(i, _) => i < c.n && s.toKs[i] != [] && s.toKs[i][0].Value?
    case DeliverShare(i, _, _) => i < c.n && s.toKs[i] != [] && s.toKs[i][0].Sk?
    case ReceiveAck(i, _) => i < c.n && s.fromKs[i] != [] && MayReceive(s)
    case Expire => s.place == Waiting && s.pub.status != GoodNonce
    case GiveUp => s.place == Waiting && s.pub.status == BadNonce
    case Finish(epoch) => s.place == Waiting && s.pub.status == GoodNonce && NewEpoch(c, epoch)
    case PublishShare => s.place.Distributing? && s.place.next < c.n && |s.pub.shares| == c.n
    case PublishData => s.place == Ready && s.pub.status == Connected && s.pub.counter < MAX_SK_USAGE
    case PublishDataLate(epoch) =>
      s.place == Ready && s.pub.status == Connected && s.pub.counter >= MAX_SK_USAGE && NewEpoch(c, epoch)
    case OtherKey(i, _, _) => i < c.n
    case OtherShare(i, _, _, _) => i < c.n
    case OtherAck(i, ack, plain) => i < c.n && MayReceive(s) && Producible(c, s, i, ack, plain)
  }

  /** After the last KeyStore is served, the publisher goes on. */
  function KeysSent(c: Config, i: nat): Place {
    if i < c.n then SendingKeys(i) else Waiting
  }

  function SharesSent(c: Config, s: System, i: nat, publishing: bool): System {
    if i < c.n then s.(place := Distributing(i, publishing))
    else s.(place := Ready, pub := if publishing then s.pub.(counter := s.pub.counter + 1) else s.pub)
  }

  /** The message names H(pk), and the KeyStore finds H(pk) inside it as well. */
  predicate Acknowledged(c: Config, i: nat, m: KeyMessage, junk: KeyBody) {
    c.hash(m.pk) == c.hash(c.pk) && IbeDecrypt(m, i + 1, junk).hpk == c.hash(c.pk)
  }

  /** KeyStore `i` takes a key message, from whomever. */
  ghost function KeyArrives(c: Config, s: System, i: nat, m: KeyMessage, junk: KeyBody): (r: System)
    requires Shape(c, s) && i < c.n
    ensures Shape(c, r)
  {
    var (ks, ack) := OnValue(c.hash, i + 1, s.stores[i], m, junk);
    var stored := s.(stores := s.stores[i := ks]);
    if Acknowledged(c, i, m, junk) then
      stored.(lastKey := s.lastKey[i := Some(IbeDecrypt(m, i + 1, junk).key)],
              keyRefused := s.keyRefused[i := !KeyFits(s.stores[i], c.hash(c.pk))],
              answered := s.answered[i := s.answered[i] || ack == Some(OwnAck(c, s.pub, i))])
    else stored
  }

  /** What KeyStore `i` makes of a share message: it decrypts with the key it has for H(pk). */
  ghost function Decrypted(s: System, i: nat, m: ShareMessage, junkKey: Block, junkBody: ShareBody): ShareBody
    requires i < |s.stores|
  {
    GcmDecrypt(m, if m.hpk in s.stores[i].store then s.stores[i].store[m.hpk].key else junkKey, junkBody)
  }

  /** The message makes KeyStore `i` write a share for the publisher and its topic. */
  ghost predicate Writes(c: Config, s: System, i: nat, m: ShareMessage, junkKey: Block, junkBody: ShareBody)
    requires Shape(c, s) && i < c.n
  {
    && m.hpk == c.hash(c.pk) && Decrypted(s, i, m, junkKey, junkBody).topic == c.topic
    && ShareFits(s.stores[i], c.hash(c.pk), c.topic)
  }

  /** KeyStore `i` takes a share message, from whomever; `own` tells whether it is the
      publisher's. */
  ghost function ShareArrives(c: Config, s: System, i: nat, m: ShareMessage, junkKey: Block, junkBody: ShareBody,
      own: bool): (r: System)
    requires Shape(c, s) && i < c.n
    ensures Shape(c, r)
  {
    var body := Decrypted(s, i, m, junkKey, junkBody);
    var stored := s.(stores := s.stores[i := OnSk(s.stores[i], m, junkKey, junkBody)]);
    if Writes(c, s, i, m, junkKey, junkBody) then
      stored.(origin := s.origin[i := if own && body == m.body then Own(s.delivered[i]) else Other(body.share)])
    else stored
  }

  ghost function Apply(c: Config, s: System, step: Step): (r: System)
    requires Enabled(c, s, step)
  {
    var hpk := c.hash(c.pk);
    match step
    case Connect(keys, nonces) =>
      s.(pub := Begun(s.pub, keys, nonces), place := KeysSent(c, 0), answered := seq(c.n, _ => false))
    case PublishKey =>
      var i := s.place.next;
      s.(toKs := s.toKs[i := s.toKs[i] + [Value(KeyMessageTo(s.pub, i, c.pk, hpk))]], place := KeysSent(c, i + 1))
    case DeliverKey(i, junk) =>
      var m := s.toKs[i][0].key;
      var ack := OnValue(c.hash, i + 1, s.stores[i], m, junk).1;
      KeyArrives(c, s, i, m, junk).(toKs := s.toKs[i := s.toKs[i][1..]],
        fromKs := s.fromKs[i := s.fromKs[i] + if ack.Some? then [ack.value] else []])
    case DeliverShare(i, junkKey, junkBody) =>
      ShareArrives(c, s, i, s.toKs[i][0].share, junkKey, junkBody, true).(toKs := s.toKs[i := s.toKs[i][1..]],
        delivered := s.delivered[i := s.delivered[i] + 1])
    case ReceiveAck(i, plain) =>
      s.(pub := AfterAck(s.pub, i, s.fromKs[i][0], hpk, plain), fromKs := s.fromKs[i := s.fromKs[i][1..]])
    case Expire => s.(pub := s.pub.(status := TimedOut), place := Returned)
    case GiveUp => s.(place := Returned)
    case Finish(e) =>
      SharesSent(c, s.(pub := Updated(s.pub.(status := Connected), e.key, e.shares), epochs := s.epochs + [e]), 0,
        false)
    case PublishShare =>
      var i := s.place.next;
      SharesSent(c, s.(toKs := s.toKs[i := s.toKs[i] + [Sk(ShareMessageTo(s.pub, i, c.topic, hpk))]]), i + 1,
        s.place.publishing)
    case PublishData => s.(pub := s.pub.(counter := s.pub.counter + 1))
    case PublishDataLate(e) =>
      SharesSent(c, s.(pub := Updated(s.pub, e.key, e.shares), epochs := s.epochs + [e]), 0, true)
    case OtherKey(i, m, junk) => KeyArrives(c, s, i, m, junk)
    case OtherShare(i, m, junkKey, junkBody) => ShareArrives(c, s, i, m, junkKey, junkBody, false)
    case OtherAck(i, ack, plain) => s.(pub := AfterAck(s.pub, i, ack, hpk, plain))
  }

  /** `s` is reached from `s0` by these steps. */
  ghost predicate Reaches(c: Config, s0: System, steps: seq<Step>, s: System)
    decreases |steps|
  {
    if steps == [] then s == s0
    else Enabled(c, s0, steps[0]) && Reaches(c, Apply(c, s0, steps[0]), steps[1..], s)
  }
}
