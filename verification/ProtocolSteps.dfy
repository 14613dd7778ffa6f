/** The steps of the SEEMQTT protocol as functions on values: what the publisher and a KeyStore do
    with one message, with symbolic encryption. The classes of SecMqttNode and KeyStoreNode refine
    them; ProtocolSafety runs them in every order. */
module ProtocolSteps {
  import opened Options
  import opened CArithmetic
  import opened ShareText
  import opened Database

  const NONCE_SIZE := 16
  const MAX_SK_USAGE := 50

  type Nonce = n: seq<bv8> | |n| == NONCE_SIZE witness Zeros(NONCE_SIZE)

  /** A hash with the nonce xored over it again and again. */
  function Masked(h: Hash, nonce: Nonce): (r: Hash)
    ensures forall i :: 0 <= i < HASH_LEN ==> r[i] == h[i] ^ nonce[i % NONCE_SIZE]
  {
    seq(HASH_LEN, i requires 0 <= i < HASH_LEN => h[i] ^ nonce[i % NONCE_SIZE])
  }

  lemma XorTwice(a: bv8, b: bv8)
    ensures (a ^ b) ^ b == a
  {
  }

  /** Masking twice with the same nonce gives the hash back, and only that hash. */
  lemma Unmasked(h: Hash, nonce: Nonce)
    ensures Masked(Masked(h, nonce), nonce) == h
  {
    forall i | 0 <= i < HASH_LEN ensures Masked(Masked(h, nonce), nonce)[i] == h[i] {
      XorTwice(h[i], nonce[i % NONCE_SIZE]);
    }
  }

  // ----- messages -----

  type PublicKey = string

  /** key || nonce || H(pk), encrypted to the identity of one KeyStore, then the public key. */
  datatype KeyBody = KeyBody(key: Block, nonce: Nonce, hpk: Hash)
  datatype KeyMessage = KeyMessage(recipient: nat, body: KeyBody, pk: PublicKey)

  /** share || H(topic), encrypted under a master key, then H(pk). */
  datatype ShareBody = ShareBody(share: string, topic: Hash)
  datatype ShareMessage = ShareMessage(key: Block, body: ShareBody, hpk: Hash)

  /** What arrives under the topics ".../value/id" and ".../sk/id". */
  datatype Message = Value(key: KeyMessage) | Sk(share: ShareMessage)

  /** H(pk) xor nonce, encrypted under a master key. */
  datatype Ack = Ack(key: Block, plain: Hash)

  /** Decryption with the wrong key yields something, `junk`, that the code goes on to use. */
  function IbeDecrypt(m: KeyMessage, id: nat, junk: KeyBody): KeyBody {
    if m.recipient == id then m.body else junk
  }

  function GcmDecrypt(m: ShareMessage, key: Block, junk: ShareBody): ShareBody {
    if m.key == key then m.body else junk
  }

  function CbcDecrypt(ack: Ack, key: Block, junk: Hash): Hash {
    if ack.key == key then ack.plain else junk
  }

  // ----- the KeyStore -----

  datatype KeyStoreState = KeyStoreState(symmKey: Block, store: Store, rows: nat)

  /** `AddsymK` gets a row, or needs none. */
  ghost predicate KeyFits(ks: KeyStoreState, hpk: Hash) {
    hpk in ks.store || |Slots(ks.store)| < ks.rows
  }

  /** `Addshare` has a row for the topic, or one without topic, or a free one. */
  ghost predicate ShareFits(ks: KeyStoreState, hpk: Hash, topic: Hash) {
    hpk in ks.store &&
    (topic in ks.store[hpk].shares || ZERO in ks.store[hpk].shares || |Slots(ks.store)| < ks.rows)
  }

  /** Phase I at a KeyStore: the global master key is overwritten in any case; a message whose
      H(pk) is wrong is then dropped, else it is acknowledged and the key stored. */
  ghost function OnValue(hash: PublicKey -> Hash, id: nat, ks: KeyStoreState, m: KeyMessage, junk: KeyBody)
    : (KeyStoreState, Option<Ack>)
  {
    var body, hpk := IbeDecrypt(m, id, junk), hash(m.pk);
    if hpk != body.hpk then (ks.(symmKey := body.key), None)
    else
      (ks.(symmKey := body.key, store := if KeyFits(ks, hpk) then PutKey(ks.store, hpk, body.key) else ks.store),
       Some(Ack(body.key, Masked(hpk, body.nonce))))
  }

  /** Phase II at a KeyStore: the share goes to the device that the clear H(pk) names. */
  ghost function OnSk(ks: KeyStoreState, m: ShareMessage, junkKey: Block, junk: ShareBody): KeyStoreState {
    var key := if m.hpk in ks.store then ks.store[m.hpk].key else junkKey;
    var body := GcmDecrypt(m, key, junk);
    if ShareFits(ks, m.hpk, body.topic)
    then ks.(store := PutShare(ks.store, m.hpk, body.topic, body.share))
    else ks
  }

  // ----- the publisher -----

  datatype Status = TimedOut | Disconnected | Connected | GoodNonce | BadNonce

  datatype Entry = Entry(verified: bool, masterkey: Block, nonce: Nonce)

  datatype Publisher = Publisher(
    status: Status,
    counter: nat,                // uses of the session key
    sessionKey: seq<byte>,
    ksn: seq<Entry>,
    shares: seq<string>)

  predicate AllVerified(ksn: seq<Entry>) {
    forall i :: 0 <= i < |ksn| ==> ksn[i].verified
  }

  /** New master keys and nonces; which KeyStores are verified stays as it was. */
  function Begun(p: Publisher, keys: seq<Block>, nonces: seq<Nonce>): Publisher
    requires |keys| == |nonces| == |p.ksn|
  {
    p.(ksn := seq(|p.ksn|, i requires 0 <= i < |p.ksn| => Entry(p.ksn[i].verified, keys[i], nonces[i])))
  }

  function KeyMessageTo(p: Publisher, i: nat, pk: PublicKey, hpk: Hash): KeyMessage
    requires i < |p.ksn|
  {
    KeyMessage(i + 1, KeyBody(p.ksn[i].masterkey, p.ksn[i].nonce, hpk), pk)
  }

  /** `SecCallback` on the acknowledgement of KeyStore `i`. */
  function AfterAck(p: Publisher, i: nat, ack: Ack, hpk: Hash, junk: Hash): Publisher
    requires i < |p.ksn|
  {
    var plain := CbcDecrypt(ack, p.ksn[i].masterkey, junk);
    if Masked(plain, p.ksn[i].nonce) == hpk then
      var ksn := p.ksn[i := p.ksn[i].(verified := true)];
      p.(ksn := ksn, status := if AllVerified(ksn) then GoodNonce else p.status)
    else
      p.(ksn := p.ksn[i := p.ksn[i].(verified := false)], status := BadNonce)
  }

  /** The beginning of `SecSessionKeyUpdate`. */
  function Updated(p: Publisher, key: seq<byte>, shares: seq<string>): Publisher {
    p.(counter := 0, sessionKey := key, shares := shares)
  }

  function ShareMessageTo(p: Publisher, i: nat, topic: Hash, hpk: Hash): ShareMessage
    requires i < |p.ksn| && i < |p.shares|
  {
    ShareMessage(p.ksn[i].masterkey, ShareBody(p.shares[i], topic), hpk)
  }

  /** What splitting a session key leaves in the share buffers: the lines with their newlines, if
      the key has no zero byte. Otherwise the lines come out short and the rest of the buffers is
      uninitialised memory, about which nothing is said. */
  ghost predicate SplitInto(key: seq<byte>, random: seq<seq<int32>>, n: nat, t: nat, shares: seq<string>) {
    && |shares| == n && 1 <= t <= n < 256
    && (0 !in key ==>
         && Randomness(random, |key|, t)
         && forall i :: 0 <= i < n ==> shares[i] == Line(Draws(key, random), i + 1, t) + "\n")
  }
}
