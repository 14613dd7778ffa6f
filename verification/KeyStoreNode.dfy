/** The KeyStore as an object: its global key buffers and its database, changed by one message
    at a time. */
module KeyStoreNode {
  import opened Options
  import opened Database
  import opened ProtocolSteps

  class KeyStore {
    const id: nat
    const hash: PublicKey -> Hash
    const db: Table
    var symmKey: Block
    var shareKey: string

    constructor (id: nat, hash: PublicKey -> Hash, rows: nat)
      ensures this.id == id && this.hash == hash && fresh(db) && fresh(db.db) && db.Valid()
      ensures State() == KeyStoreState([], map[], rows)
    {
      this.id, this.hash, symmKey, shareKey := id, hash, [], "";
      db := new Table(rows);
    }

    ghost function State(): KeyStoreState
      reads this, db
    {
      KeyStoreState(symmKey, db.store, db.db.Length)
    }

    /** The loop that fills `plainack`. */
    method MaskNonce(hpk: Hash, nonce: Nonce) returns (plainack: Hash)
      ensures plainack == Masked(hpk, nonce) && |plainack| == 32
      ensures forall k :: 0 <= k < 32 ==> plainack[k] == hpk[k] ^ nonce[k % 16]
    {
      plainack := ZERO;
      var i := 0;
      while i < HASH_LEN
        invariant 0 <= i <= HASH_LEN
        invariant forall k :: 0 <= k < i ==> plainack[k] == hpk[k] ^ nonce[k % NONCE_SIZE]
      {
        plainack := plainack[i := hpk[i] ^ nonce[i % NONCE_SIZE]];
        i := i + 1;
      }
    }

    /** Phase I. The acknowledgement goes out before the key is stored, in the same callback. */
    method ReceiveKey(m: KeyMessage, junk: KeyBody) returns (ack: Option<Ack>)
      requires db.Valid()
      modifies this`symmKey, db`store, db.db
      ensures db.Valid()
      ensures (State(), ack) == OnValue(hash, id, old(State()), m, junk)
      ensures var body, hpk := if m.recipient == id then m.body else junk, hash(m.pk);
        && symmKey == body.key && (ack == None <==> hpk != body.hpk)
        && (ack == None ==> db.store == old(db.store))
        && (ack != None ==>
             && ack.value.key == body.key
             && (forall k :: 0 <= k < 32 ==> ack.value.plain[k] == hpk[k] ^ body.nonce[k % 16])
             && if hpk in old(db.store) || exists i :: 0 <= i < db.db.Length && !old(db.db[i].used)
                then OnlyDevice(old(db.store), db.store, hpk, body.key,
                  if hpk in old(db.store) then old(db.store)[hpk].shares else map[ZERO := ""])
                else db.store == old(db.store))
    {
      var plain := IbeDecrypt(m, id, junk);
      symmKey := plain.key;
      var hpk := hash(m.pk);
      if hpk != plain.hpk {
        return None;
      }
      var plainack := MaskNonce(hpk, plain.nonce);
      ack := Some(Ack(symmKey, plainack));
      var _ := db.AddsymK(hpk, symmKey);
    }

    /** Phase II, sharing mode SSS. The result of the decryption is not looked at. */
    method ReceiveShare(m: ShareMessage, junkKey: Block, junk: ShareBody) returns (row: int)
      requires db.Valid()
      modifies this`shareKey, db`store, db.db
      ensures db.Valid()
      ensures State() == OnSk(old(State()), m, junkKey, junk)
      ensures m.hpk !in old(db.store) ==> row == -1
      ensures row == -1 ==> db.store == old(db.store)
      ensures m.hpk in old(db.store) ==>
        var body, shares := if m.key == old(db.store)[m.hpk].key then m.body else junk, old(db.store)[m.hpk].shares;
        && shareKey == body.share
        && (row == -1 <==>
             && body.topic !in shares && ZERO !in shares
             && forall i :: 0 <= i < db.db.Length ==> old(db.db[i].used))
        && (row != -1 ==>
             && m.hpk in db.store
             && OnlyDevice(old(db.store), db.store, m.hpk, old(db.store)[m.hpk].key, db.store[m.hpk].shares)
             && ShareWritten(shares, db.store[m.hpk].shares, body.topic, body.share))
    {
      db.FreeRows();
      var rowid, msymK := db.GetSymK(m.hpk, junkKey);
      var dmsg := GcmDecrypt(m, msymK, junk);
      shareKey := dmsg.share;
      row := db.Addshare(m.hpk, dmsg.topic, dmsg.share);
    }

    /** `KsCallback`: every KeyStore sees every message and takes those that name its number. */
    method KsCallback(target: nat, m: Message, junk: KeyBody, junkKey: Block, junkBody: ShareBody)
      returns (ack: Option<Ack>)
      requires db.Valid()
      modifies this`symmKey, this`shareKey, db`store, db.db
      ensures db.Valid()
      ensures (State(), ack) ==
        if target != id then (old(State()), None)
        else match m
          case Value(key) => OnValue(hash, id, old(State()), key, junk)
          case Sk(share) => (OnSk(old(State()), share, junkKey, junkBody), None)
      ensures target != id ==> ack == None && db.store == old(db.store) && symmKey == old(symmKey)
      ensures m.Sk? ==> ack == None && symmKey == old(symmKey)
      ensures target == id && m.Value? ==>
        var body := if m.key.recipient == id then m.key.body else junk;
        && symmKey == body.key && (ack == None <==> hash(m.key.pk) != body.hpk)
        && (ack != None ==> ack.value.key == body.key)
      ensures target == id && m.Sk? && m.share.hpk in old(db.store) ==>
        shareKey == if m.share.key == old(db.store)[m.share.hpk].key then m.share.body.share else junkBody.share
    {
      ack := None;
      if m.Value? && target == id {
        ack := ReceiveKey(m.key, junk);
      }
      if m.Sk? && target == id {
        var _ := ReceiveShare(m.share, junkKey, junkBody);
      }
    }
  }
}
