/** The KeyStore's database: a fixed array of rows, searched and overwritten in place, and the
    nested map it stands for. */
module Database {
  import opened Options

  const HASH_LEN := 32

  function Zeros(n: nat): (r: seq<bv8>)
    ensures |r| == n && forall i :: 0 <= i < n ==> r[i] == 0
  {
    seq(n, _ => 0)
  }

  /** A SHA-256 digest, or the zeros of an empty field. */
  type Hash = h: seq<bv8> | |h| == HASH_LEN witness Zeros(HASH_LEN)

  const ZERO: Hash := Zeros(HASH_LEN)

  type Block = seq<int>

  datatype Row = Row(hiot: Hash, htpk: Hash, msymk: Block, shar: string, used: bool)

  /** What the rows stand for: every device has a key, and a share for each of its topics. The topic
      of all zeros stands for a row that has no topic yet. */
  datatype Device = Device(key: Block, shares: map<Hash, string>)

  type Store = map<Hash, Device>

  function PutKey(store: Store, iot: Hash, key: Block): Store {
    store[iot := Device(key, if iot in store then store[iot].shares else map[ZERO := ""])]
  }

  /** A new topic takes the row without topic, if the device has one. */
  function PutShare(store: Store, iot: Hash, tpk: Hash, share: string): Store
    requires iot in store
  {
    var shares := store[iot].shares;
    store[iot := Device(store[iot].key, (if tpk in shares then shares else shares - {ZERO})[tpk := share])]
  }

  /** Device `iot` has this key and these shares in the new map; nothing else has changed. */
  ghost predicate OnlyDevice(before: Store, after: Store, iot: Hash, key: Block, shares: map<Hash, string>) {
    && iot in after && after[iot] == Device(key, shares)
    && forall d :: d != iot ==> (d in after <==> d in before) && (d in after ==> after[d] == before[d])
  }

  lemma PutKeyIs(store: Store, iot: Hash, key: Block)
    ensures OnlyDevice(store, PutKey(store, iot, key), iot, key,
      if iot in store then store[iot].shares else map[ZERO := ""])
  {
  }

  /** These are the shares of a device after one of its topics was written. */
  ghost predicate ShareWritten(before: map<Hash, string>, after: map<Hash, string>, tpk: Hash, share: string) {
    && (forall t :: t in after <==> t == tpk || (t in before && (tpk in before || t != ZERO)))
    && after[tpk] == share && forall t :: t in after && t != tpk ==> after[t] == before[t]
  }

  lemma PutShareIs(store: Store, iot: Hash, tpk: Hash, share: string)
    requires iot in store
    ensures var after := PutShare(store, iot, tpk, share);
      && iot in after && OnlyDevice(store, after, iot, store[iot].key, after[iot].shares)
      && ShareWritten(store[iot].shares, after[iot].shares, tpk, share)
  {
  }

  // ----- the rows as a value -----

  /** The used rows come first, and the others are zero; no row repeats another one's device and
      topic, and a row without topic is the last one of its device; all rows of a device agree on
      its key. */
  ghost predicate Tidy(rows: seq<Row>) {
    && (forall i, j :: 0 <= i < j < |rows| && rows[j].used ==> rows[i].used)
    && (forall i :: 0 <= i < |rows| && !rows[i].used ==>
         rows[i].hiot == ZERO && rows[i].htpk == ZERO && rows[i].shar == "")
    && (forall i, j :: 0 <= i < j < |rows| && rows[i].used && rows[j].used && rows[i].hiot == rows[j].hiot ==>
         rows[i].msymk == rows[j].msymk && rows[i].htpk != rows[j].htpk && rows[i].htpk != ZERO)
  }

  ghost predicate HasRow(rows: seq<Row>, iot: Hash) {
    exists i :: 0 <= i < |rows| && rows[i].used && rows[i].hiot == iot
  }

  ghost predicate HasTopicRow(rows: seq<Row>, iot: Hash, tpk: Hash) {
    exists i :: 0 <= i < |rows| && rows[i].used && rows[i].hiot == iot && rows[i].htpk == tpk
  }

  ghost predicate DevicesHold(rows: seq<Row>, store: Store) {
    forall d :: d in store <==> HasRow(rows, d)
  }

  ghost predicate KeysHold(rows: seq<Row>, store: Store) {
    forall i :: 0 <= i < |rows| && rows[i].used && rows[i].hiot in store ==>
      rows[i].msymk == store[rows[i].hiot].key
  }

  ghost predicate TopicsHold(rows: seq<Row>, store: Store) {
    forall d, t :: d in store ==> (t in store[d].shares <==> HasTopicRow(rows, d, t))
  }

  ghost predicate SharesHold(rows: seq<Row>, store: Store) {
    forall i ::
      (0 <= i < |rows| && rows[i].used && rows[i].hiot in store && rows[i].htpk in store[rows[i].hiot].shares)
        ==> rows[i].shar == store[rows[i].hiot].shares[rows[i].htpk]
  }

  /** The rows hold exactly what the map says. */
  ghost predicate Holds(rows: seq<Row>, store: Store) {
    DevicesHold(rows, store) && KeysHold(rows, store) && TopicsHold(rows, store) && SharesHold(rows, store)
  }

  /** The rows determine the map. */
  lemma HoldsOne(rows: seq<Row>, s1: Store, s2: Store)
    requires Holds(rows, s1) && Holds(rows, s2)
    ensures s1 == s2
  {
    forall d | d in s1 ensures s1[d] == s2[d] {
      var i :| 0 <= i < |rows| && rows[i].used && rows[i].hiot == d;
      assert s1[d].key == rows[i].msymk == s2[d].key;
      forall t | t in s1[d].shares ensures s1[d].shares[t] == s2[d].shares[t] {
        var j :| 0 <= j < |rows| && rows[j].used && rows[j].hiot == d && rows[j].htpk == t;
      }
      assert s1[d].shares == s2[d].shares;
    }
    assert s1 == s2;
  }

  /** The number of rows in use. */
  ghost function Used(rows: seq<Row>): (n: nat)
    ensures n <= |rows|
  {
    if rows == [] then 0 else Used(rows[..|rows| - 1]) + if rows[|rows| - 1].used then 1 else 0
  }

  /** One slot for every topic of a device. */
  ghost function Slots(store: Store): (s: set<(Hash, Hash)>) {
    set d, t | d in store && t in store[d].shares :: (d, t)
  }

  ghost function RowSlots(rows: seq<Row>): set<(Hash, Hash)> {
    set i | 0 <= i < |rows| && rows[i].used :: (rows[i].hiot, rows[i].htpk)
  }

  lemma LastIsNew(rows: seq<Row>)
    requires Tidy(rows) && rows != [] && rows[|rows| - 1].used
    ensures (rows[|rows| - 1].hiot, rows[|rows| - 1].htpk) !in RowSlots(rows[..|rows| - 1])
  {
    var n := |rows| - 1;
    forall i | 0 <= i < n && rows[..n][i].used
      ensures (rows[..n][i].hiot, rows[..n][i].htpk) != (rows[n].hiot, rows[n].htpk)
    {
      assert rows[..n][i] == rows[i];
    }
  }

  lemma TidyPrefix(rows: seq<Row>, n: nat)
    requires Tidy(rows) && n <= |rows|
    ensures Tidy(rows[..n])
  {
  }

  lemma SlotsOfPrefix(rows: seq<Row>)
    requires rows != [] && !rows[|rows| - 1].used
    ensures RowSlots(rows) == RowSlots(rows[..|rows| - 1])
  {
    var n := |rows| - 1;
    forall p ensures p in RowSlots(rows) <==> p in RowSlots(rows[..n]) {
      if p in RowSlots(rows) {
        var i :| 0 <= i < |rows| && rows[i].used && p == (rows[i].hiot, rows[i].htpk);
        assert rows[..n][i] == rows[i];
      }
      if p in RowSlots(rows[..n]) {
        var i :| 0 <= i < n && rows[..n][i].used && p == (rows[..n][i].hiot, rows[..n][i].htpk);
        assert rows[i] == rows[..n][i];
      }
    }
  }

  lemma {:induction false} RowSlotsCount(rows: seq<Row>)
    requires Tidy(rows)
    ensures |RowSlots(rows)| == Used(rows)
  {
    if rows == [] {
      assert RowSlots(rows) == {};
    } else {
      hide Tidy, RowSlots;
      TidyPrefix(rows, |rows| - 1);
      RowSlotsCount(rows[..|rows| - 1]);
      if rows[|rows| - 1].used {
        LastIsNew(rows);
        SlotsSnoc(rows);
      } else {
        SlotsOfPrefix(rows);
      }
    }
  }

  lemma SlotsSnoc(rows: seq<Row>)
    requires rows != [] && rows[|rows| - 1].used
    ensures RowSlots(rows) == RowSlots(rows[..|rows| - 1]) + {(rows[|rows| - 1].hiot, rows[|rows| - 1].htpk)}
  {
    var n := |rows| - 1;
    forall p ensures p in RowSlots(rows) <==> p in RowSlots(rows[..n]) + {(rows[n].hiot, rows[n].htpk)} {
      if p in RowSlots(rows) {
        var i :| 0 <= i < |rows| && rows[i].used && p == (rows[i].hiot, rows[i].htpk);
        assert i < n ==> rows[..n][i] == rows[i];
      }
      if p in RowSlots(rows[..n]) {
        var i :| 0 <= i < n && rows[..n][i].used && p == (rows[..n][i].hiot, rows[..n][i].htpk);
        assert rows[i] == rows[..n][i];
      }
    }
  }

  lemma RowSlotIsSlot(rows: seq<Row>, store: Store, i: nat)
    requires Holds(rows, store) && i < |rows| && rows[i].used
    ensures rows[i].hiot in store && rows[i].htpk in store[rows[i].hiot].shares
    ensures (rows[i].hiot, rows[i].htpk) in Slots(store)
  {
    assert HasRow(rows, rows[i].hiot) && HasTopicRow(rows, rows[i].hiot, rows[i].htpk);
  }

  lemma SlotHasRow(rows: seq<Row>, store: Store, d: Hash, t: Hash) returns (i: nat)
    requires Holds(rows, store) && (d, t) in Slots(store)
    ensures i < |rows| && rows[i].used && rows[i].hiot == d && rows[i].htpk == t
  {
    assert HasTopicRow(rows, d, t);
    i :| 0 <= i < |rows| && rows[i].used && rows[i].hiot == d && rows[i].htpk == t;
  }

  lemma RowSlotsAre(rows: seq<Row>, store: Store)
    requires Holds(rows, store)
    ensures RowSlots(rows) == Slots(store)
  {
    hide Holds, Slots;
    forall p | p in RowSlots(rows) ensures p in Slots(store) {
      var i :| 0 <= i < |rows| && rows[i].used && p == (rows[i].hiot, rows[i].htpk);
      RowSlotIsSlot(rows, store, i);
    }
    forall p | p in Slots(store) ensures p in RowSlots(rows) {
      var i := SlotHasRow(rows, store, p.0, p.1);
    }
  }

  /** A row is free exactly if the slots of the map do not fill the array. */
  lemma RowsInUse(rows: seq<Row>, store: Store)
    requires Tidy(rows) && Holds(rows, store)
    ensures Used(rows) == |Slots(store)|
  {
    RowSlotsCount(rows);
    RowSlotsAre(rows, store);
  }

  lemma {:induction false} UsedPrefix(rows: seq<Row>, i: nat)
    requires Tidy(rows) && i < |rows|
    ensures rows[i].used <==> i < Used(rows)
    decreases |rows|
  {
    var n := |rows| - 1;
    var init := rows[..n];
    if i < n {
      UsedPrefix(init, i);
      if rows[n].used { AllUsed(init); }
    } else if rows[n].used {
      AllUsed(init);
    }
  }

  lemma {:induction false} AllUsed(rows: seq<Row>)
    requires forall i :: 0 <= i < |rows| ==> rows[i].used
    ensures Used(rows) == |rows|
  {
    if rows != [] { AllUsed(rows[..|rows| - 1]); }
  }

  // ----- the effect of one write -----

  /** The rows with the key of one device replaced. */
  function Rekeyed(rows: seq<Row>, iot: Hash, key: Block): (r: seq<Row>)
    ensures |r| == |rows|
    ensures forall i :: 0 <= i < |r| ==>
      r[i] == if rows[i].used && rows[i].hiot == iot then rows[i].(msymk := key) else rows[i]
  {
    seq(|rows|, i requires 0 <= i < |rows| =>
      if rows[i].used && rows[i].hiot == iot then rows[i].(msymk := key) else rows[i])
  }

  lemma RekeyedFinds(rows: seq<Row>, iot: Hash, key: Block)
    ensures forall d :: HasRow(Rekeyed(rows, iot, key), d) == HasRow(rows, d)
    ensures forall d, t :: HasTopicRow(Rekeyed(rows, iot, key), d, t) == HasTopicRow(rows, d, t)
  {
    var r := Rekeyed(rows, iot, key);
    forall d ensures HasRow(r, d) == HasRow(rows, d) {
      if HasRow(rows, d) {
        var i :| 0 <= i < |rows| && rows[i].used && rows[i].hiot == d;
        assert r[i].used;
      }
    }
    forall d, t ensures HasTopicRow(r, d, t) == HasTopicRow(rows, d, t) {
      if HasTopicRow(rows, d, t) {
        var i :| 0 <= i < |rows| && rows[i].used && rows[i].hiot == d && rows[i].htpk == t;
        assert r[i].used;
      }
    }
  }

  lemma RekeyedHolds(rows: seq<Row>, store: Store, iot: Hash, key: Block)
    requires Tidy(rows) && Holds(rows, store) && iot in store
    ensures Tidy(Rekeyed(rows, iot, key)) && Holds(Rekeyed(rows, iot, key), PutKey(store, iot, key))
  {
    hide HasRow, HasTopicRow;
    RekeyedFinds(rows, iot, key);
  }

  /** A new row in the first free place, for a device or topic that has none yet. */
  lemma NewRowTidy(rows: seq<Row>, i: nat, row: Row)
    requires Tidy(rows) && i < |rows| && !rows[i].used && (forall j :: 0 <= j < i ==> rows[j].used)
    requires row.used
    requires forall j :: 0 <= j < i && rows[j].hiot == row.hiot ==>
      rows[j].msymk == row.msymk && rows[j].htpk != row.htpk && rows[j].htpk != ZERO
    ensures Tidy(rows[i := row])
  {
  }

  lemma NewRowFinds(rows: seq<Row>, i: nat, row: Row)
    requires i < |rows| && !rows[i].used && row.used
    ensures forall d :: HasRow(rows[i := row], d) == (HasRow(rows, d) || d == row.hiot)
    ensures forall d, t ::
      HasTopicRow(rows[i := row], d, t) == (HasTopicRow(rows, d, t) || (d == row.hiot && t == row.htpk))
  {
    var r := rows[i := row];
    assert r[i] == row;
    forall d ensures HasRow(r, d) == (HasRow(rows, d) || d == row.hiot) {
      if HasRow(rows, d) {
        var j :| 0 <= j < |rows| && rows[j].used && rows[j].hiot == d;
        assert r[j] == rows[j];
      }
    }
    forall d, t ensures HasTopicRow(r, d, t) == (HasTopicRow(rows, d, t) || (d == row.hiot && t == row.htpk)) {
      if HasTopicRow(rows, d, t) {
        var j :| 0 <= j < |rows| && rows[j].used && rows[j].hiot == d && rows[j].htpk == t;
        assert r[j] == rows[j];
      }
    }
  }

  lemma NewDeviceHolds(rows: seq<Row>, store: Store, i: nat, row: Row)
    requires Tidy(rows) && Holds(rows, store)
    requires i < |rows| && !rows[i].used && row.used && row.htpk == ZERO && row.shar == "" && row.hiot !in store
    ensures Holds(rows[i := row], PutKey(store, row.hiot, row.msymk))
  {
    hide Tidy, HasRow, HasTopicRow;
    NewRowFinds(rows, i, row);
    forall t ensures !HasTopicRow(rows, row.hiot, t) {
      TopicRowIsRow(rows, row.hiot, t);
    }
    forall j | 0 <= j < |rows| && rows[j].used ensures rows[j].hiot != row.hiot {
      UsedIsRow(rows, j);
    }
    var r, s := rows[i := row], PutKey(store, row.hiot, row.msymk);
    forall d, t | d in s ensures t in s[d].shares <==> HasTopicRow(r, d, t) {
      if d == row.hiot {
        assert s[d].shares == map[ZERO := ""] && !HasTopicRow(rows, d, t);
      }
    }
  }

  lemma UsedIsRow(rows: seq<Row>, j: nat)
    requires j < |rows| && rows[j].used
    ensures HasRow(rows, rows[j].hiot)
  {
  }

  lemma TopicRowIsRow(rows: seq<Row>, d: Hash, t: Hash)
    ensures HasTopicRow(rows, d, t) ==> HasRow(rows, d)
  {
  }

  lemma NewTopicHolds(rows: seq<Row>, store: Store, i: nat, row: Row)
    requires Tidy(rows) && Holds(rows, store) && i < |rows| && !rows[i].used
    requires row.used && row.hiot in store && row.msymk == store[row.hiot].key
    requires row.htpk !in store[row.hiot].shares && ZERO !in store[row.hiot].shares
    ensures Holds(rows[i := row], PutShare(store, row.hiot, row.htpk, row.shar))
  {
    hide Tidy, HasRow, HasTopicRow;
    NewRowFinds(rows, i, row);
    assert HasRow(rows, row.hiot);
    assert !HasTopicRow(rows, row.hiot, row.htpk);
    var r := rows[i := row];
    var s := PutShare(store, row.hiot, row.htpk, row.shar);
    forall j | 0 <= j < |r| && r[j].used && r[j].hiot in s && r[j].htpk in s[r[j].hiot].shares
      ensures r[j].shar == s[r[j].hiot].shares[r[j].htpk]
    {
      if j != i && r[j].hiot == row.hiot && r[j].htpk == row.htpk {
        RowIsTopicRow(rows, j);
      }
    }
  }

  lemma RowIsTopicRow(rows: seq<Row>, j: nat)
    requires j < |rows| && rows[j].used
    ensures HasTopicRow(rows, rows[j].hiot, rows[j].htpk)
  {
  }

  /** Row `i` may get this topic: it has it already, or it has none and no row of the device has. */
  ghost predicate Fillable(rows: seq<Row>, i: nat, tpk: Hash)
    requires i < |rows|
  {
    && rows[i].used
    && (rows[i].htpk == tpk || (rows[i].htpk == ZERO && !HasTopicRow(rows, rows[i].hiot, tpk)))
  }

  /** Filling the row of a device without topic, or replacing the share of a topic. */
  lemma OverwrittenTidy(rows: seq<Row>, i: nat, tpk: Hash, share: string)
    requires Tidy(rows) && i < |rows| && Fillable(rows, i, tpk)
    ensures Tidy(rows[i := rows[i].(htpk := tpk, shar := share)])
  {
    forall j | 0 <= j < |rows| && j != i && rows[j].used && rows[j].hiot == rows[i].hiot
      ensures rows[j].htpk != tpk
    {
      RowIsTopicRow(rows, j);
    }
  }

  /** Another row of the same device. */
  ghost predicate OtherRow(rows: seq<Row>, i: nat, d: Hash, t: Hash)
    requires i < |rows|
  {
    exists j :: 0 <= j < |rows| && j != i && rows[j].used && rows[j].hiot == d && rows[j].htpk == t
  }

  lemma OverwrittenFinds(rows: seq<Row>, i: nat, tpk: Hash, share: string)
    requires i < |rows| && rows[i].used
    ensures var r := rows[i := rows[i].(htpk := tpk, shar := share)];
      && (forall d :: HasRow(r, d) == HasRow(rows, d))
      && (forall d, t :: HasTopicRow(r, d, t) == (OtherRow(rows, i, d, t) || (d == rows[i].hiot && t == tpk)))
      && (forall d, t ::
           HasTopicRow(rows, d, t) == (OtherRow(rows, i, d, t) || (d == rows[i].hiot && t == rows[i].htpk)))
  {
    var r := rows[i := rows[i].(htpk := tpk, shar := share)];
    assert r[i].used && r[i].hiot == rows[i].hiot;
    forall d ensures HasRow(r, d) == HasRow(rows, d) {
      if HasRow(rows, d) {
        var j :| 0 <= j < |rows| && rows[j].used && rows[j].hiot == d;
        assert r[j].used && r[j].hiot == d;
      }
    }
    forall d, t ensures HasTopicRow(r, d, t) == (OtherRow(rows, i, d, t) || (d == rows[i].hiot && t == tpk)) {
      if OtherRow(rows, i, d, t) {
        var j :| 0 <= j < |rows| && j != i && rows[j].used && rows[j].hiot == d && rows[j].htpk == t;
        assert r[j] == rows[j];
      }
    }
  }

  lemma NoOtherRow(rows: seq<Row>, i: nat)
    requires Tidy(rows) && i < |rows| && rows[i].used
    ensures !OtherRow(rows, i, rows[i].hiot, rows[i].htpk)
  {
    forall j | 0 <= j < |rows| && j != i && rows[j].used && rows[j].hiot == rows[i].hiot
      ensures rows[j].htpk != rows[i].htpk
    {
      assert i < j || j < i;
    }
  }

  lemma OverwrittenTopics(rows: seq<Row>, store: Store, i: nat, tpk: Hash, share: string)
    requires Tidy(rows) && Holds(rows, store) && i < |rows| && Fillable(rows, i, tpk)
    ensures rows[i].hiot in store
    ensures TopicsHold(rows[i := rows[i].(htpk := tpk, shar := share)], PutShare(store, rows[i].hiot, tpk, share))
  {
    hide HasRow, HasTopicRow, OtherRow, Tidy;
    RowSlotIsSlot(rows, store, i);
    OverwrittenFinds(rows, i, tpk, share);
    NoOtherRow(rows, i);
  }

  lemma OverwrittenShares(rows: seq<Row>, store: Store, i: nat, tpk: Hash, share: string)
    requires Tidy(rows) && Holds(rows, store) && i < |rows| && Fillable(rows, i, tpk)
    ensures rows[i].hiot in store
    ensures SharesHold(rows[i := rows[i].(htpk := tpk, shar := share)], PutShare(store, rows[i].hiot, tpk, share))
  {
    hide HasRow, HasTopicRow, OtherRow, Tidy;
    RowSlotIsSlot(rows, store, i);
    OverwrittenTidy(rows, i, tpk, share);
    var iot, r := rows[i].hiot, rows[i := rows[i].(htpk := tpk, shar := share)];
    var s := PutShare(store, iot, tpk, share);
    forall j | 0 <= j < |r| && r[j].used && r[j].hiot in s && r[j].htpk in s[r[j].hiot].shares
      ensures r[j].shar == s[r[j].hiot].shares[r[j].htpk]
    {
      if j != i {
        RowSlotIsSlot(rows, store, j);
        DifferentTopics(r, i, j);
      }
    }
  }

  lemma DifferentTopics(rows: seq<Row>, i: nat, j: nat)
    requires Tidy(rows) && i < |rows| && j < |rows| && i != j && rows[i].used && rows[j].used
    ensures rows[i].hiot == rows[j].hiot ==> rows[i].htpk != rows[j].htpk
  {
    assert i < j || j < i;
  }

  lemma OverwrittenHolds(rows: seq<Row>, store: Store, i: nat, tpk: Hash, share: string)
    requires Tidy(rows) && Holds(rows, store) && i < |rows| && Fillable(rows, i, tpk)
    ensures rows[i].hiot in store
    ensures Holds(rows[i := rows[i].(htpk := tpk, shar := share)], PutShare(store, rows[i].hiot, tpk, share))
  {
    hide HasRow, HasTopicRow, Tidy, Fillable, TopicsHold, SharesHold;
    OverwrittenTopics(rows, store, i, tpk, share);
    OverwrittenShares(rows, store, i, tpk, share);
    IsUsed(rows, i, tpk);
    OverwrittenFinds(rows, i, tpk, share);
  }

  lemma IsUsed(rows: seq<Row>, i: nat, tpk: Hash)
    requires i < |rows| && Fillable(rows, i, tpk)
    ensures rows[i].used
  {
  }

  // ----- the database -----

  class Table {
    const db: array<Row>
    /** The map that the rows stand for; HoldsOne shows that there is only one. */
    ghost var store: Store

    ghost predicate Valid()
      reads this, db
    {
      Tidy(db[..]) && Holds(db[..], store)
    }

    /** `Initdb`: all rows are zero, as global memory is. */
    constructor (size: nat)
      ensures Valid() && fresh(db) && db.Length == size && store == map[]
    {
      db := new Row[size](_ => Row(ZERO, ZERO, [], "", false));
      store := map[];
    }

    ghost predicate Room()
      reads this
    {
      |Slots(store)| < db.Length
    }

    lemma RowFacts(i: nat)
      requires Valid() && i < db.Length && db[i].used
      ensures db[i].hiot in store && db[i].msymk == store[db[i].hiot].key
      ensures db[i].htpk in store[db[i].hiot].shares && db[i].shar == store[db[i].hiot].shares[db[i].htpk]
    {
      hide Tidy;
      assert db[..][i] == db[i];
      RowSlotIsSlot(db[..], store, i);
    }

    lemma DeviceFacts(iot: Hash)
      requires Valid()
      ensures iot in store <==> exists i :: 0 <= i < db.Length && db[i].used && db[i].hiot == iot
      ensures iot in store ==> forall t :: t in store[iot].shares ==>
        exists i :: 0 <= i < db.Length && db[i].used && db[i].hiot == iot && db[i].htpk == t
    {
      hide Tidy;
      assert iot in store <==> HasRow(db[..], iot);
      if iot in store {
        forall t | t in store[iot].shares
          ensures exists i :: 0 <= i < db.Length && db[i].used && db[i].hiot == iot && db[i].htpk == t
        {
          assert HasTopicRow(db[..], iot, t);
        }
      }
    }

    lemma UnusedIsZero(i: nat)
      requires Valid() && i < db.Length && !db[i].used
      ensures db[i].hiot == ZERO && db[i].htpk == ZERO && db[i].shar == ""
    {
      hide Holds;
      assert db[..][i] == db[i];
    }

    lemma FreeRows()
      requires Valid()
      ensures Room() <==> exists i :: 0 <= i < db.Length && !db[i].used
    {
      hide *;
      if i :| 0 <= i < db.Length && !db[i].used {
        UsedFirst(i);
      } else {
        RoomFacts(db.Length);
      }
    }

    /** The used rows come first, and there is room exactly if there are others. */
    lemma RoomFacts(i: nat)
      requires Valid() && i <= db.Length && (i < db.Length ==> !db[i].used) && forall j :: 0 <= j < i ==> db[j].used
      ensures i < db.Length <==> Room()
    {
      hide Tidy, Holds, Used, Slots;
      RowsInUse(db[..], store);
      if i < db.Length {
        UsedPrefix(db[..], i);
      } else {
        AllUsed(db[..]);
      }
    }

    lemma UsedFirst(i: nat)
      requires Valid() && i < db.Length && !db[i].used
      ensures Room() && forall j :: i <= j < db.Length ==> !db[j].used
    {
      hide Holds, Slots, Used;
      RowsInUse(db[..], store);
      UsedPrefix(db[..], i);
      assert db[..][i] == db[i];
      forall j | i <= j < db.Length ensures !db[j].used {
        assert db[..][j] == db[j];
      }
    }

    /** `GetShare` looks at all rows, used or not: two hashes of zeros match a free row. */
    method GetShare(iot: Hash, tpk: Hash) returns (share: Option<string>)
      requires Valid()
      ensures share ==
        if iot in store && tpk in store[iot].shares then Some(store[iot].shares[tpk])
        else if iot == ZERO && tpk == ZERO && Room() then Some("")
        else None
    {
      hide *;
      DeviceFacts(iot);
      var i := 0;
      while i < db.Length
        invariant 0 <= i <= db.Length
        invariant forall j :: 0 <= j < i ==> !(db[j].hiot == iot && db[j].htpk == tpk)
      {
        if iot == db[i].hiot && tpk == db[i].htpk {
          if db[i].used { RowFacts(i); } else { UnusedIsZero(i); UsedFirst(i); }
          return Some(db[i].shar);
        }
        i := i + 1;
      }
      NoFreeRow(iot, tpk);
      share := None;
    }

    lemma NoFreeRow(iot: Hash, tpk: Hash)
      requires Valid() && forall j :: 0 <= j < db.Length ==> !(db[j].hiot == iot && db[j].htpk == tpk)
      ensures !(iot == ZERO && tpk == ZERO && Room())
    {
      hide *;
      if iot == ZERO && tpk == ZERO {
        forall j | 0 <= j < db.Length ensures db[j].used {
          if !db[j].used { UnusedIsZero(j); }
        }
        RoomFacts(db.Length);
      }
    }

    /** `GetSymK`: -1 and an untouched buffer for an unknown device; but a device hash of zeros
        matches a free row. */
    method GetSymK(iot: Hash, buffer: Block) returns (row: int, symk: Block)
      requires Valid()
      ensures row == -1 <==> iot !in store && !(iot == ZERO && Room())
      ensures row != -1 ==> 0 <= row < db.Length && symk == db[row].msymk
      ensures symk == if iot in store then store[iot].key else if row == -1 then buffer else symk
    {
      hide *;
      DeviceFacts(iot);
      var i := 0;
      while i < db.Length
        invariant 0 <= i <= db.Length
        invariant forall j :: 0 <= j < i ==> db[j].hiot != iot
      {
        if iot == db[i].hiot {
          if db[i].used { RowFacts(i); } else { UnusedIsZero(i); UsedFirst(i); }
          return i, db[i].msymk;
        }
        i := i + 1;
      }
      NoFreeRow(iot, ZERO);
      return -1, buffer;
    }

    /** The search for a row that is not in use. */
    method FreeRow() returns (i: nat)
      requires Valid()
      ensures i <= db.Length && (i < db.Length <==> Room())
      ensures i < db.Length ==> !db[i].used
      ensures forall j :: 0 <= j < i ==> db[j].used
    {
      hide Tidy, Holds, Used, Slots;
      i := 0;
      while i < db.Length && db[i].used
        invariant 0 <= i <= db.Length
        invariant forall j :: 0 <= j < i ==> db[j].used
      {
        i := i + 1;
      }
      RoomFacts(i);
    }

    /** Writing the key into every row of one device: the first loop of `AddsymK`. */
    method Rekey(iot: Hash, symk: Block) returns (exist: bool)
      requires Valid()
      modifies this`store, db
      ensures Valid() && exist == (iot in old(store))
      ensures store == if exist then PutKey(old(store), iot, symk) else old(store)
      ensures forall i :: 0 <= i < db.Length ==>
        db[i] == if old(db[i].used) && old(db[i].hiot) == iot then old(db[i]).(msymk := symk) else old(db[i])
    {
      hide *;
      ghost var rows := db[..];
      ValidFacts();
      exist := false;
      var i := 0;
      while i < db.Length
        invariant 0 <= i <= db.Length == |rows| && store == old(store)
        invariant forall j :: i <= j < db.Length ==> db[j] == rows[j]
        invariant forall j :: 0 <= j < i ==>
          db[j] == if rows[j].used && rows[j].hiot == iot then rows[j].(msymk := symk) else rows[j]
        invariant exist <==> exists j :: 0 <= j < i && rows[j].used && rows[j].hiot == iot
      {
        if db[i].used && iot == db[i].hiot {
          db[i] := db[i].(msymk := symk);
          exist := true;
        }
        i := i + 1;
      }
      assert db[..] == Rekeyed(rows, iot, symk);
      if exist {
        store := PutKey(store, iot, symk);
      }
      RekeyedValid(rows, old(store), iot, symk, exist);
    }

    lemma RekeyedValid(rows: seq<Row>, before: Store, iot: Hash, symk: Block, exist: bool)
      requires Tidy(rows) && Holds(rows, before) && db[..] == Rekeyed(rows, iot, symk)
      requires exist <==> exists j :: 0 <= j < |rows| && rows[j].used && rows[j].hiot == iot
      requires store == if exist then PutKey(before, iot, symk) else before
      ensures Valid() && exist == (iot in before)
    {
      hide Tidy;
      assert iot in before <==> HasRow(rows, iot);
      if exist {
        RekeyedHolds(rows, before, iot, symk);
      } else {
        assert Rekeyed(rows, iot, symk) == rows;
      }
    }

    /** `AddsymK`: a known device gets the key in all its rows (and the answer is -1); an unknown
        one gets a row of its own, if a row is free. */
    method AddsymK(iot: Hash, symk: Block) returns (row: int)
      requires Valid()
      modifies this`store, db
      ensures Valid()
      ensures store == if iot in old(store) || old(Room()) then PutKey(old(store), iot, symk) else old(store)
      ensures row == -1 <==> iot in old(store) || !old(Room())
      ensures row != -1 ==> 0 <= row < db.Length && db[row] == Row(iot, ZERO, symk, "", true)
      ensures iot in old(store) ==> forall i :: 0 <= i < db.Length ==>
        db[i] == if old(db[i].used) && old(db[i].hiot) == iot then old(db[i]).(msymk := symk) else old(db[i])
      ensures old(Room()) <==> exists i :: 0 <= i < db.Length && !old(db[i].used)
      ensures row == -1 && iot !in old(store) ==> store == old(store)
      ensures row != -1 || iot in old(store) ==> OnlyDevice(old(store), store, iot, symk,
        if iot in old(store) then old(store)[iot].shares else map[ZERO := ""])
    {
      hide *;
      FreeRows();
      PutKeyIs(store, iot, symk);
      var exist := Rekey(iot, symk);
      if exist {
        return -1;
      }
      var i := FreeRow();
      if i == db.Length {
        return -1;
      }
      UnusedIsZero(i);
      ghost var rows := db[..];
      ValidFacts();
      db[i] := Row(iot, db[i].htpk, symk, db[i].shar, true);
      store := PutKey(store, iot, symk);
      AddedDevice(rows, old(store), i, db[i]);
      row := i;
    }

    lemma AddedDevice(rows: seq<Row>, before: Store, i: nat, row: Row)
      requires Tidy(rows) && Holds(rows, before)
      requires i < |rows| && !rows[i].used && forall j :: 0 <= j < i ==> rows[j].used
      requires row.used && row.htpk == ZERO && row.shar == "" && row.hiot !in before
      requires db[..] == rows[i := row] && store == PutKey(before, row.hiot, row.msymk)
      ensures Valid()
    {
      hide Tidy, Holds;
      forall j | 0 <= j < i ensures rows[j].hiot != row.hiot {
        RowSlotIsSlot(rows, before, j);
      }
      NewRowTidy(rows, i, row);
      NewDeviceHolds(rows, before, i, row);
    }

    /** `Hastopic`. */
    method HasTopic(id: nat) returns (b: bool)
      requires id < db.Length
      ensures b == (db[id].htpk != ZERO)
    {
      b := db[id].htpk != ZERO;
    }

    /** `AddRow`, for a device that has this key already, a topic it does not have, and no row
        without topic. */
    method AddRow(iot: Hash, symk: Block, tpk: Hash, share: string) returns (row: int)
      requires Valid() && iot in store && store[iot].key == symk
      requires tpk !in store[iot].shares && ZERO !in store[iot].shares
      modifies this`store, db
      ensures Valid() && (row == -1 <==> !old(Room()))
      ensures store == if old(Room()) then PutShare(old(store), iot, tpk, share) else old(store)
      ensures row != -1 ==> 0 <= row < db.Length && db[row] == Row(iot, tpk, symk, share, true)
    {
      hide *;
      var i := FreeRow();
      if i == db.Length {
        return -1;
      }
      ghost var rows := db[..];
      ValidFacts();
      db[i] := Row(iot, tpk, symk, share, true);
      store := PutShare(store, iot, tpk, share);
      AddedTopic(rows, old(store), i, db[i]);
      row := i;
    }

    lemma AddedTopic(rows: seq<Row>, before: Store, i: nat, row: Row)
      requires Tidy(rows) && Holds(rows, before)
      requires i < |rows| && !rows[i].used && forall j :: 0 <= j < i ==> rows[j].used
      requires row.used && row.hiot in before && row.msymk == before[row.hiot].key
      requires row.htpk !in before[row.hiot].shares && ZERO !in before[row.hiot].shares
      requires db[..] == rows[i := row] && store == PutShare(before, row.hiot, row.htpk, row.shar)
      ensures Valid()
    {
      hide Tidy, Holds;
      forall j | 0 <= j < i && rows[j].hiot == row.hiot
        ensures rows[j].msymk == row.msymk && rows[j].htpk != row.htpk && rows[j].htpk != ZERO
      {
        RowShares(rows, before, j);
      }
      NewRowTidy(rows, i, row);
      NewTopicHolds(rows, before, i, row);
    }

    /** Overwriting topic and share of one row, in the two cases in which `Addshare` does. */
    method Overwrite(i: nat, tpk: Hash, share: string)
      requires Valid() && i < db.Length && Fillable(db[..], i, tpk)
      modifies this`store, db
      ensures Valid() && old(db[i].hiot) in old(store)
      ensures store == PutShare(old(store), old(db[i].hiot), tpk, share)
      ensures db[i] == old(db[i]).(htpk := tpk, shar := share)
    {
      hide *;
      ghost var rows := db[..];
      ValidFacts();
      OverwrittenTidy(rows, i, tpk, share);
      OverwrittenHolds(rows, store, i, tpk, share);
      db[i] := db[i].(htpk := tpk, shar := share);
      store := PutShare(store, db[i].hiot, tpk, share);
      assert db[..] == rows[i := db[i]];
      FactsAreValid();
    }

    /** A row without topic is the last of its device. */
    lemma IsFillable(i: nat, tpk: Hash)
      requires Valid() && i < db.Length && db[i].used && (db[i].htpk == ZERO || db[i].htpk == tpk)
      requires forall j :: 0 <= j < i && db[j].used && db[j].hiot == db[i].hiot ==> db[j].htpk != tpk
      ensures Fillable(db[..], i, tpk)
    {
      hide Holds;
      var rows := db[..];
      if rows[i].htpk != tpk {
        forall j | 0 <= j < |rows| && rows[j].used && rows[j].hiot == rows[i].hiot ensures rows[j].htpk != tpk {
          assert rows[j] == db[j] && rows[i] == db[i];
        }
      }
    }

    lemma ValidFacts()
      requires Valid()
      ensures Tidy(db[..]) && Holds(db[..], store)
    {
    }

    lemma FactsAreValid()
      requires Tidy(db[..]) && Holds(db[..], store)
      ensures Valid()
    {
    }

    /** `Addshare`: an error for an unknown device; otherwise the share of the topic is replaced,
        the device's row without topic is filled, or a row is added, if one is free. */
    method Addshare(iot: Hash, tpk: Hash, share: string) returns (row: int)
      requires Valid()
      modifies this`store, db
      ensures Valid()
      ensures row == -1 <==>
        || iot !in old(store)
        || (tpk !in old(store)[iot].shares && ZERO !in old(store)[iot].shares && !old(Room()))
      ensures store == if row == -1 then old(store) else PutShare(old(store), iot, tpk, share)
      ensures row != -1 ==> 0 <= row < db.Length && db[row] == Row(iot, tpk, store[iot].key, share, true)
      ensures row != -1 ==>
        && iot in store && iot in old(store)
        && OnlyDevice(old(store), store, iot, old(store)[iot].key, store[iot].shares)
        && ShareWritten(old(store)[iot].shares, store[iot].shares, tpk, share)
    {
      hide *;
      if iot in store { PutShareIs(store, iot, tpk, share); }
      var index := -1;
      var i := 0;
      DeviceFacts(iot);
      while i < db.Length
        invariant 0 <= i <= db.Length && Valid() && store == old(store) && db[..] == old(db[..])
        invariant -1 <= index < i
        invariant index == -1 ==> forall j :: 0 <= j < i ==> !(db[j].used && db[j].hiot == iot)
        invariant index >= 0 ==> db[index].used && db[index].hiot == iot
        invariant forall j :: 0 <= j < i && db[j].used && db[j].hiot == iot ==> db[j].htpk != tpk && db[j].htpk != ZERO
      {
        if db[i].used && iot == db[i].hiot {
          index := i;
          RowFacts(i);
          var topic := HasTopic(index);
          if !topic || tpk == db[i].htpk {
            IsFillable(i, tpk);
            Overwrite(i, tpk, share);
            RowFacts(i);
            return i;
          }
        }
        i := i + 1;
      }
      if index == -1 {
        return -1;
      }
      RowFacts(index);
      row := AddRow(iot, db[index].msymk, tpk, share);
      if row != -1 { RowFacts(row); }
    }
  }

  lemma RowShares(rows: seq<Row>, store: Store, j: nat)
    requires Tidy(rows) && Holds(rows, store) && j < |rows| && rows[j].used
    ensures rows[j].hiot in store && rows[j].msymk == store[rows[j].hiot].key
    ensures rows[j].htpk in store[rows[j].hiot].shares
  {
    hide Tidy;
    UsedIsRow(rows, j);
    RowIsTopicRow(rows, j);
  }
}
