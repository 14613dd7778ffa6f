/** The table of KeyNote sessions: hash buckets of doubly linked chains, changed in place by
    `kn_init` and `kn_close`. */
module SessionTable {

  const MAX_ID := 0x7FFF_FFFF

  /** The links and the id of `struct keynote_session`; `stamp` tells the order of insertion. */
  class Session {
    var id: int
    var next: Session?
    var prev: Session?
    ghost var stamp: int

    constructor ()
      ensures next == null && prev == null && id == 0
    {
      id, next, prev := 0, null, null;
    }

    ghost function AsNode(): Node
      reads this
    {
      Node(id, next, prev, stamp)
    }
  }

  // ----- the chains as a value -----

  datatype Node = Node(id: int, next: Session?, prev: Session?, stamp: int)

  type Heap = map<Session, Node>

  function Bucket(id: int, size: nat): (h: nat)
    requires size > 0
    ensures h < size
  {
    id % size
  }

  lemma BucketIs(id: int, size: nat)
    requires size > 0
    ensures Bucket(id, size) == id % size
  {
  }

  /** The remainder of a negative number is negative in C, and an index only if it is 0. */
  ghost predicate InTable(id: int, size: nat) {
    size > 0 && (id >= 0 || Bucket(id, size) == 0)
  }

  /** `next` and `prev` are inverse to each other, stay in the bucket, and lead from newer to
      older sessions. */
  ghost predicate LinkedAt(m: Heap, size: nat, s: Session)
    requires size > 0
  {
    s in m ==>
      && (m[s].next != null ==>
           && m[s].next in m && m[m[s].next].prev == s
           && Bucket(m[m[s].next].id, size) == Bucket(m[s].id, size) && m[m[s].next].stamp < m[s].stamp)
      && (m[s].prev != null ==> m[s].prev in m && m[m[s].prev].next == s)
  }

  /** A bucket's head is its newest session, and the one without predecessor. */
  ghost predicate BelowHead(m: Heap, heads: seq<Session?>, s: Session)
    requires |heads| > 0
  {
    s in m ==>
      var head := heads[Bucket(m[s].id, |heads|)];
      head != null && head in m && m[s].stamp <= m[head].stamp && (m[s].prev == null ==> head == s)
  }

  ghost predicate HeadAt(m: Heap, heads: seq<Session?>, h: nat)
    requires |heads| > 0
  {
    h < |heads| && heads[h] != null ==>
      heads[h] in m && Bucket(m[heads[h]].id, |heads|) == h && m[heads[h]].prev == null
  }

  /** `next` is the next older session of the bucket: so a chain runs through all of it. */
  ghost predicate SortedAt(m: Heap, size: nat, s: Session, t: Session)
    requires size > 0
  {
    s in m && t in m && s != t ==>
      && m[s].id != m[t].id
      && (Bucket(m[s].id, size) == Bucket(m[t].id, size) ==>
           && m[s].stamp != m[t].stamp
           && (m[t].stamp < m[s].stamp ==> m[s].next != null && m[s].next in m && m[t].stamp <= m[m[s].next].stamp))
  }

  ghost predicate WellFormed(m: Heap, heads: seq<Session?>, clock: int) {
    && |heads| > 0
    && (forall s {:trigger LinkedAt(m, |heads|, s)} :: s in m ==> LinkedAt(m, |heads|, s))
    && (forall s {:trigger BelowHead(m, heads, s)} :: s in m ==> BelowHead(m, heads, s))
    && (forall h: nat {:trigger HeadAt(m, heads, h)} :: HeadAt(m, heads, h))
    && (forall s, t {:trigger SortedAt(m, |heads|, s, t)} :: s in m && t in m ==> SortedAt(m, |heads|, s, t))
    && (forall s {:trigger m[s].id} :: s in m ==> 0 <= m[s].id <= MAX_ID && m[s].stamp < clock)
  }

  // ----- inserting -----

  /** A new head in front of the old one. */
  ghost function Inserted(m: Heap, head: Session?, ks: Session, id: int, clock: int): Heap
    requires head != null ==> head in m
  {
    (if head == null then m else m[head := m[head].(prev := ks)])[ks := Node(id, head, null, clock)]
  }

  lemma InsertedAt(m: Heap, heads: seq<Session?>, ks: Session, id: int, clock: int, s: Session, t: Session)
    requires WellFormed(m, heads, clock) && ks !in m && 0 <= id <= MAX_ID
    requires forall s {:trigger m[s].id} :: s in m ==> m[s].id != id
    ensures var h := Bucket(id, |heads|);
      (heads[h] != null ==> heads[h] in m) &&
      var m' := Inserted(m, heads[h], ks, id, clock);
      && LinkedAt(m', |heads|, s) && SortedAt(m', |heads|, s, t)
      && BelowHead(m', heads[h := ks], s)
  {
    hide Bucket;
    var h := Bucket(id, |heads|);
    assert HeadAt(m, heads, h);
    assert LinkedAt(m, |heads|, s) && SortedAt(m, |heads|, s, t) && BelowHead(m, heads, s);
    assert BelowHead(m, heads, t);
    if heads[h] != null {
      assert LinkedAt(m, |heads|, heads[h]);
    }
  }

  lemma InsertedHeadAt(m: Heap, heads: seq<Session?>, ks: Session, id: int, clock: int, g: nat)
    requires WellFormed(m, heads, clock) && ks !in m
    ensures var h := Bucket(id, |heads|);
      (heads[h] != null ==> heads[h] in m) && HeadAt(Inserted(m, heads[h], ks, id, clock), heads[h := ks], g)
  {
    hide Bucket;
    assert HeadAt(m, heads, Bucket(id, |heads|)) && HeadAt(m, heads, g);
  }

  lemma InsertedWellFormed(m: Heap, heads: seq<Session?>, ks: Session, id: int, clock: int)
    requires WellFormed(m, heads, clock) && ks !in m && 0 <= id <= MAX_ID
    requires forall s {:trigger m[s].id} :: s in m ==> m[s].id != id
    ensures var h := Bucket(id, |heads|);
      (heads[h] != null ==> heads[h] in m)
        && WellFormed(Inserted(m, heads[h], ks, id, clock), heads[h := ks], clock + 1)
  {
    hide Bucket, LinkedAt, BelowHead, SortedAt;
    var h := Bucket(id, |heads|);
    assert HeadAt(m, heads, h);
    var m', heads' := Inserted(m, heads[h], ks, id, clock), heads[h := ks];
    forall s, t | s in m' && t in m'
      ensures LinkedAt(m', |heads'|, s) && SortedAt(m', |heads'|, s, t) && BelowHead(m', heads', s)
    {
      InsertedAt(m, heads, ks, id, clock, s, t);
    }
    forall g: nat ensures HeadAt(m', heads', g) {
      InsertedHeadAt(m, heads, ks, id, clock, g);
    }
  }

  // ----- unlinking -----

  ghost function Removed(m: Heap, ks: Session): Heap
    requires ks in m && (m[ks].next != null ==> m[ks].next in m) && (m[ks].prev != null ==> m[ks].prev in m)
  {
    var m1 := if m[ks].prev == null then m else m[m[ks].prev := m[m[ks].prev].(next := m[ks].next)];
    var m2 := if m[ks].next == null then m1 else m1[m[ks].next := m1[m[ks].next].(prev := m[ks].prev)];
    m2 - {ks}
  }

  ghost function RemovedHeads(m: Heap, heads: seq<Session?>, ks: Session): (r: seq<Session?>)
    requires |heads| > 0 && ks in m
    ensures |r| == |heads|
  {
    if m[ks].prev == null then heads[Bucket(m[ks].id, |heads|) := m[ks].next] else heads
  }

  lemma RemovedAt(m: Heap, heads: seq<Session?>, ks: Session, clock: int, s: Session, t: Session)
    requires WellFormed(m, heads, clock) && ks in m
    ensures (m[ks].next != null ==> m[ks].next in m) && (m[ks].prev != null ==> m[ks].prev in m)
    ensures LinkedAt(Removed(m, ks), |heads|, s) && SortedAt(Removed(m, ks), |heads|, s, t)
  {
    hide Bucket;
    assert LinkedAt(m, |heads|, ks) && LinkedAt(m, |heads|, s);
    if m[ks].next != null { assert LinkedAt(m, |heads|, m[ks].next); }
    if m[ks].prev != null { assert LinkedAt(m, |heads|, m[ks].prev); }
    assert SortedAt(m, |heads|, s, t) && SortedAt(m, |heads|, ks, t) && SortedAt(m, |heads|, s, ks);
  }

  lemma RemovedHeadAt(m: Heap, heads: seq<Session?>, ks: Session, clock: int, s: Session, g: nat)
    requires WellFormed(m, heads, clock) && ks in m
    ensures (m[ks].next != null ==> m[ks].next in m) && (m[ks].prev != null ==> m[ks].prev in m)
    ensures BelowHead(Removed(m, ks), RemovedHeads(m, heads, ks), s)
    ensures HeadAt(Removed(m, ks), RemovedHeads(m, heads, ks), g)
  {
    hide Bucket;
    assert LinkedAt(m, |heads|, ks);
    assert BelowHead(m, heads, s) && BelowHead(m, heads, ks) && HeadAt(m, heads, g);
    assert SortedAt(m, |heads|, ks, s) && LinkedAt(m, |heads|, s);
    if s in m { assert HeadAt(m, heads, Bucket(m[s].id, |heads|)); }
    if m[ks].next != null { assert LinkedAt(m, |heads|, m[ks].next); }
    if m[ks].prev != null { assert LinkedAt(m, |heads|, m[ks].prev); }
  }

  lemma RemovedWellFormed(m: Heap, heads: seq<Session?>, ks: Session, clock: int)
    requires WellFormed(m, heads, clock) && ks in m
    ensures (m[ks].next != null ==> m[ks].next in m) && (m[ks].prev != null ==> m[ks].prev in m)
    ensures WellFormed(Removed(m, ks), RemovedHeads(m, heads, ks), clock)
  {
    hide Bucket, BelowHead, SortedAt, HeadAt;
    assert LinkedAt(m, |heads|, ks);
    var m', heads' := Removed(m, ks), RemovedHeads(m, heads, ks);
    forall s, t | s in m' && t in m' ensures LinkedAt(m', |heads'|, s) && SortedAt(m', |heads'|, s, t) {
      RemovedAt(m, heads, ks, clock, s, t);
    }
    forall s | s in m' ensures BelowHead(m', heads', s) {
      RemovedHeadAt(m, heads, ks, clock, s, 0);
    }
    forall g: nat ensures HeadAt(m', heads', g) {
      RemovedHeadAt(m, heads, ks, clock, ks, g);
    }
  }

  // ----- the table -----

  /** A 32-bit counter after `counter++`. */
  function Incremented(x: int): int {
    if x == MAX_ID then -MAX_ID - 1 else x + 1
  }

  /** One round of the search for an id: a negative counter starts again at 0. */
  function NextId(x: int): int {
    if Incremented(x) < 0 then 0 else Incremented(x)
  }

  // ----- the ids in use, as a value -----

  /** How far the id `x` is from `from`, counting upward and around. */
  function Distance(from: int, x: int): int {
    if x >= from then x - from else x - from + MAX_ID + 1
  }

  datatype Register = Register(open: set<int>, counter: int)

  /** What a call of `kn_init` returned, or a call of `kn_close` was given. */
  datatype Call = Opened(id: int) | Closed(id: int)

  /** The id that `kn_init` gives out: the first one from the counter on, and around, that is not
      open. With a negative counter it would read outside the table. */
  ghost predicate GivesOut(r: Register, id: int) {
    && r.counter >= 0 && 0 <= id <= MAX_ID && id !in r.open
    && (forall x :: 0 <= x <= MAX_ID && Distance(r.counter, x) < Distance(r.counter, id) ==> x in r.open)
  }

  lemma GivenIsFirst(r: Register)
    ensures forall id :: GivesOut(r, id) ==>
      && 0 <= id <= 0x7FFF_FFFF && id !in r.open
      && (forall x :: r.counter <= x < id ==> x in r.open)
      && (id < r.counter ==> forall x :: r.counter <= x <= 0x7FFF_FFFF || 0 <= x < id ==> x in r.open)
  {
  }

  function AfterCall(r: Register, c: Call): Register {
    match c
    case Opened(id) => Register(r.open + {id}, Incremented(id))
    case Closed(id) => Register(r.open - {id}, r.counter)
  }

  /** The register after a run of calls. */
  function After(calls: seq<Call>): Register {
    if calls == [] then Register({}, 0) else AfterCall(After(calls[..|calls| - 1]), calls[|calls| - 1])
  }

  ghost predicate IsRun(calls: seq<Call>) {
    calls != [] ==>
      var before, last := calls[..|calls| - 1], calls[|calls| - 1];
      IsRun(before) && (last.Opened? ==> GivesOut(After(before), last.id))
  }

  /** The counter stays usable exactly in the runs that have not given out the largest id. */
  lemma {:induction false} CounterStays(calls: seq<Call>)
    requires IsRun(calls)
    ensures After(calls).counter <= MAX_ID && forall x :: x in After(calls).open ==> 0 <= x <= MAX_ID
    ensures After(calls).counter >= 0 <==> Opened(MAX_ID) !in calls
  {
    if calls != [] {
      var before, last := calls[..|calls| - 1], calls[|calls| - 1];
      CounterStays(before);
      assert calls == before + [last];
    }
  }

  lemma RunStep(calls: seq<Call>, c: Call)
    requires IsRun(calls) && (c.Opened? ==> GivesOut(After(calls), c.id))
    ensures IsRun(calls + [c]) && After(calls + [c]) == AfterCall(After(calls), c)
  {
    assert (calls + [c])[..|calls|] == calls;
  }

  /** Opening and closing one session `n` times. */
  lemma {:induction false} OpenAndClose(n: nat) returns (calls: seq<Call>)
    requires n <= MAX_ID
    ensures IsRun(calls) && After(calls) == Register({}, n)
  {
    calls := [];
    if n > 0 {
      calls := OpenAndClose(n - 1);
      RunStep(calls, Opened(n - 1));
      calls := calls + [Opened(n - 1)];
      RunStep(calls, Closed(n - 1));
      calls := calls + [Closed(n - 1)];
    }
  }

  /** A run after which no call of `kn_init` is defined, although no session is open. */
  lemma CounterRunsOut() returns (calls: seq<Call>)
    ensures IsRun(calls) && After(calls) == Register({}, -MAX_ID - 1)
    ensures forall id :: !GivesOut(After(calls), id)
  {
    calls := OpenAndClose(MAX_ID);
    RunStep(calls, Opened(MAX_ID));
    calls := calls + [Opened(MAX_ID)];
    RunStep(calls, Closed(MAX_ID));
    calls := calls + [Closed(MAX_ID)];
  }

  class Sessions {
    const buckets: array<Session?>
    var counter: int
    var current: Session?
    /** The open sessions, and the stamp of the next one. */
    ghost var all: set<Session>
    ghost var clock: int

    ghost function Links(): (m: Heap)
      reads this`all, all
      ensures m.Keys == all
      ensures forall s :: s in all ==> m[s] == s.AsNode()
    {
      map s | s in all :: s.AsNode()
    }

    ghost predicate Valid()
      reads this, buckets, all
    {
      && WellFormed(Links(), buckets[..], clock)
      && (current == null || current in all) && counter <= MAX_ID
    }

    /** The ids of the open sessions. */
    ghost function Open(): set<int>
      reads this`all, all`id
    {
      set s | s in all :: s.id
    }

    ghost function AsRegister(): Register
      reads this`all, this`counter, all`id
    {
      Register(Open(), counter)
    }

    constructor (size: nat)
      requires size > 0
      ensures Valid() && all == {} && AsRegister() == After([]) && current == null && buckets.Length == size
      ensures fresh(buckets)
    {
      buckets := new Session?[size](_ => null);
      counter, current, all, clock := 0, null, {}, 0;
    }

    lemma ScanFacts(ks: Session, sessid: int)
      requires Valid() && ks in all
      ensures buckets.Length > 0
      ensures ks.next != null ==>
        && ks.next in all && ks.next.stamp < ks.stamp
        && Bucket(ks.next.id, buckets.Length) == Bucket(ks.id, buckets.Length)
      ensures ks.id != sessid && Bucket(ks.id, buckets.Length) == Bucket(sessid, buckets.Length) ==>
        forall s :: s in all && s.id == sessid && s.stamp <= ks.stamp ==> ks.next != null && s.stamp <= ks.next.stamp
    {
      hide Bucket;
      var m := Links();
      assert LinkedAt(m, buckets.Length, ks);
      forall s | s in all ensures SortedAt(m, buckets.Length, ks, s) {
      }
    }

    lemma ScanStart(sessid: int)
      requires Valid()
      ensures buckets.Length > 0
      ensures var head := buckets[Bucket(sessid, buckets.Length)];
        && (head != null ==> head in all && Bucket(head.id, buckets.Length) == Bucket(sessid, buckets.Length))
        && forall s :: s in all && s.id == sessid ==> head != null && s.stamp <= head.stamp
    {
      hide Bucket;
      var m := Links();
      assert HeadAt(m, buckets[..], Bucket(sessid, buckets.Length));
      forall s | s in all ensures BelowHead(m, buckets[..], s) {
      }
    }

    /** `keynote_find_session`: a session is found exactly if its id is open. */
    method FindSession(sessid: int) returns (ks: Session?)
      requires Valid() && InTable(sessid, buckets.Length)
      ensures ks != null <==> sessid in Open()
      ensures ks != null ==> ks in all && ks.id == sessid
    {
      hide Bucket, WellFormed, Valid;
      ScanStart(sessid);
      ghost var h := Bucket(sessid, buckets.Length);
      ks := buckets[Bucket(sessid, buckets.Length)];
      while ks != null
        invariant ks != null ==> ks in all && Bucket(ks.id, buckets.Length) == h
        invariant forall s :: s in all && s.id == sessid ==> ks != null && s.stamp <= ks.stamp
        decreases if ks == null then {} else set s | s in all && s.stamp <= ks.stamp
      {
        if ks.id == sessid {
          return;
        }
        ScanFacts(ks, sessid);
        ghost var seen := ks;
        ks := ks.next;
        assert seen in all;
      }
    }

    /** `keynote_add_session`: a new session goes to the front of its bucket. */
    method AddSession(ks: Session)
      requires Valid() && 0 <= ks.id <= MAX_ID && ks.id !in Open() && ks !in all && ks.prev == null
      modifies this`all, this`clock, buckets, ks`next, ks`stamp, all`prev
      ensures Valid() && all == old(all) + {ks} && Open() == old(Open()) + {ks.id}
      ensures buckets.Length > 0 && buckets[..] == old(buckets[..])[ks.id % buckets.Length := ks]
      ensures ks.next == old(buckets[ks.id % buckets.Length])
    {
      hide Bucket, WellFormed;
      ghost var m, heads := Links(), buckets[..];
      InsertedWellFormed(m, heads, ks, ks.id, clock);
      SizePositive();
      BucketIs(ks.id, buckets.Length);
      Link(ks);
      assert WellFormed(Links(), buckets[..], clock + 1);
      clock := clock + 1;
    }

    /** The pointers of a new head. */
    method Link(ks: Session)
      requires buckets.Length > 0 && ks !in all && ks.prev == null
      requires var head := buckets[Bucket(ks.id, buckets.Length)]; head != null ==> head in all
      modifies this`all, buckets, ks`next, ks`stamp, all`prev
      ensures all == old(all) + {ks} && ks.next == old(buckets[Bucket(ks.id, buckets.Length)])
      ensures buckets[..] == old(buckets[..])[Bucket(ks.id, buckets.Length) := ks]
      ensures Links() == Inserted(old(Links()), old(buckets[Bucket(ks.id, buckets.Length)]), ks, ks.id, clock)
    {
      hide Bucket;
      ghost var m, h := Links(), Bucket(ks.id, buckets.Length);
      ks.next := buckets[Bucket(ks.id, buckets.Length)];
      if ks.next != null {
        ks.next.prev := ks;
      }
      buckets[Bucket(ks.id, buckets.Length)] := ks;
      ks.stamp := clock;
      all := all + {ks};
      assert Links() == Inserted(m, old(buckets[h]), ks, ks.id, clock);
    }

    lemma SizePositive()
      requires Valid()
      ensures buckets.Length > 0
    {
    }

    lemma LinkFacts(ks: Session)
      requires Valid() && ks in all
      ensures buckets.Length > 0
      ensures ks.next != null ==> ks.next in all && ks.next.prev == ks
      ensures ks.prev != null ==> ks.prev in all && ks.prev.next == ks
      ensures ks.next != null && ks.prev != null ==> ks.next != ks.prev
      ensures forall s :: s in all && s.id == ks.id ==> s == ks
    {
      hide Bucket;
      var m := Links();
      assert LinkedAt(m, buckets.Length, ks);
      if ks.next != null { assert LinkedAt(m, buckets.Length, ks.next); }
      if ks.prev != null { assert LinkedAt(m, buckets.Length, ks.prev); }
      forall s | s in all ensures SortedAt(m, buckets.Length, ks, s) {
      }
    }

    /** The end of `kn_close`: unlinking the current session. */
    method Unlink(ks: Session)
      requires Valid() && ks in all
      modifies this`all, this`current, buckets, all`next, all`prev
      ensures Valid() && all == old(all) - {ks} && current == null && Open() == old(Open()) - {ks.id}
    {
      hide Bucket, WellFormed, Valid;
      LinkFacts(ks);
      Detach(ks);
      forall x ensures x in Open() <==> x in old(Open()) && x != ks.id {
        if x in old(Open()) && x != ks.id {
          var s :| s in old(all) && old(s.id) == x;
          assert s in all && s.id == x;
        }
      }
    }

    method Detach(ks: Session)
      requires Valid() && ks in all
      modifies this`all, this`current, buckets, all`next, all`prev
      ensures Valid() && all == old(all) - {ks} && current == null
    {
      hide Bucket, WellFormed;
      LinkFacts(ks);
      ghost var m, heads := Links(), buckets[..];
      RemovedWellFormed(m, heads, ks, clock);
      if ks.prev == null {
        buckets[Bucket(ks.id, buckets.Length)] := ks.next;
        if ks.next != null {
          ks.next.prev := null;
        }
      } else {
        ks.prev.next := ks.next;
        if ks.next != null {
          ks.next.prev := ks.prev;
        }
      }
      all := all - {ks};
      assert Links() == Removed(m, ks);
      assert buckets[..] == RemovedHeads(m, heads, ks);
      current := null;
      assert Links() == Removed(m, ks);
      assert WellFormed(Links(), buckets[..], clock);
    }

    // ----- opening and closing -----

    /** The search of `kn_init` for an id that is not in use: it ends if not all ids are. */
    method FindFreeId()
      requires Valid() && counter >= 0 && |Open()| <= MAX_ID
      modifies this`counter
      ensures Valid() && GivesOut(old(AsRegister()), counter)
    {
      hide Valid, WellFormed, Bucket, Open;
      CounterBound();
      SizePositive();
      ghost var start, tried, k := counter, {}, 0;
      assert Distance(start, counter) == k by { DistanceStart(start); }
      var ks := FindSession(counter);
      while ks != null
        invariant Valid() && 0 <= counter <= MAX_ID && (ks != null <==> counter in Open())
        invariant k == |tried| && Distance(start, counter) == k && tried <= Open()
        invariant forall x :: x in tried <==> 0 <= x <= MAX_ID && Distance(start, x) < k
        decreases |Open()| - k
      {
        SubsetSize(tried + {counter}, Open());
        tried := tried + {counter};
        k := k + 1;
        DistanceStep(start, counter);
        Advance();
        ks := FindSession(counter);
      }
    }

    lemma CounterBound()
      requires Valid()
      ensures counter <= MAX_ID
    {
    }

    static lemma DistanceStart(start: int)
      ensures Distance(start, start) == 0
    {
    }

    static lemma DistanceStep(start: int, x: int)
      requires 0 <= start <= MAX_ID && 0 <= x <= MAX_ID && Distance(start, x) < MAX_ID
      ensures 0 <= NextId(x) <= MAX_ID && Distance(start, NextId(x)) == Distance(start, x) + 1
    {
    }

    method Advance()
      requires Valid() && 0 <= counter <= MAX_ID
      modifies this`counter
      ensures Valid() && counter == NextId(old(counter))
    {
      hide WellFormed, Bucket;
      counter := NextId(counter);
    }

    /** `ks_id = sessioncounter++`. */
    method TakeId() returns (id: int)
      requires Valid() && counter >= 0 && |Open()| <= MAX_ID
      modifies this`counter
      ensures Valid() && GivesOut(old(AsRegister()), id) && counter == Incremented(id)
    {
      hide WellFormed, Bucket, GivesOut, Open;
      FindFreeId();
      id := counter;
      counter := Incremented(counter);
    }

    method SetCurrent(ks: Session)
      requires Valid() && ks in all
      modifies this`current
      ensures Valid() && current == ks
    {
      hide WellFormed, Bucket;
      current := ks;
    }

    static lemma SubsetSize(a: set<int>, b: set<int>)
      requires a <= b
      ensures |a| <= |b|
    {
      assert b == a + (b - a);
    }

    /** `kn_init`: the first free id from the counter on is open now. */
    method Init() returns (id: int)
      requires Valid() && counter >= 0 && |Open()| <= MAX_ID
      modifies this, buckets, all
      ensures Valid() && GivesOut(old(AsRegister()), id) && AsRegister() == AfterCall(old(AsRegister()), Opened(id))
      ensures 0 <= id <= 0x7FFF_FFFF && id !in old(Open()) && Open() == old(Open()) + {id}
      ensures forall x :: old(counter) <= x < id ==> x in old(Open())
      ensures id < old(counter) ==> forall x :: old(counter) <= x <= 0x7FFF_FFFF || 0 <= x < id ==> x in old(Open())
      ensures counter == if id == 0x7FFF_FFFF then -0x8000_0000 else id + 1
      ensures current != null && current.id == id && fresh(current) && all == old(all) + {current}
    {
      hide Valid, WellFormed, Bucket, Open;
      var ks := new Session();
      GivenIsFirst(AsRegister());
      id := TakeId();
      ks.id := id;
      AddSession(ks);
      SetCurrent(ks);
    }

    /** The beginning of every call on a session: it becomes the current one, or there is none. */
    method MakeCurrent(sessid: int)
      requires Valid() && InTable(sessid, buckets.Length)
      modifies this`current
      ensures Valid() && (current != null <==> sessid in Open()) && (current != null ==> current.id == sessid)
    {
      hide WellFormed, Bucket;
      if current == null || current.id != sessid {
        current := FindSession(sessid);
      }
    }

    /** `kn_close`: an error for an id that is not open, otherwise the id is not open any more. */
    method Close(sessid: int) returns (r: int)
      requires Valid() && InTable(sessid, buckets.Length)
      modifies this, buckets, all
      ensures Valid() && current == null && AsRegister() == AfterCall(old(AsRegister()), Closed(sessid))
      ensures r == if sessid in old(Open()) then 0 else -1
      ensures Open() == old(Open()) - {sessid} && counter == old(counter)
    {
      hide WellFormed, Bucket;
      MakeCurrent(sessid);
      if current == null {
        return -1;
      }
      LinkFacts(current);
      Unlink(current);
      r := 0;
    }

    // ----- the chain of a bucket -----

    lemma NextOlder(ks: Session)
      requires Valid() && ks in all
      ensures buckets.Length > 0
      ensures ks.next != null ==>
        && ks.next in all && ks.next.stamp < ks.stamp && ks.next.prev == ks
        && Bucket(ks.next.id, buckets.Length) == Bucket(ks.id, buckets.Length)
      ensures forall s ::
        (s in all && s != ks && Bucket(s.id, buckets.Length) == Bucket(ks.id, buckets.Length) && s.stamp <= ks.stamp)
          ==> ks.next != null && s.stamp <= ks.next.stamp
    {
      hide Bucket;
      var m := Links();
      assert LinkedAt(m, buckets.Length, ks);
      forall s | s in all ensures SortedAt(m, buckets.Length, ks, s) {
      }
    }

    lemma NewestFirst(h: nat)
      requires Valid() && h < buckets.Length
      ensures buckets[h] != null ==>
        buckets[h] in all && Bucket(buckets[h].id, buckets.Length) == h && buckets[h].prev == null
      ensures forall s :: s in all && Bucket(s.id, buckets.Length) == h ==>
        buckets[h] != null && s.stamp <= buckets[h].stamp
    {
      hide Bucket;
      var m := Links();
      assert HeadAt(m, buckets[..], h);
      forall s | s in all ensures BelowHead(m, buckets[..], s) {
      }
    }

    /** Every bucket is a doubly linked chain of exactly the open sessions whose ids belong there. */
    lemma BucketIsChain(h: nat) returns (chain: seq<Session>)
      requires Valid() && h < buckets.Length
      ensures buckets[h] == if chain == [] then null else chain[0]
      ensures forall i :: 0 <= i < |chain| ==> chain[i] in all && Bucket(chain[i].id, buckets.Length) == h
      ensures forall i :: 0 < i < |chain| ==> chain[i - 1].next == chain[i] && chain[i].prev == chain[i - 1]
      ensures chain != [] ==> chain[0].prev == null && chain[|chain| - 1].next == null
      ensures forall s :: s in all && Bucket(s.id, buckets.Length) == h ==> s in chain
    {
      hide Bucket, Valid, WellFormed;
      chain := [];
      NewestFirst(h);
      var ks := buckets[h];
      while ks != null
        invariant ks != null ==> ks in all && Bucket(ks.id, buckets.Length) == h
        invariant ks != null ==> ks.prev == if chain == [] then null else chain[|chain| - 1]
        invariant
          if chain == [] then ks == buckets[h]
          else chain[0] == buckets[h] && chain[|chain| - 1].next == ks && chain[0].prev == null
        invariant forall i :: 0 <= i < |chain| ==> chain[i] in all && Bucket(chain[i].id, buckets.Length) == h
        invariant forall i :: 0 < i < |chain| ==> chain[i - 1].next == chain[i] && chain[i].prev == chain[i - 1]
        invariant forall s :: s in all && Bucket(s.id, buckets.Length) == h && s !in chain ==>
          ks != null && s.stamp <= ks.stamp
        decreases if ks == null then {} else set s | s in all && s.stamp <= ks.stamp
      {
        NextOlder(ks);
        assert ks in (set s | s in all && s.stamp <= ks.stamp);
        chain := chain + [ks];
        ks := ks.next;
      }
    }
  }
}
