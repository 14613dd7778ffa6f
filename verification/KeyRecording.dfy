/** The key list of an assertion: the names of its Licensees field, decoded, the last one first. */
module KeyRecording {
  import opened Options
  import opened Licensees
  import opened TrustGraph

  predicate AllDecode(names: seq<string>, decode: string -> Option<Key>) {
    forall i :: 0 <= i < |names| ==> decode(names[i]).Some?
  }

  /** The key list after recording the names one by one in front of `list`. */
  ghost function Recording(names: seq<string>, decode: string -> Option<Key>, list: seq<KeyEntry>): seq<KeyEntry>
    requires AllDecode(names, decode)
  {
    if names == [] then list
    else
      var last := |names| - 1;
      [KeyEntry(names[last], decode(names[last]).value)] + Recording(names[..last], decode, list)
  }

  lemma AllDecodeConcat(first: seq<string>, second: seq<string>, decode: string -> Option<Key>)
    ensures AllDecode(first + second, decode) == (AllDecode(first, decode) && AllDecode(second, decode))
  {
    if AllDecode(first + second, decode) {
      forall i | 0 <= i < |first| ensures decode(first[i]).Some? {
        assert (first + second)[i] == first[i];
      }
      forall i | 0 <= i < |second| ensures decode(second[i]).Some? {
        assert (first + second)[|first| + i] == second[i];
      }
    }
  }

  lemma {:induction false} RecordingConcat(first: seq<string>, second: seq<string>, decode: string -> Option<Key>,
      list: seq<KeyEntry>)
    ensures AllDecode(first + second, decode) == (AllDecode(first, decode) && AllDecode(second, decode))
    ensures AllDecode(first + second, decode) ==>
      Recording(first + second, decode, list) == Recording(second, decode, Recording(first, decode, list))
  {
    AllDecodeConcat(first, second, decode);
    if second == [] {
      assert first + second == first;
    } else if AllDecode(first + second, decode) {
      var n := |second| - 1;
      assert (first + second)[..|first| + n] == first + second[..n];
      RecordingConcat(first, second[..n], decode, list);
    }
  }

  /** Entry by entry: the last name stands first, in front of what there was. */
  lemma {:induction false} RecordingAt(names: seq<string>, decode: string -> Option<Key>, list: seq<KeyEntry>)
    requires AllDecode(names, decode)
    ensures var r := Recording(names, decode, list);
      && |r| == |names| + |list| && r[|names|..] == list
      && forall i :: 0 <= i < |names| ==>
           var name := names[|names| - 1 - i];
           r[i].name == name && decode(name) == Some(r[i].key)
  {
    if names != [] {
      RecordingAt(names[..|names| - 1], decode, list);
    }
  }

  /** Names are read from left to right. */
  lemma NamesInOrder(e: Expr)
    requires e.And? || e.Or?
    ensures Names(e.left) <= Names(e) && Names(e)[|Names(e.left)|..] == Names(e.right)
  {
  }

  /** The recording pass collects every key: each recorded name is found, with its own key. */
  lemma {:induction false} RecordingFinds(names: seq<string>, decode: string -> Option<Key>, list: seq<KeyEntry>)
    requires AllDecode(names, decode)
    ensures forall s :: s in names ==> Lookup(Recording(names, decode, list), s) == decode(s) && decode(s).Some?
  {
    if names != [] {
      var n := |names| - 1;
      RecordingFinds(names[..n], decode, list);
      assert names == names[..n] + [names[n]];
      var rest := Recording(names[..n], decode, list);
      assert ([KeyEntry(names[n], decode(names[n]).value)] + rest)[1..] == rest;
    }
  }

  /** The Licensees field parses and its names decode. */
  predicate Recordable(f: Field, decode: string -> Option<Key>) {
    f.Given? ==> WellFormed(f.expr) && AllDecode(Names(f.expr), decode)
  }

  /** The key list answers for every principal of the field. */
  ghost predicate Answers(keylist: seq<KeyEntry>, f: Field, decode: string -> Option<Key>) {
    f.Given? ==> forall s :: s in Names(f.expr) ==> Lookup(keylist, s) == decode(s) && decode(s).Some?
  }

  /** The key list after recording the field; on an error the list stays. */
  ghost function KeysRead(f: Field, keylist: seq<KeyEntry>, decode: string -> Option<Key>): seq<KeyEntry> {
    match f
    case Missing => keylist
    case Empty => []
    case Given(e) => if Recordable(f, decode) then Recording(Names(e), decode, []) else keylist
  }

  lemma KeysReadAnswer(f: Field, keylist: seq<KeyEntry>, decode: string -> Option<Key>)
    requires Recordable(f, decode)
    ensures Answers(KeysRead(f, keylist, decode), f, decode)
  {
    if f.Given? {
      RecordingFinds(Names(f.expr), decode, []);
    }
  }

  // ----- graphs whose key lists come from their fields -----

  /** The lexer has no `0-of`. */
  predicate PositiveCounts(e: Expr) {
    match e
    case Principal(_) => true
    case And(l, r) => PositiveCounts(l) && PositiveCounts(r)
    case Or(l, r) => PositiveCounts(l) && PositiveCounts(r)
    case KOf(k, _) => k >= 1
  }

  /** Every key list is the one that reading the Licensees field of a new assertion records: no keys
      without a field or from an empty or ill-formed one, otherwise exactly the names of the field. */
  ghost predicate FromFields(g: Graph, decode: string -> Option<Key>) {
    forall a :: 0 <= a < |g.nodes| ==>
      && g.nodes[a].keylist == KeysRead(g.nodes[a].licensees, [], decode)
      && (g.nodes[a].licensees.Given? ==> PositiveCounts(g.nodes[a].licensees.expr))
  }

  /** The names whose keys are recorded for a new assertion. */
  ghost function RecordedNames(f: Field, decode: string -> Option<Key>): (r: seq<string>)
    ensures AllDecode(r, decode) && KeysRead(f, [], decode) == Recording(r, decode, [])
  {
    if f.Given? && Recordable(f, decode) then Names(f.expr) else []
  }
}
