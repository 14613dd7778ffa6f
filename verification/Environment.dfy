/** The action environment of a session: a hash table in which a new assignment shadows the old
    ones until it is deleted. Plain variables only. */
module Environment {
  import opened Options

  datatype Binding = Binding(name: string, value: string)

  /** The values of a name, the newest first. */
  function Values(chain: seq<Binding>, name: string): seq<string> {
    if chain == [] then []
    else (if chain[0].name == name then [chain[0].value] else []) + Values(chain[1..], name)
  }

  lemma WithoutLater(chain: seq<Binding>, i: nat)
    requires 0 < i < |chain|
    ensures (chain[..i] + chain[i + 1..])[1..] == chain[1..][..i - 1] + chain[1..][i..]
    ensures (chain[..i] + chain[i + 1..])[0] == chain[0]
  {
    assert chain[1..][i..] == chain[i + 1..];
    assert chain[..i][1..] == chain[1..][..i - 1];
  }

  lemma {:induction false} ValuesAt(chain: seq<Binding>, i: nat, name: string)
    requires i < |chain| && chain[i].name == name && forall k :: 0 <= k < i ==> chain[k].name != name
    ensures Values(chain, name) != [] && Values(chain, name)[0] == chain[i].value
    ensures Values(chain[..i] + chain[i + 1..], name) == Values(chain, name)[1..]
  {
    if i > 0 {
      ValuesAt(chain[1..], i - 1, name);
      WithoutLater(chain, i);
    } else {
      assert chain[..0] + chain[1..] == chain[1..];
    }
  }

  lemma {:induction false} OtherValues(chain: seq<Binding>, i: nat, name: string)
    requires i < |chain| && chain[i].name != name
    ensures Values(chain[..i] + chain[i + 1..], name) == Values(chain, name)
  {
    if i > 0 {
      OtherValues(chain[1..], i - 1, name);
      WithoutLater(chain, i);
    } else {
      assert chain[..0] + chain[1..] == chain[1..];
    }
  }

  lemma {:induction false} NoValues(chain: seq<Binding>, name: string)
    requires forall k :: 0 <= k < |chain| ==> chain[k].name != name
    ensures Values(chain, name) == []
  {
    if chain != [] {
      NoValues(chain[1..], name);
    }
  }

  class Table {
    const hash: string -> nat
    const table: array<seq<Binding>>

    constructor (size: nat, hash: string -> nat)
      requires forall s :: hash(s) < size
      ensures Valid() && fresh(table) && this.hash == hash && forall name :: Stack(name) == []
    {
      this.hash := hash;
      table := new seq<Binding>[size](_ => []);
    }

    ghost predicate Valid()
      reads this, table
    {
      forall s :: hash(s) < table.Length
    }

    /** All values a name has, the newest first. */
    ghost function Stack(name: string): seq<string>
      reads this, table
      requires Valid()
    {
      Values(table[hash(name)], name)
    }

    /** `keynote_env_lookup`: the newest value. */
    method Lookup(name: string) returns (value: Option<string>)
      requires Valid()
      ensures value == if Stack(name) == [] then None else Some(Stack(name)[0])
    {
      var chain, i := table[hash(name)], 0;
      while i < |chain|
        invariant 0 <= i <= |chain| && forall k :: 0 <= k < i ==> chain[k].name != name
      {
        if chain[i].name == name {
          ValuesAt(chain, i, name);
          return Some(chain[i].value);
        }
        i := i + 1;
      }
      NoValues(chain, name);
      value := None;
    }

    /** `keynote_env_add`: a new value in front of the old ones. */
    method Add(name: string, value: string)
      requires Valid()
      modifies table
      ensures Valid() && Stack(name) == [value] + old(Stack(name))
      ensures forall other :: other != name ==> Stack(other) == old(Stack(other))
    {
      var before := table[hash(name)];
      table[hash(name)] := [Binding(name, value)] + before;
      assert ([Binding(name, value)] + before)[1..] == before;
    }

    /** `keynote_env_delete`: the newest value goes, and what it shadowed is back. */
    method Delete(name: string) returns (found: bool)
      requires Valid()
      modifies table
      ensures Valid() && found == (old(Stack(name)) != [])
      ensures Stack(name) == if found then old(Stack(name))[1..] else []
      ensures forall other :: other != name ==> Stack(other) == old(Stack(other))
    {
      var chain, i := table[hash(name)], 0;
      while i < |chain|
        invariant 0 <= i <= |chain| && forall k :: 0 <= k < i ==> chain[k].name != name
        invariant table[..] == old(table[..])
      {
        if chain[i].name == name {
          ValuesAt(chain, i, name);
          forall other | other != name
            ensures Values(chain[..i] + chain[i + 1..], other) == Values(chain, other)
          {
            OtherValues(chain, i, other);
          }
          table[hash(name)] := chain[..i] + chain[i + 1..];
          return true;
        }
        i := i + 1;
      }
      NoValues(chain, name);
      found := false;
    }
  }
}
