/** The publisher's other sharing mode: n - 1 random keys, and their exclusive or with the session
    key as the last share. */
module KeySplitting {

  function Xor(a: bv8, b: bv8): bv8 {
    a ^ b
  }

  lemma XorLaws(a: bv8, b: bv8, c: bv8)
    ensures Xor(Xor(a, b), c) == Xor(a, Xor(b, c))
    ensures Xor(a, b) == Xor(b, a) && Xor(a, a) == 0 && Xor(a, 0) == a && Xor(0, a) == a
  {
  }

  function XorOf(col: seq<bv8>): bv8 {
    if col == [] then 0 else Xor(XorOf(col[..|col| - 1]), col[|col| - 1])
  }

  lemma {:induction false} XorConcat(a: seq<bv8>, b: seq<bv8>)
    ensures XorOf(a + b) == Xor(XorOf(a), XorOf(b))
    decreases |b|
  {
    hide Xor;
    if b == [] {
      assert a + b == a;
      XorLaws(XorOf(a), 0, 0);
    } else {
      var n := |b| - 1;
      assert (a + b)[..|a| + n] == a + b[..n];
      XorConcat(a, b[..n]);
      XorLaws(XorOf(a), XorOf(b[..n]), b[n]);
    }
  }

  function Missing(a: bv8, b: bv8, key: bv8): bv8 {
    Xor(Xor(key, a), b)
  }

  lemma XorFour(a: bv8, v: bv8, b: bv8)
    ensures Xor(Xor(Xor(Xor(a, v), b), a), b) == v
  {
  }

  lemma XorBack(a: bv8, b: bv8, key: bv8)
    ensures Xor(Xor(a, Xor(Xor(key, a), b)), b) == key
  {
  }

  lemma XorSolve(a: bv8, v: bv8, b: bv8, key: bv8)
    ensures Xor(Xor(a, v), b) == key <==> v == Missing(a, b, key)
  {
    hide Xor;
    XorFour(a, v, b);
    XorBack(a, b, key);
  }

  lemma SingleXor(v: bv8)
    ensures XorOf([v]) == v
  {
    hide Xor;
    assert [v][..0] == [];
    XorLaws(v, 0, 0);
  }

  lemma XorOfTwo(a: bv8, b: bv8)
    ensures XorOf([a, b]) == a ^ b
  {
    assert [a, b][..1] == [a];
    SingleXor(a);
  }

  /** Whichever share is missing, the others leave the key open: for every key there is exactly
      one missing share that goes with it. */
  lemma MissingShareFixesNothing(before: seq<bv8>, v: bv8, after: seq<bv8>, key: bv8)
    ensures XorOf(before + [v] + after) == key <==> v == Missing(XorOf(before), XorOf(after), key)
  {
    hide XorOf, Missing, Xor;
    XorConcat(before + [v], after);
    XorConcat(before, [v]);
    SingleXor(v);
    XorSolve(XorOf(before), v, XorOf(after), key);
  }

  function Column(shares: array2<bv8>, j: nat, n: nat): (c: seq<bv8>)
    requires n <= shares.Length0 && j < shares.Length1
    reads shares
    ensures |c| == n && forall i :: 0 <= i < n ==> c[i] == shares[i, j]
  {
    if n == 0 then [] else Column(shares, j, n - 1) + [shares[n - 1, j]]
  }

  /** `secmqtt_key_split`: the shares of every byte give back the byte. */
  method SecmqttKeySplit(shares: array2<bv8>, sessionKey: seq<bv8>, random: seq<seq<bv8>>)
    requires shares.Length0 >= 1 && shares.Length1 == |sessionKey| && |random| == shares.Length0 - 1
    requires forall i :: 0 <= i < |random| ==> |random[i]| == |sessionKey|
    modifies shares
    ensures forall i, j :: 0 <= i < |random| && 0 <= j < |sessionKey| ==> shares[i, j] == random[i][j]
    ensures forall j :: 0 <= j < |sessionKey| ==> XorOf(Column(shares, j, shares.Length0)) == sessionKey[j]
  {
    var last := shares.Length0 - 1;
    var i := 0;
    while i < last
      invariant 0 <= i <= last
      invariant forall k, j :: 0 <= k < i && 0 <= j < |sessionKey| ==> shares[k, j] == random[k][j]
    {
      FillRow(shares, i, random[i]);
      i := i + 1;
    }
    var j := 0;
    while j < |sessionKey|
      invariant 0 <= j <= |sessionKey|
      invariant forall k, l :: 0 <= k < last && 0 <= l < |sessionKey| ==> shares[k, l] == random[k][l]
      invariant forall l :: 0 <= l < j ==> XorOf(Column(shares, l, shares.Length0)) == sessionKey[l]
    {
      ghost var columns := seq(j, l requires 0 <= l < j reads shares => Column(shares, l, shares.Length0));
      LastShare(shares, j, sessionKey[j]);
      forall l | 0 <= l < j ensures XorOf(Column(shares, l, shares.Length0)) == sessionKey[l] {
        assert columns[l] == Column(shares, l, shares.Length0);
      }
      j := j + 1;
    }
  }

  method FillRow(shares: array2<bv8>, i: nat, row: seq<bv8>)
    requires i < shares.Length0 && |row| == shares.Length1
    modifies shares
    ensures forall j :: 0 <= j < |row| ==> shares[i, j] == row[j]
    ensures forall k, j :: 0 <= k < shares.Length0 && k != i && 0 <= j < shares.Length1 ==>
      shares[k, j] == old(shares[k, j])
  {
    var j := 0;
    while j < |row|
      invariant 0 <= j <= |row|
      invariant forall l :: 0 <= l < j ==> shares[i, l] == row[l]
      invariant forall k, l :: 0 <= k < shares.Length0 && k != i && 0 <= l < shares.Length1 ==>
        shares[k, l] == old(shares[k, l])
    {
      shares[i, j] := row[j];
      j := j + 1;
    }
  }

  /** The inner loop: the last share of byte `j`. */
  method LastShare(shares: array2<bv8>, j: nat, key: bv8)
    requires shares.Length0 >= 1 && j < shares.Length1
    modifies shares
    ensures XorOf(Column(shares, j, shares.Length0)) == key
    ensures forall k, l :: 0 <= k < shares.Length0 && 0 <= l < shares.Length1 && (k != shares.Length0 - 1 || l != j) ==>
      shares[k, l] == old(shares[k, l])
  {
    hide XorOf, Xor;
    var last := shares.Length0 - 1;
    ghost var others := Column(shares, j, last);
    shares[last, j] := key;
    XorNothing(others, key);
    var i := 0;
    while i < last
      invariant 0 <= i <= last
      invariant shares[last, j] == Xor(key, XorOf(others[..i]))
      invariant forall k, l :: 0 <= k <= last && 0 <= l < shares.Length1 && (k != last || l != j) ==>
        shares[k, l] == old(shares[k, l])
    {
      XorNext(others, i, key);
      IsXor(shares[last, j], shares[i, j]);
      shares[last, j] := shares[last, j] ^ shares[i, j];
      i := i + 1;
    }
    assert others[..last] == others;
    assert Column(shares, j, last) == others;
    XorLast(others, key);
  }

  lemma IsXor(a: bv8, b: bv8)
    ensures a ^ b == Xor(a, b)
  {
  }

  lemma XorNothing(col: seq<bv8>, key: bv8)
    ensures Xor(key, XorOf(col[..0])) == key
  {
    XorLaws(key, 0, 0);
  }

  lemma XorNext(col: seq<bv8>, i: nat, key: bv8)
    requires i < |col|
    ensures Xor(key, XorOf(col[..i + 1])) == Xor(Xor(key, XorOf(col[..i])), col[i])
  {
    hide Xor;
    assert col[..i + 1][..i] == col[..i];
    XorLaws(key, XorOf(col[..i]), col[i]);
  }

  lemma XorLast(col: seq<bv8>, key: bv8)
    ensures XorOf(col + [Xor(key, XorOf(col))]) == key
  {
    hide XorOf, Xor;
    XorConcat(col, [Xor(key, XorOf(col))]);
    SingleXor(Xor(key, XorOf(col)));
    XorAround(XorOf(col), key);
  }

  lemma XorAround(x: bv8, key: bv8)
    ensures Xor(x, Xor(key, x)) == key
  {
  }
}
