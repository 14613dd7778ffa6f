/** `keynote_keyhash`: the bucket of a key, and why it can index keys up to `Matches`. */
module KeyHashing {
  import opened TrustGraph

  /** A `char` widened to an unsigned 32-bit number; it is signed. */
  function Widened(c: char): bv32 {
    var x := c as int % 256;
    if x < 128 then x as bv32 else 0xFFFF_FF00 + x as bv32
  }

  /** Four times the value and the character; what stands from the twelfth bit on is folded in, unless
      the lowest fourteen bits are zero. */
  function Mixed(h: bv32, w: bv32): bv32 {
    var x := (h << 2) + w;
    var i := x & 0x3FFF;
    if i != 0 then (x ^ (i >> 12)) & 0x3FFF else x
  }

  function HashStep(h: bv32, c: char): bv32 {
    Mixed(h, Widened(c))
  }

  function StringHashValue(name: string): bv32 {
    if name == "" then 0 else HashStep(StringHashValue(name[..|name| - 1]), name[|name| - 1])
  }

  lemma WidenedIs(c: char)
    requires c as int < 256
    ensures Widened(c) == if c as int < 128 then (c as int) as bv32 else 0xFFFF_FF00 + (c as int) as bv32
  {
  }

  /** The hashes of three texts, one with a character that is negative. */
  lemma HashExamples()
    ensures StringHashValue("") == 0 && StringHashValue("ABC") == 1371 && StringHashValue([200 as char]) == 16331
  {
    hide HashStep, StringHashValue;
    LastCharacter("", 'A');
    LastCharacter("A", 'B');
    LastCharacter("AB", 'C');
    LastCharacter("", 200 as char);
    assert "" + ['A'] == "A" && "A" + ['B'] == "AB" && "AB" + ['C'] == "ABC" && "" + [200 as char] == [200 as char];
    HashSteps();
    NegativeStep();
  }

  lemma LastCharacter(name: string, c: char)
    ensures StringHashValue("") == 0 && StringHashValue(name + [c]) == HashStep(StringHashValue(name), c)
  {
    assert (name + [c])[..|name|] == name;
  }

  lemma HashSteps()
    ensures HashStep(0, 'A') == 65 && HashStep(65, 'B') == 326 && HashStep(326, 'C') == 1371
  {
    hide Mixed, Widened;
    WidenedIs('A');
    WidenedIs('B');
    WidenedIs('C');
    MixedExamples();
  }

  lemma NegativeStep()
    ensures HashStep(0, 200 as char) == 16331
  {
    hide Mixed, Widened;
    WidenedIs(200 as char);
    MixedExamples();
  }

  lemma MixedExamples()
    ensures Mixed(0, 65) == 65 && Mixed(65, 66) == 326 && Mixed(326, 67) == 1371
    ensures Mixed(0, 0xFFFF_FF00 + 200) == 16331
  {
  }

  /** The loop of `keynote_stringhash`. */
  method HashLoop(name: string) returns (value: bv32)
    ensures value == StringHashValue(name)
  {
    hide HashStep, Widened;
    value := 0;
    var k := 0;
    while k < |name|
      invariant 0 <= k <= |name| && value == StringHashValue(name[..k])
    {
      assert name[..k + 1][..k] == name[..k];
      value := MixIn(value, name[k]);
      k := k + 1;
    }
    assert name[..|name|] == name;
  }

  method MixIn(h: bv32, c: char) returns (value: bv32)
    ensures value == HashStep(h, c)
  {
    hide Widened;
    value := (h << 2) + Widened(c);
    var i := value & 0x3FFF;
    if i != 0 {
      value := (value ^ (i >> 12)) & 0x3FFF;
    }
  }

  /** `keynote_stringhash`. */
  method StringHash(name: string, size: nat) returns (h: nat)
    ensures h == if size <= 1 then 0 else (StringHashValue(name) as int) % size
  {
    hide StringHashValue;
    if size == 0 || size == 1 {
      return 0;
    }
    var value := HashLoop(name);
    h := (value as int) % size;
  }

  function Total(numbers: seq<nat>): nat {
    if numbers == [] then 0 else Total(numbers[..|numbers| - 1]) + numbers[|numbers| - 1]
  }

  lemma {:induction false} TotalConcat(a: seq<nat>, b: seq<nat>)
    ensures Total(a + b) == Total(a) + Total(b)
    decreases |b|
  {
    if b == [] {
      assert a + b == a;
    } else {
      var n := |b| - 1;
      assert (a + b)[..|a| + n] == a + b[..n];
      TotalConcat(a, b[..n]);
    }
  }

  lemma TotalOne(n: nat)
    ensures Total([n]) == n
  {
    assert [n][..0] == [];
  }

  function Codes(s: string): (r: seq<nat>)
    ensures |r| == |s|
  {
    seq(|s|, i requires 0 <= i < |s| => s[i] as int % 256)
  }

  /** The bucket of a key. `numbers` gives the big numbers of an RSA or DSA key, as a function of
      its material. */
  function KeyHash(k: Key, numbers: string -> seq<nat>, size: nat): (h: nat)
    requires size > 0
    ensures h < size
  {
    match k.alg
    case Dsa => Total(numbers(k.material)) % size
    case Rsa => Total(numbers(k.material)) % size
    case X509 => Total(numbers(k.material)) % size
    case Binary => Total(Codes(k.material)) % size
    case Plain => if size == 1 then 0 else (StringHashValue(k.material) as int) % size
    case _ => 0
  }

  lemma TotalMod(numbers: seq<nat>, k: nat, res: nat, size: nat)
    requires size > 0 && k < |numbers| && res % size == Total(numbers[..k]) % size
    ensures (res + numbers[k]) % size == Total(numbers[..k + 1]) % size
    ensures (res + numbers[k] % size) % size == Total(numbers[..k + 1]) % size
  {
    hide Total;
    TotalStep(numbers, k);
    AddMod(res, Total(numbers[..k]), numbers[k], size);
    RemTwice(numbers[k], size);
    AddMod(numbers[k] % size, numbers[k], res, size);
  }

  lemma TotalStep(numbers: seq<nat>, k: nat)
    requires k < |numbers|
    ensures Total(numbers[..k + 1]) == Total(numbers[..k]) + numbers[k]
  {
    assert numbers[..k + 1][..k] == numbers[..k];
  }

  lemma RemTwice(x: nat, m: nat)
    requires m > 0
    ensures 0 <= x % m < m && x % m % m == x % m
  {
  }

  lemma ProductGrows(k: int, m: nat)
    requires k >= 1
    ensures k * m >= m
  {
    assert (k - 1) * m >= 0;
  }

  lemma DivisionUnique(q1: int, r1: int, q2: int, r2: int, m: nat)
    requires q1 * m + r1 == q2 * m + r2 && 0 <= r1 < m && 0 <= r2 < m
    ensures r1 == r2
  {
    if q1 < q2 {
      assert (q2 - q1) * m == r1 - r2;
      ProductGrows(q2 - q1, m);
    } else if q2 < q1 {
      assert (q1 - q2) * m == r2 - r1;
      ProductGrows(q1 - q2, m);
    }
  }

  lemma AddMod(a: nat, b: nat, c: nat, m: nat)
    requires m > 0 && a % m == b % m
    ensures (a + c) % m == (b + c) % m
  {
    var q := a / m - b / m;
    assert a == a / m * m + a % m && b == b / m * m + b % m;
    assert a + c == q * m + (b + c);
    var x, y := a + c, b + c;
    assert x == x / m * m + x % m && y == y / m * m + y % m;
    assert (y / m + q) * m == y / m * m + q * m;
    DivisionUnique(x / m, x % m, y / m + q, y % m, m);
  }

  /** Big numbers are reduced one by one, and their sum at the end. */
  method SumNumbers(numbers: seq<nat>, size: nat) returns (h: nat)
    requires size > 0
    ensures h == Total(numbers) % size
  {
    hide Total;
    var res: nat, k := 0, 0;
    NothingTotal(numbers);
    while k < |numbers|
      invariant 0 <= k <= |numbers| && res % size == Total(numbers[..k]) % size
    {
      TotalMod(numbers, k, res, size);
      var word: nat := numbers[k] % size;
      res := res + word;
      k := k + 1;
    }
    assert numbers[..|numbers|] == numbers;
    h := res % size;
  }

  /** Bytes are reduced as they are added. */
  method SumBytes(bytes: seq<nat>, size: nat) returns (res: nat)
    requires size > 0
    ensures res == Total(bytes) % size
  {
    hide Total;
    var k := 0;
    res := 0;
    NothingTotal(bytes);
    SmallMod(0, size);
    while k < |bytes|
      invariant 0 <= k <= |bytes| && res < size && res % size == res == Total(bytes[..k]) % size
    {
      TotalMod(bytes, k, res, size);
      res := (res + bytes[k]) % size;
      SmallMod(res, size);
      k := k + 1;
    }
    assert bytes[..|bytes|] == bytes;
  }

  lemma NothingTotal(numbers: seq<nat>)
    ensures Total(numbers[..0]) == 0
  {
  }

  lemma SmallMod(x: nat, size: nat)
    requires x < size
    ensures x % size == x
  {
  }

  /** `keynote_keyhash`. */
  method KeynoteKeyhash(k: Key, numbers: string -> seq<nat>, size: nat) returns (h: nat)
    requires size > 0
    ensures h == KeyHash(k, numbers, size) < size
    ensures k.alg == Dsa || k.alg == Rsa || k.alg == X509 ==> h == Total(numbers(k.material)) % size
    ensures k.alg == Binary ==>
      h == Total(seq(|k.material|, i requires 0 <= i < |k.material| => k.material[i] as int % 256)) % size
    ensures k.alg == Plain && size > 1 ==> h == (StringHashValue(k.material) as int) % size
    ensures k.alg == Unspecified || k.alg == ElGamal || k.alg == Pgp || size == 1 ==> h == 0
  {
    assert Codes(k.material) == seq(|k.material|, i requires 0 <= i < |k.material| => k.material[i] as int % 256);
    match k.alg {
      case Dsa => h := SumNumbers(numbers(k.material), size);
      case Rsa => h := SumNumbers(numbers(k.material), size);
      case X509 => h := SumNumbers(numbers(k.material), size);
      case Binary => h := SumBytes(Codes(k.material), size);
      case Plain => h := StringHash(k.material, size);
      case _ => h := 0;
    }
  }

  /** The hash of a session with `size` buckets. */
  function Hasher(numbers: string -> seq<nat>, size: nat): Key -> nat
    requires size > 0
  {
    (k: Key) => KeyHash(k, numbers, size)
  }

  /** Keys that match hash alike, an RSA key and an X509 key with the same numbers included. */
  lemma KeyHashRespectsMatches(numbers: string -> seq<nat>, size: nat)
    requires size > 0
    ensures HashRespectsMatches(Hasher(numbers, size), size)
  {
    forall a, b | Matches(a, b) ensures KeyHash(a, numbers, size) == KeyHash(b, numbers, size) {
    }
  }
}
