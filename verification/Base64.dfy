/** KeyNote's base64 coder (section 5.2 of RFC 1521), with its target buffers. */
module Base64 {
  import opened Options
  import opened CStrings

  const PAD := '='

  /** The character for one digit: A to Z, a to z, 0 to 9, + and /. */
  function Symbol(d: bv8): char
    requires d < 64
  {
    var i := d as int;
    if i < 26 then (65 + i) as char
    else if i < 52 then (97 + i - 26) as char
    else if i < 62 then (48 + i - 52) as char
    else if i == 62 then '+' else '/'
  }

  lemma SymbolInjective(d: bv8, e: bv8)
    requires d < 64 && e < 64
    ensures Symbol(d) == Symbol(e) ==> d == e
    ensures Symbol(d) != PAD && !IsSpace(Symbol(d))
  {
    assert d as int == e as int ==> d == e;
  }

  /** The digits in order, from 0 to 63. */
  ghost const ALPHABET := "ABCDEFGHIJKLMNOPQRSTUVWXYZ" + "abcdefghijklmnopqrstuvwxyz" + "0123456789+/"

  lemma SymbolIs(d: bv8)
    requires d < 64
    ensures Symbol(d) == ALPHABET[d as int]
    ensures Symbol(d) == ("ABCDEFGHIJKLMNOPQRSTUVWXYZ" + "abcdefghijklmnopqrstuvwxyz" + "0123456789+/")[d as int]
  {
    var i := d as int;
    if i < 26 {
      UpperCase(i);
    } else if i < 52 {
      LowerCase(i - 26);
    } else {
      Others(i - 52);
    }
  }

  lemma UpperCase(i: nat)
    requires i < 26
    ensures "ABCDEFGHIJKLMNOPQRSTUVWXYZ"[i] as int == 65 + i
  {
  }

  lemma LowerCase(i: nat)
    requires i < 26
    ensures "abcdefghijklmnopqrstuvwxyz"[i] as int == 97 + i
  {
  }

  lemma Others(i: nat)
    requires i < 12
    ensures "0123456789+/"[i] == if i < 10 then (48 + i) as char else if i == 10 then '+' else '/'
  {
  }

  // ----- the encoding as a function -----

  function At(x: seq<bv8>, i: nat): bv8 {
    if i < |x| then x[i] else 0
  }

  /** The k-th group of six bits, with zero bits added on the right. */
  function DigitAt(x: seq<bv8>, k: nat): (d: bv8)
    ensures d < 64
  {
    var j := k / 4 * 3;
    if k % 4 == 0 then At(x, j) >> 2
    else if k % 4 == 1 then ((At(x, j) & 0x03) << 4) + (At(x, j + 1) >> 4)
    else if k % 4 == 2 then ((At(x, j + 1) & 0x0f) << 2) + (At(x, j + 2) >> 6)
    else At(x, j + 2) & 0x3f
  }

  /** How many digits, and how many characters with padding, n bytes take. */
  function Digits(n: nat): nat {
    n / 3 * 4 + if n % 3 == 0 then 0 else n % 3 + 1
  }

  function EncodedLength(n: nat): nat {
    (n + 2) / 3 * 4
  }

  function Encode(x: seq<bv8>): (s: string)
    ensures |s| == EncodedLength(|x|)
    ensures forall k :: 0 <= k < |s| ==> s[k] == if k < Digits(|x|) then Symbol(DigitAt(x, k)) else PAD
  {
    seq(EncodedLength(|x|), k requires 0 <= k < EncodedLength(|x|) =>
      if k < Digits(|x|) then Symbol(DigitAt(x, k)) else PAD)
  }

  /** The target size that the decoder needs for n bytes: it writes the rest of a last partial
      group one byte further. */
  function Room(n: nat): nat {
    if n % 3 == 0 then n else n + 1
  }

  /** The k-th six bits of the source as a number, the first bit being the most significant. Three
      bytes make four of them, and missing bytes are zero. */
  ghost function SixBits(x: seq<bv8>, k: nat): (n: nat)
    ensures n < 64
  {
    Six(Three(x, k / 4), k % 4)
  }

  ghost function Three(x: seq<bv8>, q: nat): nat {
    (Code(At(x, 3 * q)) * 256 + Code(At(x, 3 * q + 1))) * 256 + Code(At(x, 3 * q + 2))
  }

  /** A byte as a number. */
  ghost function Code(b: bv8): (n: nat)
    ensures n < 256
  {
    b as int
  }

  ghost function Six(three: nat, r: nat): (n: nat)
    ensures n < 64
  {
    if r == 0 then three / 262144 % 64
    else if r == 1 then three / 4096 % 64
    else if r == 2 then three / 64 % 64
    else three % 64
  }

  lemma HighBits(b: bv8)
    ensures Code(b >> 2) == Code(b) / 4 && Code(b >> 4) == Code(b) / 16 && Code(b >> 6) == Code(b) / 64
  {
  }

  lemma LowTwo(b: bv8)
    ensures Code(b & 0x03) == Code(b) % 4
  {
  }

  lemma LowFour(b: bv8)
    ensures Code(b & 0x0f) == Code(b) % 16
  {
  }

  lemma LowSix(b: bv8)
    ensures Code(b & 0x3f) == Code(b) % 64
  {
  }

  lemma Halves(a: bv8, b: bv8)
    ensures var d := ((a & 0x03) << 4) + (b >> 4); d >> 4 == a & 0x03 && d & 0x0f == b >> 4
    ensures var d := ((a & 0x0f) << 2) + (b >> 6); d >> 2 == a & 0x0f && d & 0x03 == b >> 6
  {
  }

  lemma TwoAndFour(a: bv8, b: bv8)
    ensures Code(((a & 0x03) << 4) + (b >> 4)) == Code(a) % 4 * 16 + Code(b) / 16
  {
    hide Code;
    var d := ((a & 0x03) << 4) + (b >> 4);
    Halves(a, b);
    HighBits(b);
    LowTwo(a);
    HighBits(d);
    LowFour(d);
  }

  lemma FourAndTwo(a: bv8, b: bv8)
    ensures Code(((a & 0x0f) << 2) + (b >> 6)) == Code(a) % 16 * 4 + Code(b) / 64
  {
    hide Code;
    var d := ((a & 0x0f) << 2) + (b >> 6);
    Halves(a, b);
    HighBits(b);
    LowFour(a);
    HighBits(d);
    LowTwo(d);
  }

  lemma SixOfBytes(b0: nat, b1: nat, b2: nat)
    requires b0 < 256 && b1 < 256 && b2 < 256
    ensures var three := (b0 * 256 + b1) * 256 + b2;
      && Six(three, 0) == b0 / 4 && Six(three, 1) == b0 % 4 * 16 + b1 / 16
      && Six(three, 2) == b1 % 16 * 4 + b2 / 64 && Six(three, 3) == b2 % 64
  {
    var three := (b0 * 256 + b1) * 256 + b2;
    Quotient(three, 262144, b0 / 4, b0 % 4 * 65536 + b1 * 256 + b2);
    Quotient(three, 4096, b0 * 16 + b1 / 16, b1 % 16 * 256 + b2);
    Quotient(b0 * 16 + b1 / 16, 64, b0 / 4, b0 % 4 * 16 + b1 / 16);
    Quotient(three, 64, b0 * 1024 + b1 * 4 + b2 / 64, b2 % 64);
    Quotient(b0 * 1024 + b1 * 4 + b2 / 64, 64, b0 * 16 + b1 / 16, b1 % 16 * 4 + b2 / 64);
  }

  lemma Quotient(n: nat, d: nat, q: nat, r: nat)
    requires d > 0 && n == q * d + r && r < d
    ensures n / d == q && n % d == r
  {
    var q' := n / d;
    assert n == q' * d + n % d;
    if q' < q {
      ProductGrows(q - q', d);
    } else if q < q' {
      ProductGrows(q' - q, d);
    }
  }

  lemma ProductGrows(k: int, d: nat)
    requires k >= 1
    ensures k * d >= d
  {
    assert (k - 1) * d >= 0;
  }

  lemma DigitIsSixBits(x: seq<bv8>, k: nat)
    ensures Code(DigitAt(x, k)) == SixBits(x, k)
  {
    hide At, DigitAt, Six, Code;
    var q := k / 4;
    assert k == 4 * q + k % 4;
    GroupDigits(x, q);
    GroupBits(At(x, 3 * q), At(x, 3 * q + 1), At(x, 3 * q + 2));
  }

  lemma GroupBits(a: bv8, b: bv8, c: bv8)
    ensures var three := (Code(a) * 256 + Code(b)) * 256 + Code(c);
      && Code(a >> 2) == Six(three, 0) && Code(((a & 0x03) << 4) + (b >> 4)) == Six(three, 1)
      && Code(((b & 0x0f) << 2) + (c >> 6)) == Six(three, 2) && Code(c & 0x3f) == Six(three, 3)
  {
    hide Six, Code;
    SixOfBytes(Code(a), Code(b), Code(c));
    HighBits(a);
    LowSix(c);
    TwoAndFour(a, b);
    FourAndTwo(b, c);
  }

  /** Character by character: the digit of each six bits that hold a bit of the source, then the
      padding to whole groups of four. */
  ghost predicate IsBase64(x: seq<bv8>, s: string) {
    && |s| == (|x| + 2) / 3 * 4
    && forall k :: 0 <= k < |s| ==>
         s[k] == if 6 * k < 8 * |x|
                 then ALPHABET[SixBits(x, k)]
                 else '='
  }

  lemma EncodeIsBase64(x: seq<bv8>)
    ensures IsBase64(x, Encode(x))
  {
    hide DigitAt, SixBits;
    forall k | 0 <= k < |Encode(x)|
      ensures Encode(x)[k] == if 6 * k < 8 * |x|
                              then ALPHABET[SixBits(x, k)]
                              else '='
    {
      DigitsHoldBits(|x|, k);
      SymbolIs(DigitAt(x, k));
      DigitIsSixBits(x, k);
    }
  }

  /** No other text is the encoding. */
  lemma OneBase64(s: string)
    ensures forall x: seq<bv8> {:trigger Encode(x)} {:trigger IsBase64(x, s)} :: IsBase64(x, s) <==> s == Encode(x)
  {
    hide Encode, SixBits;
    forall x: seq<bv8> ensures IsBase64(x, s) <==> s == Encode(x) {
      EncodeIsBase64(x);
      if IsBase64(x, s) {
        assert forall k :: 0 <= k < |s| ==> s[k] == Encode(x)[k];
      }
    }
  }

  lemma RoomIs()
    ensures forall n: nat :: Room(n) == if n % 3 == 0 then n else n + 1
  {
  }

  lemma DigitsHoldBits(n: nat, k: nat)
    ensures k < Digits(n) <==> 6 * k < 8 * n
  {
  }

  lemma Quad(b0: bv8, b1: bv8, b2: bv8)
    ensures var d0, d1, d2, d3 := b0 >> 2, ((b0 & 0x03) << 4) + (b1 >> 4), ((b1 & 0x0f) << 2) + (b2 >> 6), b2 & 0x3f;
      && d0 < 64 && d1 < 64 && d2 < 64 && d3 < 64
      && (d0 << 2) | (d1 >> 4) == b0 && ((d1 & 0x0f) << 4) | (d2 >> 2) == b1 && ((d2 & 0x03) << 6) | d3 == b2
  {
  }

  /** The bytes that whole and partial groups of digits spell. */
  function ByteAt(ds: seq<bv8>, k: nat): bv8 {
    var g := k / 3 * 4;
    if k % 3 == 0 then (At(ds, g) << 2) | (At(ds, g + 1) >> 4)
    else if k % 3 == 1 then ((At(ds, g + 1) & 0x0f) << 4) | (At(ds, g + 2) >> 2)
    else ((At(ds, g + 2) & 0x03) << 6) | At(ds, g + 3)
  }

  function DigitsOf(x: seq<bv8>): (ds: seq<bv8>)
    ensures |ds| == Digits(|x|) && forall k :: 0 <= k < |ds| ==> ds[k] == DigitAt(x, k) && ds[k] < 64
  {
    seq(Digits(|x|), k requires 0 <= k < Digits(|x|) => DigitAt(x, k))
  }

  lemma GroupBytes(ds: seq<bv8>, q: nat)
    ensures ByteAt(ds, 3 * q) == (At(ds, 4 * q) << 2) | (At(ds, 4 * q + 1) >> 4)
    ensures ByteAt(ds, 3 * q + 1) == ((At(ds, 4 * q + 1) & 0x0f) << 4) | (At(ds, 4 * q + 2) >> 2)
    ensures ByteAt(ds, 3 * q + 2) == ((At(ds, 4 * q + 2) & 0x03) << 6) | At(ds, 4 * q + 3)
  {
    assert (3 * q + 1) / 3 == q && (3 * q + 2) / 3 == q;
  }

  /** The digits that a byte needs are there. */
  lemma DigitsCover(n: nat, k: nat)
    requires k < n
    ensures k == k / 3 * 3 + k % 3 && k / 3 * 4 + k % 3 + 1 < Digits(n)
  {
  }

  lemma DigitIsDigit(x: seq<bv8>, k: nat)
    requires k < Digits(|x|)
    ensures At(DigitsOf(x), k) == DigitAt(x, k)
  {
  }

  /** The digits of x spell x. */
  lemma DigitsSpell(x: seq<bv8>, k: nat)
    requires k < |x|
    ensures ByteAt(DigitsOf(x), k) == x[k]
  {
    hide ByteAt, DigitAt, Digits;
    var q, ds := k / 3, DigitsOf(x);
    DigitsCover(|x|, k);
    GroupBytes(ds, q);
    GroupDigits(x, q);
    Quad(At(x, 3 * q), At(x, 3 * q + 1), At(x, 3 * q + 2));
    DigitIsDigit(x, k / 3 * 4 + k % 3);
    DigitIsDigit(x, k / 3 * 4 + k % 3 + 1);
  }

  lemma GroupDigits(x: seq<bv8>, q: nat)
    ensures DigitAt(x, 4 * q) == At(x, 3 * q) >> 2
    ensures DigitAt(x, 4 * q + 1) == ((At(x, 3 * q) & 0x03) << 4) + (At(x, 3 * q + 1) >> 4)
    ensures DigitAt(x, 4 * q + 2) == ((At(x, 3 * q + 1) & 0x0f) << 2) + (At(x, 3 * q + 2) >> 6)
    ensures DigitAt(x, 4 * q + 3) == At(x, 3 * q + 2) & 0x3f
  {
    assert (4 * q + 1) / 4 == q && (4 * q + 2) / 4 == q && (4 * q + 3) / 4 == q;
  }

  /** No two byte strings have the same encoding. */
  lemma EncodeInjective(x: seq<bv8>, y: seq<bv8>)
    requires Encode(x) == Encode(y)
    ensures x == y
  {
    SameDigits(x, y);
    forall k | 0 <= k < |x| ensures x[k] == y[k] {
      DigitsSpell(x, k);
      DigitsSpell(y, k);
    }
  }

  lemma SameDigits(x: seq<bv8>, y: seq<bv8>)
    requires Encode(x) == Encode(y)
    ensures |x| == |y| && DigitsOf(x) == DigitsOf(y)
  {
    var dx, dy := Digits(|x|), Digits(|y|);
    if dx < dy {
      assert Encode(x)[dx] == PAD;
      SymbolInjective(DigitAt(y, dx), 0);
    }
    if dy < dx {
      assert Encode(y)[dy] == PAD;
      SymbolInjective(DigitAt(x, dy), 0);
    }
    DigitsInjective(|x|, |y|);
    forall k | 0 <= k < dx ensures DigitAt(x, k) == DigitAt(y, k) {
      assert Encode(x)[k] == Encode(y)[k];
      SymbolInjective(DigitAt(x, k), DigitAt(y, k));
    }
  }

  lemma DigitsInjective(n: nat, m: nat)
    ensures Digits(n) == Digits(m) ==> n == m
  {
  }

  // ----- encoding into a buffer -----

  /** The first characters of the target are those of the encoding. */
  ghost predicate Encoded(x: seq<bv8>, out: string, k: nat) {
    k <= |out| && k <= EncodedLength(|x|) && forall c :: 0 <= c < k ==> out[c] == Encode(x)[c]
  }

  lemma WholeGroup(x: seq<bv8>, q: nat)
    requires 3 * q + 3 <= |x|
    ensures 4 * q + 4 <= EncodedLength(|x|)
    ensures forall k :: 4 * q <= k < 4 * q + 4 ==> Encode(x)[k] == Symbol(DigitAt(x, k))
  {
    assert 4 * q + 4 <= Digits(|x|);
  }

  lemma LastGroup(x: seq<bv8>, q: nat)
    requires 3 * q < |x| < 3 * q + 3
    ensures 4 * q + 4 == EncodedLength(|x|)
    ensures forall k :: 4 * q <= k < 4 * q + 2 ==> Encode(x)[k] == Symbol(DigitAt(x, k))
    ensures Encode(x)[4 * q + 2] == if |x| == 3 * q + 1 then PAD else Symbol(DigitAt(x, 4 * q + 2))
    ensures Encode(x)[4 * q + 3] == PAD
  {
    assert |x| / 3 == q;
  }

  /** Four characters into the target, if there is room for them. */
  method Put(target: array<char>, at: nat, c0: char, c1: char, c2: char, c3: char) returns (ok: bool)
    modifies target
    ensures ok == (at + 4 <= target.Length)
    ensures ok ==> target[at] == c0 && target[at + 1] == c1 && target[at + 2] == c2 && target[at + 3] == c3
    ensures forall k :: 0 <= k < target.Length && (k < at || k >= at + 4) ==> target[k] == old(target[k])
  {
    if at + 4 > target.Length {
      return false;
    }
    target[at] := c0;
    target[at + 1] := c1;
    target[at + 2] := c2;
    target[at + 3] := c3;
    ok := true;
  }

  lemma MoreEncoded(x: seq<bv8>, before: string, after: string, k: nat)
    requires Encoded(x, before, k) && |after| == |before| && k + 4 <= |after| && k + 4 <= EncodedLength(|x|)
    requires forall c :: 0 <= c < k ==> after[c] == before[c]
    requires forall c :: k <= c < k + 4 ==> after[c] == Encode(x)[c]
    ensures Encoded(x, after, k + 4)
  {
  }

  /** The loop body: three bytes, four characters. */
  method EncodeGroup(src: seq<bv8>, target: array<char>, q: nat) returns (ok: bool)
    requires 3 * q + 3 <= |src| && Encoded(src, target[..], 4 * q)
    modifies target
    ensures ok == (4 * q + 4 <= target.Length) && 4 * q + 4 <= EncodedLength(|src|)
    ensures ok ==> Encoded(src, target[..], 4 * q + 4)
  {
    hide DigitAt, Encode, Encoded;
    ghost var before := target[..];
    var b0, b1, b2 := src[3 * q], src[3 * q + 1], src[3 * q + 2];
    GroupDigits(src, q);
    WholeGroup(src, q);
    Quad(b0, b1, b2);
    ok := Put(target, 4 * q, Symbol(b0 >> 2), Symbol(((b0 & 0x03) << 4) + (b1 >> 4)),
              Symbol(((b1 & 0x0f) << 2) + (b2 >> 6)), Symbol(b2 & 0x3f));
    if ok {
      MoreEncoded(src, before, target[..], 4 * q);
    }
  }

  /** One or two bytes left: two or three characters, and padding. */
  method EncodeRest(src: seq<bv8>, target: array<char>, q: nat) returns (ok: bool)
    requires 3 * q < |src| < 3 * q + 3 && Encoded(src, target[..], 4 * q)
    modifies target
    ensures ok == (4 * q + 4 <= target.Length) && 4 * q + 4 == EncodedLength(|src|)
    ensures ok ==> Encoded(src, target[..], 4 * q + 4)
  {
    hide DigitAt, Encode, Encoded;
    ghost var before := target[..];
    var b0 := src[3 * q];
    var b1 := if 3 * q + 1 < |src| then src[3 * q + 1] else 0;
    GroupDigits(src, q);
    LastGroup(src, q);
    Quad(b0, b1, 0);
    var third := if |src| - 3 * q == 1 then PAD else Symbol(((b1 & 0x0f) << 2) + ((0 as bv8) >> 6));
    ok := Put(target, 4 * q, Symbol(b0 >> 2), Symbol(((b0 & 0x03) << 4) + (b1 >> 4)), third, PAD);
    if ok {
      MoreEncoded(src, before, target[..], 4 * q);
    }
  }

  lemma AllEncoded(x: seq<bv8>, out: string, k: nat)
    requires Encoded(x, out, k) && k == EncodedLength(|x|)
    ensures k <= |out| && out[..k] == Encode(x)
  {
  }

  lemma NoneEncoded(x: seq<bv8>, out: string)
    ensures Encoded(x, out, 0)
  {
  }

  /** `kn_encode_base64`: it succeeds exactly if the characters and a NUL fit in the target, and
      then leaves the encoding there. */
  method KnEncodeBase64(src: seq<bv8>, target: array<char>) returns (r: int)
    modifies target
    ensures r == if EncodedLength(|src|) < target.Length then EncodedLength(|src|) else -1
    ensures r >= 0 ==> target[..r] == Encode(src) && target[r] == '\0' && IsBase64(src, target[..r])
    ensures r == -1 <==> (|src| + 2) / 3 * 4 >= target.Length
  {
    hide Encode, Encoded, IsBase64;
    EncodeIsBase64(src);
    var q: nat := 0;
    NoneEncoded(src, target[..]);
    while 3 * q + 2 < |src|
      invariant 3 * q <= |src| && Encoded(src, target[..], 4 * q)
    {
      var ok := EncodeGroup(src, target, q);
      if !ok {
        return -1;
      }
      q := q + 1;
    }
    var datalength := 4 * q;
    if 3 * q < |src| {
      var ok := EncodeRest(src, target, q);
      if !ok {
        return -1;
      }
      datalength := datalength + 4;
    }
    AllEncoded(src, target[..], datalength);
    if datalength >= target.Length {
      return -1;
    }
    target[datalength] := '\0';
    assert target[..datalength] == Encode(src);
    r := datalength;
  }

  /** An encoding has no whitespace; so what decoding its text gives can only be x. */
  lemma RoundTrip(x: seq<bv8>, y: seq<bv8>)
    ensures Strip(Encode(x)) == Encode(x)
    ensures Strip(Encode(x)) == Encode(y) ==> x == y
  {
    forall k | 0 <= k < |Encode(x)| ensures !IsSpace(Encode(x)[k]) {
      SymbolInjective(DigitAt(x, k), 0);
    }
    StripNothing(Encode(x));
    if Encode(x) == Encode(y) {
      EncodeInjective(x, y);
    }
  }

  /** How many bytes k digits fill completely. */
  function Bytes(k: nat): nat {
    k / 4 * 3 + if k % 4 == 0 then 0 else k % 4 - 1
  }

  /** What the digits so far leave in the byte that is not full yet. */
  function Partial(ds: seq<bv8>): bv8
    requires ds != []
  {
    var d := ds[|ds| - 1];
    if |ds| % 4 == 1 then d << 2 else if |ds| % 4 == 2 then (d & 0x0f) << 4 else (d & 0x03) << 6
  }

  ghost predicate Spells(p: string, ds: seq<bv8>) {
    |p| == |ds| && forall k :: 0 <= k < |p| ==> ds[k] < 64 && p[k] == Symbol(ds[k])
  }

  /** The state of the decoder after the digits `ds`. */
  ghost predicate Decoding(ds: seq<bv8>, state: nat, tarindex: nat, out: seq<bv8>) {
    && state == |ds| % 4 && tarindex == Bytes(|ds|)
    && tarindex <= |out| && (forall k :: 0 <= k < tarindex ==> out[k] == ByteAt(ds, k))
    && (state != 0 ==> tarindex < |out| && out[tarindex] == Partial(ds))
  }

  /** If the stripped text is an encoding, its characters before position k are digits and the
      k-th is one too, then the target must have room beyond the byte the decoder is at. */
  lemma RoomNeeded(x: seq<bv8>, k: nat)
    requires k < Digits(|x|)
    ensures if k % 4 == 0 || k % 4 == 3 then Bytes(k) < Room(|x|) else Bytes(k) + 1 < Room(|x|)
  {
  }

  /** Bytes that are complete do not change with more digits. */
  lemma ByteStable(ds: seq<bv8>, d: bv8, k: nat)
    requires k < Bytes(|ds|)
    ensures ByteAt(ds + [d], k) == ByteAt(ds, k)
  {
    var g := k / 3 * 4;
    assert g + k % 3 + 1 < |ds|;
  }

  /** The next digit completes a byte, and may begin another one. */
  lemma NextByte(ds: seq<bv8>, d: bv8)
    ensures |ds| % 4 == 1 ==> ByteAt(ds + [d], Bytes(|ds|)) == (ds[|ds| - 1] << 2) | (d >> 4)
    ensures |ds| % 4 == 2 ==> ByteAt(ds + [d], Bytes(|ds|)) == ((ds[|ds| - 1] & 0x0f) << 4) | (d >> 2)
    ensures |ds| % 4 == 3 ==> ByteAt(ds + [d], Bytes(|ds|)) == ((ds[|ds| - 1] & 0x03) << 6) | d
    ensures Bytes(|ds| + 1) == if |ds| % 4 == 0 then Bytes(|ds|) else Bytes(|ds|) + 1
  {
    hide ByteAt;
    var q := |ds| / 4;
    GroupBytes(ds + [d], q);
    assert |ds| == 4 * q + |ds| % 4;
  }

  /** One digit into the target: the four cases of the switch. */
  method Take(target: array<bv8>, state: nat, tarindex: nat, d: bv8, ghost ds: seq<bv8>) returns (ok: bool)
    requires Decoding(ds, state, tarindex, target[..]) && d < 64
    modifies target
    ensures ok == (if state == 0 || state == 3 then tarindex < target.Length else tarindex + 1 < target.Length)
    ensures ok ==> Decoding(ds + [d], (state + 1) % 4, if state == 0 then tarindex else tarindex + 1, target[..])
  {
    hide ByteAt, Bytes, Partial;
    NextByte(ds, d);
    forall k | 0 <= k < tarindex ensures ByteAt(ds + [d], k) == ByteAt(ds, k) {
      ByteStable(ds, d, k);
    }
    NewPartial(ds, d);
    if state == 0 {
      if tarindex >= target.Length { return false; }
      target[tarindex] := d << 2;
    } else if state == 1 {
      if tarindex + 1 >= target.Length { return false; }
      target[tarindex] := target[tarindex] | (d >> 4);
      target[tarindex + 1] := (d & 0x0f) << 4;
    } else if state == 2 {
      if tarindex + 1 >= target.Length { return false; }
      target[tarindex] := target[tarindex] | (d >> 2);
      target[tarindex + 1] := (d & 0x03) << 6;
    } else {
      if tarindex >= target.Length { return false; }
      target[tarindex] := target[tarindex] | d;
    }
    ok := true;
  }

  lemma NewPartial(ds: seq<bv8>, d: bv8)
    ensures ds != [] && |ds| % 4 == 1 ==> Partial(ds) == ds[|ds| - 1] << 2
    ensures |ds| % 4 == 2 ==> Partial(ds) == (ds[|ds| - 1] & 0x0f) << 4
    ensures |ds| % 4 == 3 ==> Partial(ds) == (ds[|ds| - 1] & 0x03) << 6
    ensures |ds| % 4 == 0 ==> Partial(ds + [d]) == d << 2
    ensures |ds| % 4 == 1 ==> Partial(ds + [d]) == (d & 0x0f) << 4
    ensures |ds| % 4 == 2 ==> Partial(ds + [d]) == (d & 0x03) << 6
    ensures (|ds| + 1) % 4 == (|ds| % 4 + 1) % 4
  {
  }

  /** `strchr(Base64, ch)`. */
  method Strchr(ch: char) returns (pos: Option<bv8>)
    ensures pos.Some? ==> pos.value < 64 && Symbol(pos.value) == ch
    ensures pos.None? ==> forall d: bv8 :: d < 64 ==> Symbol(d) != ch
  {
    var i := 0;
    while i < 64
      invariant 0 <= i <= 64
      invariant forall d: bv8 :: d < 64 && (d as int) < i ==> Symbol(d) != ch
    {
      if Symbol(i as bv8) == ch {
        return Some(i as bv8);
      }
      i := i + 1;
    }
    pos := None;
  }

  // ----- which texts are encodings -----

  /** Where a text begins with exactly these digits, it can only be the encoding of bytes with
      these digits. */
  lemma EncodingShape(p: string, x: seq<bv8>, ds: seq<bv8>)
    requires p == Encode(x) && |ds| <= |p| && Spells(p[..|ds|], ds) && (|ds| == |p| || p[|ds|] == PAD)
    ensures Digits(|x|) == |ds| && DigitsOf(x) == ds && |p| == EncodedLength(|x|)
  {
    var m := Digits(|x|);
    if m < |ds| {
      assert p[m] == PAD && p[m] == p[..|ds|][m];
      SymbolInjective(ds[m], 0);
    }
    if |ds| < m {
      SymbolInjective(DigitAt(x, |ds|), 0);
    }
    forall k | 0 <= k < m ensures DigitAt(x, k) == ds[k] {
      assert p[k] == p[..|ds|][k];
      SymbolInjective(DigitAt(x, k), ds[k]);
    }
  }

  /** A digit more in the text means a digit more in the bytes. */
  lemma LongerEncoding(p: string, x: seq<bv8>, ds: seq<bv8>, d: bv8)
    requires p == Encode(x) && |ds| < |p| && d < 64 && p[|ds|] == Symbol(d)
    ensures |ds| < Digits(|x|)
  {
    SymbolInjective(d, 0);
  }

  /** The bits of the last digit that no byte has. */
  function Spare(ds: seq<bv8>): bv8 {
    if |ds| % 4 == 2 then ds[|ds| - 1] & 0x0f else if |ds| % 4 == 3 then ds[|ds| - 1] & 0x03 else 0
  }

  function Padding(k: nat): string {
    if k % 4 == 2 then "==" else if k % 4 == 3 then "=" else ""
  }

  lemma SpareIsZero(x: seq<bv8>)
    ensures Spare(DigitsOf(x)) == 0 && |DigitsOf(x)| % 4 != 1
    ensures EncodedLength(|x|) == |DigitsOf(x)| + |Padding(|DigitsOf(x)|)|
  {
    hide DigitAt, Digits, EncodedLength, Spare;
    var q, ds := |x| / 3, DigitsOf(x);
    LengthShape(|x|);
    GroupDigits(x, q);
    SpareBits(At(x, 3 * q), At(x, 3 * q + 1));
    SpareShape(ds, q);
  }

  lemma LengthShape(n: nat)
    ensures n == 3 * (n / 3) + n % 3
    ensures Digits(n) == 4 * (n / 3) + if n % 3 == 0 then 0 else n % 3 + 1
    ensures Digits(n) % 4 != 1 && EncodedLength(n) == Digits(n) + |Padding(Digits(n))|
  {
    hide Padding, EncodedLength;
    var q, d := n / 3, Digits(n);
    PaddingLength(q, if n % 3 == 0 then 0 else n % 3 + 1);
    LengthAt(q, n % 3);
  }

  lemma PaddingLength(q: nat, r: nat)
    requires r == 0 || r == 2 || r == 3
    ensures (4 * q + r) % 4 == r && |Padding(4 * q + r)| == if r == 0 then 0 else 4 - r
  {
  }

  lemma LengthAt(q: nat, r: nat)
    requires r < 3
    ensures EncodedLength(3 * q + r) == if r == 0 then 4 * q else 4 * q + 4
  {
  }

  lemma SpareShape(ds: seq<bv8>, q: nat)
    ensures |ds| == 4 * q ==> Spare(ds) == 0
    ensures |ds| == 4 * q + 2 ==> Spare(ds) == ds[4 * q + 1] & 0x0f
    ensures |ds| == 4 * q + 3 ==> Spare(ds) == ds[4 * q + 2] & 0x03
  {
  }

  lemma SpareBits(a: bv8, b: bv8)
    ensures (((a & 0x03) << 4) + ((0 as bv8) >> 4)) & 0x0f == 0
    ensures (((b & 0x0f) << 2) + ((0 as bv8) >> 6)) & 0x03 == 0
  {
  }

  lemma GroupFromBytes(d0: bv8, d1: bv8, d2: bv8, d3: bv8)
    requires d0 < 64 && d1 < 64 && d2 < 64 && d3 < 64
    ensures var b0, b1, b2 := (d0 << 2) | (d1 >> 4), ((d1 & 0x0f) << 4) | (d2 >> 2), ((d2 & 0x03) << 6) | d3;
      b0 >> 2 == d0 && ((b0 & 0x03) << 4) + (b1 >> 4) == d1 && ((b1 & 0x0f) << 2) + (b2 >> 6) == d2 && b2 & 0x3f == d3
  {
  }

  lemma PartialGroup(d0: bv8, d1: bv8, d2: bv8)
    requires d0 < 64 && d1 < 64 && d2 < 64
    ensures d1 & 0x0f == 0 ==>
      var b0 := (d0 << 2) | (d1 >> 4); b0 >> 2 == d0 && ((b0 & 0x03) << 4) + ((0 as bv8) >> 4) == d1
    ensures d2 & 0x03 == 0 ==>
      var b0, b1 := (d0 << 2) | (d1 >> 4), ((d1 & 0x0f) << 4) | (d2 >> 2);
      b0 >> 2 == d0 && ((b0 & 0x03) << 4) + (b1 >> 4) == d1 && ((b1 & 0x0f) << 2) + ((0 as bv8) >> 6) == d2
  {
  }

  /** The bytes that digits without spare bits spell have these digits. */
  lemma SpelledDigit(ds: seq<bv8>, x: seq<bv8>, k: nat)
    requires k < |ds| && |ds| % 4 != 1 && Spare(ds) == 0 && forall c :: 0 <= c < |ds| ==> ds[c] < 64
    requires |x| == Bytes(|ds|) && forall c :: 0 <= c < |x| ==> x[c] == ByteAt(ds, c)
    ensures DigitAt(x, k) == ds[k]
  {
    hide ByteAt, DigitAt, Spare, Bytes;
    var q := k / 4;
    GroupBytes(ds, q);
    GroupDigits(x, q);
    GroupFromBytes(At(ds, 4 * q), At(ds, 4 * q + 1), At(ds, 4 * q + 2), At(ds, 4 * q + 3));
    PartialGroup(At(ds, 4 * q), At(ds, 4 * q + 1), At(ds, 4 * q + 2));
    GroupSize(ds, x, k);
  }

  /** The group of digit k is whole, or the last one with two or three digits. */
  lemma GroupSize(ds: seq<bv8>, x: seq<bv8>, k: nat)
    requires k < |ds| && |ds| % 4 != 1 && Spare(ds) == 0
    requires |x| == Bytes(|ds|)
    ensures k == k / 4 * 4 + k % 4
    ensures
      || (4 * (k / 4) + 4 <= |ds| && 3 * (k / 4) + 3 <= |x|)
      || (4 * (k / 4) + 2 == |ds| && 3 * (k / 4) + 1 == |x| && ds[4 * (k / 4) + 1] & 0x0f == 0)
      || (4 * (k / 4) + 3 == |ds| && 3 * (k / 4) + 2 == |x| && ds[4 * (k / 4) + 2] & 0x03 == 0)
  {
  }

  lemma SpelledEncoding(p: string, ds: seq<bv8>, x: seq<bv8>)
    requires |ds| <= |p| && Spells(p[..|ds|], ds) && p[|ds|..] == Padding(|ds|) && |ds| % 4 != 1 && Spare(ds) == 0
    requires |x| == Bytes(|ds|) && forall c :: 0 <= c < |x| ==> x[c] == ByteAt(ds, c)
    ensures p == Encode(x)
  {
    hide ByteAt, DigitAt, Spare;
    DigitsOfBytes(|ds|);
    forall k | 0 <= k < |p| ensures p[k] == Encode(x)[k] {
      if k < |ds| {
        SpelledDigit(ds, x, k);
        assert p[k] == p[..|ds|][k];
      } else {
        assert p[k] == p[|ds|..][k - |ds|];
      }
    }
  }

  lemma DigitsOfBytes(k: nat)
    requires k % 4 != 1
    ensures Digits(Bytes(k)) == k && EncodedLength(Bytes(k)) == k + |Padding(k)|
  {
  }

  /** What makes a text with these digits and this rest an encoding. */
  lemma EncodingIff(p: string, ds: seq<bv8>, x: seq<bv8>)
    requires |ds| <= |p| && Spells(p[..|ds|], ds) && (|ds| == |p| || p[|ds|] == PAD)
    ensures p == Encode(x) ==> p[|ds|..] == Padding(|ds|) && |ds| % 4 != 1 && Spare(ds) == 0 && Bytes(|ds|) == |x|
  {
    if p == Encode(x) {
      EncodingShape(p, x, ds);
      SpareIsZero(x);
      assert forall k :: |ds| <= k < |p| ==> p[k] == PAD;
      assert p[|ds|..] == Padding(|ds|);
    }
  }

  // ----- the decoder -----

  lemma StripAt(src: string, i: nat)
    requires i < |src| && !IsSpace(src[i])
    ensures |Strip(src[..i])| < |Strip(src)| && Strip(src)[|Strip(src[..i])|] == src[i]
    ensures Strip(src)[..|Strip(src[..i])|] == Strip(src[..i])
  {
    StripStep(src, i);
    StripPrefix(src, i + 1);
  }

  lemma SpellsMore(p: string, ds: seq<bv8>, d: bv8)
    requires Spells(p, ds) && d < 64
    ensures Spells(p + [Symbol(d)], ds + [d])
  {
  }

  /** A character that is neither a digit nor `=` stands in no encoding. */
  lemma BadCharacter(src: string, i: nat, x: seq<bv8>)
    requires i < |src| && !IsSpace(src[i]) && src[i] != PAD && forall d: bv8 :: d < 64 ==> Symbol(d) != src[i]
    ensures Strip(src) != Encode(x)
  {
    StripAt(src, i);
    var k := |Strip(src[..i])|;
    if k < |Encode(x)| {
      assert Encode(x)[k] == PAD || Encode(x)[k] == Symbol(DigitAt(x, k));
    }
  }

  /** When the target is too small for the next digit, it is too small for the whole. */
  lemma TooSmall(src: string, i: nat, ds: seq<bv8>, d: bv8, size: nat, x: seq<bv8>)
    requires i < |src| && !IsSpace(src[i]) && d < 64 && src[i] == Symbol(d) && Spells(Strip(src[..i]), ds)
    requires size <= if |ds| % 4 == 0 || |ds| % 4 == 3 then Bytes(|ds|) else Bytes(|ds|) + 1
    requires Strip(src) == Encode(x)
    ensures size < Room(|x|)
  {
    hide Bytes, Room;
    StripAt(src, i);
    LongerEncoding(Strip(src), x, ds, d);
    RoomNeeded(x, |ds|);
  }

  /** The first loop: it stops at the end, at `=`, or at a character it cannot take. */
  method DecodeDigits(src: string, target: array<bv8>)
    returns (ok: bool, i: nat, state: nat, tarindex: nat, ghost ds: seq<bv8>)
    modifies target
    ensures ok ==> i <= |src| && Spells(Strip(src[..i]), ds) && Decoding(ds, state, tarindex, target[..])
    ensures ok ==> i == |src| || (src[i] == PAD && !IsSpace(src[i]))
    ensures !ok ==> forall x: seq<bv8> :: Strip(src) == Encode(x) ==> target.Length < Room(|x|)
  {
    hide Strip, Encode, Room, Spells, Decoding;
    i, state, tarindex, ds := 0, 0, 0, [];
    Nothing(src, target[..]);
    while i < |src|
      invariant 0 <= i <= |src| && Spells(Strip(src[..i]), ds) && Decoding(ds, state, tarindex, target[..])
    {
      var ch := src[i];
      StripStep(src, i);
      if !IsSpace(ch) {
        if ch == PAD {
          break;
        }
        var pos := Strchr(ch);
        if pos.None? {
          forall x: seq<bv8> ensures Strip(src) != Encode(x) {
            BadCharacter(src, i, x);
          }
          return false, i, state, tarindex, ds;
        }
        DecodingState(ds, state, tarindex, target[..]);
        var fits := Take(target, state, tarindex, pos.value, ds);
        if !fits {
          forall x: seq<bv8> | Strip(src) == Encode(x) ensures target.Length < Room(|x|) {
            TooSmall(src, i, ds, pos.value, target.Length, x);
          }
          return false, i, state, tarindex, ds;
        }
        SpellsMore(Strip(src[..i]), ds, pos.value);
        tarindex := if state == 0 then tarindex else tarindex + 1;
        state := (state + 1) % 4;
        ds := ds + [pos.value];
      } else {
        assert Strip(src[..i]) + [] == Strip(src[..i]);
      }
      i := i + 1;
    }
    ok := true;
  }

  lemma Nothing(src: string, out: seq<bv8>)
    ensures Spells(Strip(src[..0]), []) && Decoding([], 0, 0, out)
  {
  }

  lemma DecodingState(ds: seq<bv8>, state: nat, tarindex: nat, out: seq<bv8>)
    requires Decoding(ds, state, tarindex, out)
    ensures state == |ds| % 4 && tarindex == Bytes(|ds|) <= |out|
    ensures forall k :: 0 <= k < tarindex ==> out[k] == ByteAt(ds, k)
    ensures state != 0 ==> tarindex < |out|
  {
  }

  /** Skipping whitespace from position `j` on. */
  method SkipSpaces(src: string, from: nat, j: nat) returns (k: nat)
    requires from <= j <= |src|
    ensures j <= k <= |src| && (k < |src| ==> !IsSpace(src[k]))
    ensures Strip(src[from..k]) == Strip(src[from..j])
  {
    hide IsSpace;
    k := j;
    while k < |src| && IsSpace(src[k])
      invariant j <= k <= |src| && Strip(src[from..k]) == Strip(src[from..j])
    {
      OneMore(src, from, k);
      assert Strip(src[from..k]) + [] == Strip(src[from..k]);
      k := k + 1;
    }
  }

  lemma OneMore(src: string, from: nat, k: nat)
    requires from <= k < |src|
    ensures Strip(src[from..k + 1]) == Strip(src[from..k]) + if IsSpace(src[k]) then [] else [src[k]]
  {
    assert src[from..][..k - from] == src[from..k] && src[from..][..k + 1 - from] == src[from..k + 1];
    StripStep(src[from..], k - from);
  }

  lemma RestOfText(src: string, from: nat, k: nat)
    requires from <= k <= |src|
    ensures Strip(src[from..]) == Strip(src[from..k]) + Strip(src[k..])
  {
    assert src[from..] == src[from..k] + src[k..];
    StripConcat(src[from..k], src[k..]);
  }

  /** The end of the text after the first `=`: exactly the padding that the state asks for. */
  method Trailer(src: string, i: nat, state: nat) returns (ok: bool)
    requires i < |src| && src[i] == PAD && !IsSpace(src[i]) && state < 4
    ensures ok == (Strip(src[i..]) == Padding(state) && Padding(state) != "")
  {
    hide Strip, IsSpace;
    var j := i + 1;
    FirstPad(src, i);
    RestOfText(src, i, j);
    if state == 0 || state == 1 {
      return false;
    }
    if state == 2 {
      j := SkipSpaces(src, i, j);
      RestOfText(src, i, j);
      if j == |src| || src[j] != PAD {
        SecondPad(src, i, j);
        assert ([PAD] + Strip(src[j..]))[1..] == Strip(src[j..]) && "=="[1..] == "=";
        return false;
      }
      OneMore(src, i, j);
      j := j + 1;
      RestOfText(src, i, j);
    }
    j := SkipSpaces(src, i, j);
    RestOfText(src, i, j);
    SecondPad(src, i, j);
    ok := j == |src|;
  }

  lemma FirstPad(src: string, i: nat)
    requires i < |src| && src[i] == PAD && !IsSpace(src[i])
    ensures Strip(src[i..i + 1]) == [PAD]
  {
    assert src[i..i + 1] == [PAD];
    assert Strip([PAD][..0]) == [];
  }

  lemma SecondPad(src: string, i: nat, j: nat)
    requires i <= j <= |src| && (j < |src| ==> !IsSpace(src[j]))
    ensures j == |src| ==> Strip(src[j..]) == [] && Strip(src[i..]) == Strip(src[i..j])
    ensures j < |src| ==> Strip(src[j..]) != [] && Strip(src[j..])[0] == src[j]
  {
    RestOfText(src, i, j);
    if j < |src| {
      assert src[j..][..0] == [];
      StripAt(src[j..], 0);
    } else {
      assert src[j..] == [];
    }
  }

  lemma PartialIsSpare(ds: seq<bv8>)
    requires |ds| % 4 == 2 || |ds| % 4 == 3
    ensures Partial(ds) == 0 <==> Spare(ds) == 0
  {
    var d := ds[|ds| - 1];
    assert (d & 0x0f) << 4 == 0 <==> d & 0x0f == 0;
    assert (d & 0x03) << 6 == 0 <==> d & 0x03 == 0;
  }

  lemma WholeText(src: string, i: nat)
    requires i <= |src| && (i < |src| ==> !IsSpace(src[i]))
    ensures Strip(src) == Strip(src[..i]) + Strip(src[i..])
    ensures i == |src| ==> Strip(src[i..]) == []
    ensures i < |src| ==> |Strip(src[..i])| < |Strip(src)| && Strip(src)[|Strip(src[..i])|] == src[i]
  {
    RestOfText(src, 0, i);
    assert src[0..] == src && src[0..i] == src[..i];
    SecondPad(src, i, i);
  }

  /** `kn_decode_base64`: a text is accepted exactly if it is, whitespace aside, the encoding of
      some bytes that the target has room for; then these bytes are left in the target. */
  method KnDecodeBase64(src: string, target: array<bv8>) returns (r: int)
    requires '\0' !in src
    modifies target
    ensures -1 <= r <= target.Length
    ensures r != -1 ==> Strip(src) == Encode(target[..r]) && Room(r) <= target.Length
    ensures r == -1 ==> forall x: seq<bv8> :: Strip(src) == Encode(x) ==> target.Length < Room(|x|)
    ensures r != -1 ==> IsBase64(target[..r], Strip(src)) && (if r % 3 == 0 then r else r + 1) <= target.Length
    ensures r == -1 ==>
      forall x: seq<bv8> :: IsBase64(x, Strip(src)) ==> target.Length < if |x| % 3 == 0 then |x| else |x| + 1
  {
    hide *;
    OneBase64(Strip(src));
    RoomIs();
    assert forall x: seq<bv8> {:trigger Encode(x)} :: Strip(src) == Encode(x) ==> IsBase64(x, Strip(src));
    var ok, i, state, tarindex;
    ghost var ds;
    ok, i, state, tarindex, ds := DecodeDigits(src, target);
    if !ok {
      return -1;
    }
    DecodingState(ds, state, tarindex, target[..]);
    WholeText(src, i);
    ghost var p := Strip(src);
    TextStarts(p, Strip(src[..i]), Strip(src[i..]), ds);
    if i < |src| {
      var pads := Trailer(src, i, state);
      if pads {
        TrailerState(state);
        PartialAt(ds, state, tarindex, target[..]);
        PartialIsSpare(ds);
        pads := target[tarindex] == 0;
      }
      if !pads {
        forall x: seq<bv8> ensures p != Encode(x) {
          EncodingIff(p, ds, x);
          PaddingMod(ds);
        }
        return -1;
      }
    } else if state != 0 {
      forall x: seq<bv8> ensures p != Encode(x) {
        EncodingIff(p, ds, x);
        PaddingMod(ds);
      }
      return -1;
    }
    PaddingMod(ds);
    SpelledEncoding(p, ds, target[..tarindex]);
    RoomThere(ds, state, tarindex, target[..]);
    r := tarindex;
  }

  lemma TextStarts(p: string, front: string, back: string, ds: seq<bv8>)
    requires p == front + back && Spells(front, ds)
    ensures |ds| == |front| <= |p| && p[..|ds|] == front && p[|ds|..] == back && Spells(p[..|ds|], ds)
  {
  }

  lemma TrailerState(state: nat)
    requires state < 4 && Padding(state) != ""
    ensures state == 2 || state == 3
  {
  }

  lemma PartialAt(ds: seq<bv8>, state: nat, tarindex: nat, out: seq<bv8>)
    requires Decoding(ds, state, tarindex, out) && state != 0
    ensures tarindex < |out| && ds != [] && out[tarindex] == Partial(ds)
  {
  }

  lemma PaddingMod(ds: seq<bv8>)
    ensures Padding(|ds|) == Padding(|ds| % 4)
    ensures |ds| % 4 == 0 ==> Spare(ds) == 0 && Padding(|ds|) == ""
    ensures Padding(|ds|) == "" <==> |ds| % 4 == 0 || |ds| % 4 == 1
  {
  }

  lemma RoomThere(ds: seq<bv8>, state: nat, tarindex: nat, out: seq<bv8>)
    requires Decoding(ds, state, tarindex, out) && state != 1
    ensures Room(tarindex) <= |out|
  {
  }
}
