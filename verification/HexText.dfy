/** Two-digit hexadecimal text: what `sprintf("%02X")` prints and what `strtol(..., 16)` reads
    back, including everything `strtol` accepts beyond what is printed. */
module HexText {
  import opened CStrings

  function HexDigit(v: int): char
    requires 0 <= v < 16
  {
    "0123456789ABCDEF"[v]
  }

  /** `sprintf("%02X", v)` for a value of at most two digits. */
  function Hex2(v: int): (s: string)
    requires 0 <= v < 256
    ensures |s| == 2
  {
    [HexDigit(v / 16), HexDigit(v % 16)]
  }

  function DigitValue(c: char): int {
    if '0' <= c <= '9' then c as int - '0' as int
    else if 'A' <= c <= 'F' then c as int - 'A' as int + 10
    else if 'a' <= c <= 'f' then c as int - 'a' as int + 10
    else -1
  }

  function SkipSpace(s: string): (r: string)
    ensures |r| <= |s|
  {
    if s != [] && IsSpace(s[0]) then SkipSpace(s[1..]) else s
  }

  /** The value of the longest prefix of hexadecimal digits. */
  function DigitsValue(s: string, acc: nat): nat {
    if s == [] || DigitValue(s[0]) < 0 then acc else DigitsValue(s[1..], 16 * acc + DigitValue(s[0]))
  }

  /** `strtol(s, NULL, 16)`: white space, an optional sign, an optional 0x, then digits. */
  function Strtol16(s: string): int {
    var u := SkipSpace(s);
    var negative := u != [] && u[0] == '-';
    var v := if u != [] && (u[0] == '-' || u[0] == '+') then u[1..] else u;
    var w := if |v| >= 2 && v[0] == '0' && (v[1] == 'x' || v[1] == 'X') then v[2..] else v;
    if negative then -(DigitsValue(w, 0) as int) else DigitsValue(w, 0)
  }

  lemma {:induction false} DigitsRange(s: string, acc: nat)
    requires |s| <= 2
    ensures |s| == 0 ==> DigitsValue(s, acc) == acc
    ensures |s| == 1 ==> DigitsValue(s, acc) <= 16 * acc + 15
    ensures |s| == 2 ==> DigitsValue(s, acc) <= 256 * acc + 255
  {
    if s != [] && DigitValue(s[0]) >= 0 {
      DigitsRange(s[1..], 16 * acc + DigitValue(s[0]));
    }
  }

  /** Whatever two characters a share holds, the number read from them is small. */
  lemma StrtolRange(s: string)
    requires |s| == 2
    ensures -256 < Strtol16(s) < 256
  {
    var u := SkipSpace(s);
    var v := if u != [] && (u[0] == '-' || u[0] == '+') then u[1..] else u;
    var w := if |v| >= 2 && v[0] == '0' && (v[1] == 'x' || v[1] == 'X') then v[2..] else v;
    DigitsRange(w, 0);
  }

  lemma DigitRoundTrip(v: int)
    requires 0 <= v < 16
    ensures DigitValue(HexDigit(v)) == v
    ensures HexDigit(v) != 'x' && HexDigit(v) != 'X' && HexDigit(v) != '-' && HexDigit(v) != '+'
    ensures !IsSpace(HexDigit(v)) && HexDigit(v) != 'G' && HexDigit(v) != '\0'
  {
    assert v == 0 || v == 1 || v == 2 || v == 3 || v == 4 || v == 5 || v == 6 || v == 7 || v == 8
      || v == 9 || v == 10 || v == 11 || v == 12 || v == 13 || v == 14 || v == 15;
  }

  /** Reading two printed digits gives the number back. */
  lemma HexRoundTrip(v: int)
    requires 0 <= v < 256
    ensures Strtol16(Hex2(v)) == v
  {
    var s := Hex2(v);
    DigitRoundTrip(v / 16);
    DigitRoundTrip(v % 16);
    assert SkipSpace(s) == s;
    assert s[1..] == [HexDigit(v % 16)];
    assert s[1..][1..] == [];
    assert DigitsValue(s, 0) == DigitsValue(s[1..], v / 16) == DigitsValue([], 16 * (v / 16) + v % 16);
  }

  /** `v` is the value of a hexadecimal digit, of either case. */
  ghost predicate IsDigit(c: char, v: int) {
    0 <= v < 16 && (c == "0123456789ABCDEF"[v] || c == "0123456789abcdef"[v])
  }

  lemma DigitValueMeans(c: char)
    ensures DigitValue(c) >= 0 ==> IsDigit(c, DigitValue(c))
    ensures forall v :: IsDigit(c, v) ==> DigitValue(c) == v >= 0
  {
    forall v | IsDigit(c, v) ensures DigitValue(c) == v >= 0 {
      EachDigit(v);
    }
    EachDigit(DigitValue(c));
  }

  lemma EachDigit(v: int)
    ensures 0 <= v < 16 ==> "0123456789ABCDEF"[v] as int == if v < 10 then 48 + v else 55 + v
    ensures 0 <= v < 16 ==> "0123456789abcdef"[v] as int == if v < 10 then 48 + v else 87 + v
  {
  }

  /** What `strtol` makes of two characters: of two digits their number, of one digit with a sign or a
      space before it or something else behind it that digit, otherwise 0. */
  lemma StrtolOfTwo(s: string, a: int, b: int)
    requires |s| == 2
    ensures IsDigit(s[0], a) && IsDigit(s[1], b) ==> Strtol16(s) == 16 * a + b
    ensures IsDigit(s[0], a) && (forall v :: !IsDigit(s[1], v)) ==> Strtol16(s) == a
    ensures (IsSpace(s[0]) || s[0] == '+') && IsDigit(s[1], b) ==> Strtol16(s) == b
    ensures s[0] == '-' && IsDigit(s[1], b) ==> Strtol16(s) == -b
    ensures (forall v :: !IsDigit(s[0], v)) && (forall v :: !IsDigit(s[1], v)) ==> Strtol16(s) == 0
    ensures (forall v :: !IsDigit(s[0], v)) && !IsSpace(s[0]) && s[0] != '+' && s[0] != '-' ==> Strtol16(s) == 0
  {
    hide IsDigit;
    DigitValueMeans(s[0]);
    DigitValueMeans(s[1]);
    EachDigit(a);
    StrtolParts(s);
  }

  lemma OneDigit(c: char, acc: nat)
    ensures DigitsValue([c], acc) == if DigitValue(c) < 0 then acc else 16 * acc + DigitValue(c)
  {
    assert [c][1..] == "";
  }

  lemma StrtolParts(s: string)
    requires |s| == 2
    ensures DigitValue(s[0]) >= 0 ==>
      Strtol16(s) == if DigitValue(s[1]) >= 0 then 16 * DigitValue(s[0]) + DigitValue(s[1]) else DigitValue(s[0])
    ensures DigitValue(s[0]) < 0 ==>
      Strtol16(s) ==
        if DigitValue(s[1]) < 0 then 0
        else if IsSpace(s[0]) || s[0] == '+' then DigitValue(s[1])
        else if s[0] == '-' then -DigitValue(s[1])
        else 0
  {
    assert s == [s[0], s[1]] && s[1..] == [s[1]] && s[2..] == "" && s[1..][1..] == "";
    assert SkipSpace("") == "";
    OneDigit(s[1], 0);
    if DigitValue(s[0]) >= 0 {
      OneDigit(s[1], DigitValue(s[0]));
      assert SkipSpace(s) == s;
      assert DigitsValue(s, 0) == DigitsValue(s[1..], DigitValue(s[0]));
    } else if IsSpace(s[0]) {
      assert SkipSpace(s) == SkipSpace([s[1]]);
    }
  }
}
