/** The text form of shares as values: one line per share number, two characters per byte of
    the secret, the code "G0" for the field element 256; and how lines are found again in a text
    and joined. The methods in ShareStrings are proved against these functions. */
module ShareText {
  import opened Options
  import opened CArithmetic
  import opened Field257
  import opened Polynomials
  import opened SecretSharing
  import opened HexText

  type byte = x: int | 0 <= x < 256

  // ----- printing -----

  /** Two characters for one element of 0..256. */
  function Codon(v: int): (s: string)
    requires 0 <= v <= 256
    ensures |s| == 2
  {
    if v == 256 then "G0" else Hex2(v)
  }

  function Codons(ys: seq<int>): (s: string)
    requires forall i :: 0 <= i < |ys| ==> 0 <= ys[i] <= 256
    ensures |s| == 2 * |ys|
  {
    if ys == [] then "" else Codon(ys[0]) + Codons(ys[1..])
  }

  /** The values at `x` of the polynomials of all bytes. */
  function Column(polys: seq<Poly>, x: int): (ys: seq<int>)
    ensures |ys| == |polys|
    ensures forall i :: 0 <= i < |ys| ==> ys[i] == ShareAt(polys[i], x) && 0 <= ys[i] <= 256
  {
    seq(|polys|, i requires 0 <= i < |polys| => ShareAt(polys[i], x))
  }

  /** The share with number `x` and threshold `t`, as `split_string` prints it. */
  function Line(polys: seq<Poly>, x: int, t: int): (s: string)
    requires 0 <= x < 256 && 0 <= t < 256
    ensures |s| == 6 + 2 * |polys|
  {
    Hex2(x) + Hex2(t) + "AA" + Codons(Column(polys, x))
  }

  function Lines(polys: seq<Poly>, n: nat, t: int): (ls: seq<string>)
    requires n < 256 && 0 <= t < 256
    ensures |ls| == n && forall i :: 0 <= i < n ==> ls[i] == Line(polys, i + 1, t)
  {
    seq(n, i requires 0 <= i < n => Line(polys, i + 1, t))
  }

  function JoinText(ls: seq<string>): string {
    if ls == [] then "" else ls[0] + "\n" + JoinText(ls[1..])
  }

  // ----- reading -----

  function ReadCodon(c: string): int {
    if c == "G0" then 256 else Strtol16(c)
  }

  /** Every line is long enough for the reads that `join_strings` makes. */
  predicate Framed(ls: seq<string>) {
    ls != [] ==>
      |ls[0]| >= 6 && forall j :: 0 <= j < |ls| ==> |ls[j]| >= 6 + 2 * ((|ls[0]| - 6) / 2)
  }

  function LineXs(ls: seq<string>): (xs: seq<int>)
    requires forall j :: 0 <= j < |ls| ==> |ls[j]| >= 6
    ensures |xs| == |ls|
  {
    seq(|ls|, j requires 0 <= j < |ls| => Strtol16(ls[j][..2]))
  }

  function LineYs(ls: seq<string>, i: nat): (ys: seq<int>)
    requires forall j :: 0 <= j < |ls| ==> |ls[j]| >= 8 + 2 * i
    ensures |ys| == |ls|
  {
    seq(|ls|, j requires 0 <= j < |ls| => ReadCodon(ls[j][6 + 2 * i..8 + 2 * i]))
  }

  /** `char letter = join_shares(...)` keeps the low eight bits. */
  function JoinedByte(ls: seq<string>, i: nat): byte
    requires forall j :: 0 <= j < |ls| ==> |ls[j]| >= 8 + 2 * i
  {
    JoinedSecret(LineXs(ls), LineYs(ls, i)) % 256
  }

  /** `join_strings`. */
  function JoinLines(ls: seq<string>): Option<seq<byte>>
    requires Framed(ls)
  {
    if ls == [] then None
    else Some(seq((|ls[0]| - 6) / 2, i requires 0 <= i < (|ls[0]| - 6) / 2 => JoinedByte(ls, i)))
  }

  function SkipNewlines(s: string): (r: string)
    ensures |r| <= |s| && (r != [] ==> r[0] != '\n')
  {
    if s != [] && s[0] == '\n' then SkipNewlines(s[1..]) else s
  }

  function UpToNewline(s: string): (r: string)
    ensures |r| <= |s| && r == s[..|r|] && (s != [] && s[0] != '\n' ==> |r| > 0)
    ensures '\n' !in r && (|r| < |s| ==> s[|r|] == '\n')
  {
    if s == [] || s[0] == '\n' then "" else [s[0]] + UpToNewline(s[1..])
  }

  /** One call of `strtok_rr` with delimiter newline: the token and what follows it. */
  function NextToken(s: string): (r: Option<(string, string)>)
    ensures r.Some? ==> |r.value.1| < |s|
  {
    var u := SkipNewlines(s);
    if u == [] then None
    else
      var token := UpToNewline(u);
      Some((token, if |token| < |u| then u[|token| + 1..] else ""))
  }

  function Tokens(s: string): seq<string>
    decreases |s|
  {
    match NextToken(s)
    case None => []
    case Some((token, rest)) => [token] + Tokens(rest)
  }

  predicate IsTrimmed(c: char) {
    c == ' ' || c == '\n' || c == '\r' || c == '\t'
  }

  /** `trim_trailing_whitespace`. */
  function Trim(s: string): string {
    if s != [] && IsTrimmed(s[|s| - 1]) then Trim(s[..|s| - 1]) else s
  }

  function NonEmptyTrimmed(ts: seq<string>): seq<string> {
    if ts == [] then []
    else (if Trim(ts[0]) == "" then [] else [Trim(ts[0])]) + NonEmptyTrimmed(ts[1..])
  }

  /** The lines `extract_secret_from_share_strings` collects: all tokens trimmed, the empty ones
      dropped except for the first. */
  function KeptLines(text: string): seq<string> {
    var ts := Tokens(text);
    if ts == [] then [] else [Trim(ts[0])] + NonEmptyTrimmed(ts[1..])
  }

  /** The publisher's variant joins the first `t` lines, if there are that many. */
  function ExtractFirst(text: string, t: nat): Option<seq<byte>>
    requires |KeptLines(text)| >= t ==> Framed(KeptLines(text)[..t])
  {
    if |KeptLines(text)| < t then None else JoinLines(KeptLines(text)[..t])
  }

  /** The subscriber's variant joins every line. */
  function ExtractAll(text: string): Option<seq<byte>>
    requires Framed(KeptLines(text))
  {
    JoinLines(KeptLines(text))
  }

  // ----- what taking a text apart means -----

  /** `r` is `s` without the spaces, tabs, newlines and carriage returns at its end. */
  ghost predicate IsTrimOf(s: string, r: string) {
    && |r| <= |s| && r == s[..|r|]
    && (forall i :: |r| <= i < |s| ==> s[i] == ' ' || s[i] == '\t' || s[i] == '\n' || s[i] == '\r')
    && (r != "" ==> var c := r[|r| - 1]; c != ' ' && c != '\t' && c != '\n' && c != '\r')
  }

  lemma {:induction false} TrimMeans(s: string)
    ensures IsTrimOf(s, Trim(s))
  {
    if s != [] && IsTrimmed(s[|s| - 1]) {
      TrimMeans(s[..|s| - 1]);
    }
  }

  /** The text is some newlines, the token, which is not empty and has none, and then its end or one
      more newline and the rest. */
  ghost predicate IsToken(s: string, token: string, rest: string) {
    token != "" && '\n' !in token && exists k :: TokenAt(s, k, token, rest)
  }

  ghost predicate TokenAt(s: string, k: nat, token: string, rest: string) {
    && k + |token| <= |s| && s[k..k + |token|] == token && (forall i :: 0 <= i < k ==> s[i] == '\n')
    && if k + |token| < |s| then s[k + |token|] == '\n' && rest == s[k + |token| + 1..] else rest == ""
  }

  lemma {:induction false} Newlines(s: string) returns (k: nat)
    ensures k <= |s| && SkipNewlines(s) == s[k..] && forall i :: 0 <= i < k ==> s[i] == '\n'
  {
    k := 0;
    if s != [] && s[0] == '\n' {
      k := Newlines(s[1..]);
      assert s[1..][k..] == s[k + 1..];
      k := k + 1;
    }
  }

  lemma NextTokenMeans(s: string)
    ensures NextToken(s) == None <==> forall i :: 0 <= i < |s| ==> s[i] == '\n'
    ensures NextToken(s).Some? ==> IsToken(s, NextToken(s).value.0, NextToken(s).value.1)
  {
    hide SkipNewlines, UpToNewline;
    var k := Newlines(s);
    if k < |s| {
      assert s[k..][0] == s[k];
      var u := s[k..];
      var token := UpToNewline(u);
      assert s[k..k + |token|] == u[..|token|];
      if |token| < |u| {
        assert u[|token|] == s[k + |token|] && u[|token| + 1..] == s[k + |token| + 1..];
      }
      assert TokenAt(s, k, token, NextToken(s).value.1);
    }
  }

  /** Tokens are kept one by one: trimmed, or not at all. */
  lemma {:induction false} KeptOneByOne(ts: seq<string>, more: seq<string>)
    ensures NonEmptyTrimmed(ts + more) == NonEmptyTrimmed(ts) + NonEmptyTrimmed(more)
    ensures forall l :: l in NonEmptyTrimmed(ts) ==> l != ""
    ensures forall i :: 0 <= i < |ts| && Trim(ts[i]) != "" ==> Trim(ts[i]) in NonEmptyTrimmed(ts)
    ensures forall l :: l in NonEmptyTrimmed(ts) ==> exists i :: 0 <= i < |ts| && Trim(ts[i]) == l
  {
    hide Trim;
    if ts == [] {
      assert ts + more == more;
    } else {
      assert (ts + more)[1..] == ts[1..] + more;
      KeptOneByOne(ts[1..], more);
    }
  }

  // ----- a printed line reads back -----

  lemma CodonRoundTrip(v: int)
    requires 0 <= v <= 256
    ensures ReadCodon(Codon(v)) == v
  {
    if v < 256 {
      HexRoundTrip(v);
      DigitRoundTrip(v / 16);
      assert Hex2(v)[0] != "G0"[0];
    }
  }

  lemma {:induction false} CodonAt(ys: seq<int>, i: nat)
    requires forall k :: 0 <= k < |ys| ==> 0 <= ys[k] <= 256
    requires i < |ys|
    ensures Codons(ys)[2 * i..2 * i + 2] == Codon(ys[i])
  {
    hide Codon;
    var tail := Codons(ys[1..]);
    if i > 0 {
      CodonAt(ys[1..], i - 1);
      SliceShift(Codon(ys[0]), tail, 2 * (i - 1), 2 * i);
    }
  }

  lemma SliceShift(head: string, rest: string, from: nat, to: nat)
    requires from <= to <= |rest|
    ensures (head + rest)[|head| + from..|head| + to] == rest[from..to]
  {
  }

  lemma {:induction false} CodonsSnoc(ys: seq<int>, y: int)
    requires forall k :: 0 <= k < |ys| ==> 0 <= ys[k] <= 256
    requires 0 <= y <= 256
    ensures Codons(ys + [y]) == Codons(ys) + Codon(y)
  {
    if ys == [] {
      assert Codons([y][1..]) == "";
    } else {
      assert (ys + [y])[1..] == ys[1..] + [y];
      CodonsSnoc(ys[1..], y);
    }
  }

  /** One more byte of the secret makes every line two characters longer. */
  lemma LineSnoc(polys: seq<Poly>, i: nat, x: int, t: int)
    requires i < |polys| && 0 <= x < 256 && 0 <= t < 256
    ensures Line(polys[..i + 1], x, t) == Line(polys[..i], x, t) + Codon(ShareAt(polys[i], x))
  {
    var ys := Column(polys[..i], x);
    assert Column(polys[..i + 1], x) == ys + [ShareAt(polys[i], x)];
    CodonsSnoc(ys, ShareAt(polys[i], x));
  }

  lemma HeaderReadsBack(polys: seq<Poly>, x: int, t: int)
    requires 0 <= x < 256 && 0 <= t < 256
    ensures Strtol16(Line(polys, x, t)[..2]) == x && Strtol16(Line(polys, x, t)[2..4]) == t
    ensures Line(polys, x, t)[4..6] == "AA"
  {
    hide Strtol16, Hex2;
    var l := Line(polys, x, t);
    assert l[..2] == Hex2(x) && l[2..4] == Hex2(t) && l[4..6] == "AA";
    HexRoundTrip(x);
    HexRoundTrip(t);
  }

  lemma LineReadsBack(polys: seq<Poly>, x: int, t: int)
    requires 0 <= x < 256 && 0 <= t < 256
    ensures Strtol16(Line(polys, x, t)[..2]) == x && Strtol16(Line(polys, x, t)[2..4]) == t
    ensures Line(polys, x, t)[4..6] == "AA"
    ensures forall i :: 0 <= i < |polys| ==>
      ReadCodon(Line(polys, x, t)[6 + 2 * i..8 + 2 * i]) == ShareAt(polys[i], x)
  {
    hide Strtol16, Hex2, ReadCodon, Codon;
    HeaderReadsBack(polys, x, t);
    var l, ys := Line(polys, x, t), Column(polys, x);
    forall i | 0 <= i < |polys| ensures ReadCodon(l[6 + 2 * i..8 + 2 * i]) == ShareAt(polys[i], x) {
      CodonAt(ys, i);
      assert l[6..] == Codons(ys);
      assert l[6 + 2 * i..8 + 2 * i] == Codons(ys)[2 * i..2 * i + 2];
      CodonRoundTrip(ys[i]);
    }
  }

  /** Two printed hexadecimal digits. */
  ghost predicate PrintsHex(s: string, v: int) {
    0 <= v < 256 && |s| == 2 && s[0] == "0123456789ABCDEF"[v / 16] && s[1] == "0123456789ABCDEF"[v % 16]
  }

  /** The text of one share: its number, the threshold, the two characters that other programs
      expect, and a pair for each value, 256 being "G0". */
  ghost predicate IsLine(s: string, number: int, t: int, ys: seq<int>) {
    && |s| == 6 + 2 * |ys|
    && PrintsHex(s[..2], number) && PrintsHex(s[2..4], t) && s[4] == 'A' && s[5] == 'A'
    && forall i :: 0 <= i < |ys| ==>
         if ys[i] == 256 then s[6 + 2 * i] == 'G' && s[7 + 2 * i] == '0'
         else PrintsHex(s[6 + 2 * i..8 + 2 * i], ys[i])
  }

  lemma LineIs(polys: seq<Poly>, x: int, t: int)
    requires 0 <= x < 256 && 0 <= t < 256
    ensures IsLine(Line(polys, x, t), x, t, Column(polys, x))
  {
    var l, ys := Line(polys, x, t), Column(polys, x);
    assert l[..2] == Hex2(x) && l[2..4] == Hex2(t) && l[4..6] == "AA" && l[6..] == Codons(ys);
    assert l[4] == l[4..6][0] && l[5] == l[4..6][1];
    forall i | 0 <= i < |ys|
      ensures if ys[i] == 256 then l[6 + 2 * i] == 'G' && l[7 + 2 * i] == '0'
        else PrintsHex(l[6 + 2 * i..8 + 2 * i], ys[i])
    {
      CodonAt(ys, i);
      assert l[6 + 2 * i..8 + 2 * i] == Codons(ys)[2 * i..2 * i + 2];
      assert l[6 + 2 * i] == Codons(ys)[2 * i..2 * i + 2][0] && l[7 + 2 * i] == Codons(ys)[2 * i..2 * i + 2][1];
    }
  }

  /** Characters that neither end a line nor are trimmed. */
  predicate Solid(s: string) {
    forall i :: 0 <= i < |s| ==> s[i] != '\n' && !IsTrimmed(s[i]) && s[i] != '\0'
  }

  lemma Hex2Solid(v: int)
    requires 0 <= v < 256
    ensures Solid(Hex2(v))
  {
    DigitRoundTrip(v / 16);
    DigitRoundTrip(v % 16);
  }

  lemma {:induction false} CodonsSolid(ys: seq<int>)
    requires forall k :: 0 <= k < |ys| ==> 0 <= ys[k] <= 256
    ensures Solid(Codons(ys))
  {
    if ys != [] {
      CodonsSolid(ys[1..]);
      if ys[0] < 256 { Hex2Solid(ys[0]); }
    }
  }

  lemma LineSolid(polys: seq<Poly>, x: int, t: int)
    requires 0 <= x < 256 && 0 <= t < 256
    ensures Solid(Line(polys, x, t))
  {
    Hex2Solid(x);
    Hex2Solid(t);
    CodonsSolid(Column(polys, x));
  }

  lemma {:induction false} UpToNewlineSolid(l: string, rest: string)
    requires Solid(l)
    ensures UpToNewline(l + "\n" + rest) == l
  {
    var s := l + "\n" + rest;
    if l != [] {
      assert s[1..] == l[1..] + "\n" + rest;
      UpToNewlineSolid(l[1..], rest);
    }
  }

  /** Newline framing: a text of solid, nonempty lines falls apart into exactly these lines. */
  lemma {:induction false} TokensOfLines(ls: seq<string>)
    requires forall j :: 0 <= j < |ls| ==> Solid(ls[j]) && ls[j] != ""
    ensures Tokens(JoinText(ls)) == ls
  {
    if ls != [] {
      var text, rest := JoinText(ls), JoinText(ls[1..]);
      assert text[0] == ls[0][0];
      assert SkipNewlines(text) == text;
      UpToNewlineSolid(ls[0], rest);
      assert text[|ls[0]| + 1..] == rest;
      TokensOfLines(ls[1..]);
    } else {
      assert SkipNewlines("") == "";
    }
  }

  lemma TrimSolid(s: string)
    requires Solid(s)
    ensures Trim(s) == s
  {
  }

  lemma {:induction false} AllKept(ts: seq<string>)
    requires forall j :: 0 <= j < |ts| ==> Solid(ts[j]) && ts[j] != ""
    ensures NonEmptyTrimmed(ts) == ts
  {
    if ts != [] {
      TrimSolid(ts[0]);
      AllKept(ts[1..]);
    }
  }

  lemma KeptLinesAre(text: string)
    requires Tokens(text) != []
    ensures KeptLines(text) == [Trim(Tokens(text)[0])] + NonEmptyTrimmed(Tokens(text)[1..])
  {
    hide Tokens, Trim, NonEmptyTrimmed;
  }

  lemma NoKeptLines()
    ensures KeptLines(JoinText([])) == []
  {
    TokensOfLines([]);
  }

  lemma HeadAndTail(ls: seq<string>)
    requires ls != []
    ensures [ls[0]] + ls[1..] == ls
  {
  }

  lemma KeptLinesOfLines(ls: seq<string>)
    requires forall j :: 0 <= j < |ls| ==> Solid(ls[j]) && ls[j] != ""
    ensures KeptLines(JoinText(ls)) == ls
  {
    hide *;
    TokensOfLines(ls);
    if ls == [] {
      NoKeptLines();
    } else {
      KeptLinesAre(JoinText(ls));
      TrimSolid(ls[0]);
      AllKept(ls[1..]);
      HeadAndTail(ls);
    }
  }

  // ----- the round trip -----

  /** `polys` are what `split_string` draws for `secret`: each byte with at most `t` coefficients. */
  ghost predicate Shares(polys: seq<Poly>, secret: seq<byte>, t: nat) {
    |polys| == |secret| && forall i :: 0 <= i < |secret| ==>
      1 <= |polys[i]| <= t && polys[i][0] == secret[i]
  }

  /** The chosen lines of a share list: `pick` holds share numbers, in any order. */
  function Picked(polys: seq<Poly>, t: int, pick: seq<int>): (ls: seq<string>)
    requires 0 <= t < 256 && forall j :: 0 <= j < |pick| ==> 1 <= pick[j] < 256
    ensures |ls| == |pick| && forall j :: 0 <= j < |pick| ==> ls[j] == Line(polys, pick[j], t)
  {
    seq(|pick|, j requires 0 <= j < |pick| => Line(polys, pick[j], t))
  }

  ghost predicate DistinctNumbers(pick: seq<int>) {
    && (forall j :: 0 <= j < |pick| ==> 1 <= pick[j] < 256)
    && (forall j, k :: 0 <= j < k < |pick| ==> pick[j] != pick[k])
  }

  lemma PickedColumns(polys: seq<Poly>, t: int, pick: seq<int>, i: nat)
    requires 0 <= t < 256 && forall j :: 0 <= j < |pick| ==> 1 <= pick[j] < 256
    requires i < |polys|
    ensures LineXs(Picked(polys, t, pick)) == pick
    ensures forall j :: 0 <= j < |pick| ==>
      LineYs(Picked(polys, t, pick), i)[j] == ShareAt(polys[i], pick[j])
  {
    forall j | 0 <= j < |pick|
      ensures LineXs(Picked(polys, t, pick))[j] == pick[j]
      ensures LineYs(Picked(polys, t, pick), i)[j] == ShareAt(polys[i], pick[j])
    {
      LineReadsBack(polys, pick[j], t);
    }
  }

  lemma PickedByte(polys: seq<Poly>, secret: seq<byte>, t: nat, pick: seq<int>, i: nat)
    requires Shares(polys, secret, t) && 1 <= t < 256 && DistinctNumbers(pick) && |pick| >= t
    requires i < |secret|
    ensures JoinedByte(Picked(polys, t, pick), i) == secret[i]
  {
    hide Line, Picked, JoinedSecret, Distinct, LineXs, LineYs, ShareAt, Cong, Shares, DistinctNumbers;
    SharesAt(polys, secret, t, i);
    NumbersAre(pick);
    var ls := Picked(polys, t, pick);
    PickedColumns(polys, t, pick, i);
    SharesRecoverSecret(polys[i], pick, LineYs(ls, i));
  }

  lemma SharesAt(polys: seq<Poly>, secret: seq<byte>, t: nat, i: nat)
    requires Shares(polys, secret, t) && i < |secret|
    ensures |polys| == |secret| && 1 <= |polys[i]| <= t && polys[i][0] == secret[i]
  {
  }

  lemma NumbersAre(pick: seq<int>)
    requires DistinctNumbers(pick)
    ensures Distinct(pick) && forall j :: 0 <= j < |pick| ==> 1 <= pick[j] < 256
  {
    SmallDistinct(pick);
  }

  /** Any t or more distinct lines, in any order, join to the secret. */
  lemma PickedLinesJoin(polys: seq<Poly>, secret: seq<byte>, t: nat, pick: seq<int>)
    requires Shares(polys, secret, t) && 1 <= t < 256 && DistinctNumbers(pick) && |pick| >= t
    ensures Framed(Picked(polys, t, pick))
    ensures JoinLines(Picked(polys, t, pick)) == Some(secret)
  {
    hide Line, JoinedByte, Shares;
    var ls := Picked(polys, t, pick);
    assert |polys| == |secret| by { ShapeOf(polys, secret, t); }
    forall i | 0 <= i < |secret| ensures JoinedByte(ls, i) == secret[i] {
      PickedByte(polys, secret, t, pick, i);
    }
    assert |ls[0]| == 6 + 2 * |secret|;
    assert JoinLines(ls).value == secret;
  }

  lemma ShapeOf(polys: seq<Poly>, secret: seq<byte>, t: nat)
    requires Shares(polys, secret, t)
    ensures |polys| == |secret|
  {
  }

  /** The text round trip, for the publisher's and the subscriber's variant alike: any m >= t
      lines with distinct share numbers in any order give back the secret. */
  lemma TextRoundTrip(polys: seq<Poly>, secret: seq<byte>, t: nat, pick: seq<int>)
    requires Shares(polys, secret, t) && 1 <= t < 256 && DistinctNumbers(pick) && |pick| >= t
    ensures var text := JoinText(Picked(polys, t, pick));
      && KeptLines(text) == Picked(polys, t, pick)
      && Framed(KeptLines(text)) && Framed(KeptLines(text)[..t])
      && ExtractFirst(text, t) == Some(secret)
      && ExtractAll(text) == Some(secret)
  {
    hide Line, JoinLines, Tokens, Trim, NonEmptyTrimmed, KeptLines, JoinText, Framed, Shares;
    var ls := Picked(polys, t, pick);
    forall j | 0 <= j < |ls| ensures Solid(ls[j]) && ls[j] != "" {
      LineSolid(polys, pick[j], t);
    }
    KeptLinesOfLines(ls);
    PickedLinesJoin(polys, secret, t, pick);
    assert ls[..t] == Picked(polys, t, pick[..t]);
    PickedLinesJoin(polys, secret, t, pick[..t]);
  }

  // ----- what the publisher generates -----

  /** A byte buffer read as a C string ends at its first zero. */
  function CBytes(s: seq<byte>): (r: seq<byte>)
    ensures |r| <= |s| && r == s[..|r|]
    ensures forall i :: 0 <= i < |r| ==> r[i] != 0
    ensures |r| < |s| ==> s[|r|] == 0
  {
    if s == [] || s[0] == 0 then [] else [s[0]] + CBytes(s[1..])
  }

  /** The random numbers a split consumes: `t - 1` nonnegative ones for every byte. */
  ghost predicate Randomness(random: seq<seq<int32>>, len: nat, t: int) {
    len <= |random| && forall i :: 0 <= i < len ==>
      |random[i]| == t - 1 && forall r :: r in random[i] ==> r >= 0
  }

  function Draws(secret: seq<byte>, random: seq<seq<int32>>): (polys: seq<Poly>)
    requires |secret| <= |random|
    ensures |polys| == |secret|
    ensures forall i :: 0 <= i < |secret| ==> polys[i] == Drawn(secret[i] as int32, random[i])
  {
    seq(|secret|, i requires 0 <= i < |secret| => Drawn(secret[i] as int32, random[i]))
  }

  /** The values of one share, byte for byte. */
  ghost function Values(secret: seq<byte>, random: seq<seq<int32>>, x: int): (ys: seq<int>)
    requires |secret| <= |random|
    ensures |ys| == |secret|
  {
    seq(|secret|, i requires 0 <= i < |secret| => Terms257(secret[i], random[i], x, |random[i]|) % 257)
  }

  lemma ColumnIs(secret: seq<byte>, random: seq<seq<int32>>, x: int)
    requires |secret| <= |random|
    ensures Column(Draws(secret, random), x) == Values(secret, random, x)
  {
    hide Terms257;
    forall i | 0 <= i < |secret| ensures Column(Draws(secret, random), x)[i] == Values(secret, random, x)[i] {
      ShareIs(secret[i] as int32, random[i], x);
    }
  }

  lemma DrawnLine(secret: seq<byte>, random: seq<seq<int32>>, x: int, t: int)
    requires |secret| <= |random| && 0 <= x < 256 && 0 <= t < 256
    ensures IsLine(Line(Draws(secret, random), x, t), x, t, Values(secret, random, x))
  {
    hide Line, IsLine;
    LineIs(Draws(secret, random), x, t);
    ColumnIs(secret, random, x);
  }

  lemma DrawsAreShares(secret: seq<byte>, random: seq<seq<int32>>, t: nat)
    requires Randomness(random, |secret|, t)
    ensures Shares(Draws(secret, random), secret, t)
  {
  }

  /** The C string in the buffer that `generate_share_strings` returns. Every line gets its own
      slot of a fixed size for `blockSize` bytes, so lines that are shorter, because the string
      was, leave a NUL behind the first line that ends the text. */
  function GeneratedText(str: seq<byte>, blockSize: nat, random: seq<seq<int32>>, n: nat, t: int): string
    requires |str| <= |random| && 1 <= n < 256 && 0 <= t < 256
  {
    var ls := Lines(Draws(str, random), n, t);
    if |str| == blockSize then JoinText(ls) else ls[0] + "\n"
  }

  lemma {:induction false} JoinTextSnoc(ls: seq<string>, l: string)
    ensures JoinText(ls + [l]) == JoinText(ls) + (l + "\n")
  {
    if ls == [] {
      SingleLine([l]);
    } else {
      assert (ls + [l])[1..] == ls[1..] + [l];
      JoinTextSnoc(ls[1..], l);
    }
  }

  lemma SlotStart(i: nat, size: nat)
    requires i > 0
    ensures 0 <= (i - 1) * size && i * size == (i - 1) * size + size && (i + 1) * size == i * size + size
  {
  }

  /** Lines of equal length stand in slots of equal size. */
  lemma {:induction false} SlotOfLine(ls: seq<string>, size: nat, i: nat)
    requires i < |ls| && forall j :: 0 <= j < |ls| ==> |ls[j]| + 1 == size
    ensures 0 <= i * size && (i + 1) * size <= |JoinText(ls)|
    ensures JoinText(ls)[i * size..(i + 1) * size] == ls[i] + "\n"
  {
    if i > 0 {
      SlotOfLine(ls[1..], size, i - 1);
      SlotStart(i, size);
      SliceShift(ls[0] + "\n", JoinText(ls[1..]), (i - 1) * size, i * size);
    }
  }

  lemma {:induction false} JoinTextNoNul(ls: seq<string>)
    requires forall j :: 0 <= j < |ls| ==> Solid(ls[j])
    ensures '\0' !in JoinText(ls)
  {
    if ls != [] {
      JoinTextNoNul(ls[1..]);
    }
  }

  lemma {:induction false} NoZeroByte(s: seq<byte>)
    ensures CBytes(s) == s <==> 0 !in s
  {
    if s != [] && s[0] != 0 {
      NoZeroByte(s[1..]);
      assert s == [s[0]] + s[1..];
    }
  }

  lemma LinesArePicked(polys: seq<Poly>, n: nat, t: int)
    requires n < 256 && 0 <= t < 256
    ensures Lines(polys, n, t) == Picked(polys, t, seq(n, i requires 0 <= i < n => i + 1))
  {
  }

  /** The generated text is framed whatever the block holds. */
  lemma GeneratedLines(secret: seq<byte>, random: seq<seq<int32>>, n: nat, t: nat)
    requires 1 <= t <= n < 256 && Randomness(random, |CBytes(secret)|, t)
    ensures var ls := Lines(Draws(CBytes(secret), random), n, t);
      KeptLines(GeneratedText(CBytes(secret), |secret|, random, n, t)) ==
      if |CBytes(secret)| == |secret| then ls else ls[..1]
  {
    var polys := Draws(CBytes(secret), random);
    var ls := Lines(polys, n, t);
    hide Line, KeptLines, Solid;
    forall j | 0 <= j < |ls| ensures Solid(ls[j]) && ls[j] != "" {
      LineSolid(polys, j + 1, t);
    }
    if |CBytes(secret)| == |secret| {
      KeptLinesOfLines(ls);
    } else {
      KeptLinesOfLines(ls[..1]);
      SingleLine(ls[..1]);
    }
  }

  lemma SingleLine(ls: seq<string>)
    requires |ls| == 1
    ensures JoinText(ls) == ls[0] + "\n"
  {
    assert ls[1..] == [];
    assert JoinText(ls[1..]) == "";
  }

  /** Splitting a block into text and extracting it again returns the block if and only if the
      block holds no zero byte: `split_string` measures the block with `strlen`. */
  lemma GenerateExtract(secret: seq<byte>, random: seq<seq<int32>>, n: nat, t: nat)
    requires 1 <= t <= n < 256 && Randomness(random, |CBytes(secret)|, t)
    ensures var text := GeneratedText(CBytes(secret), |secret|, random, n, t);
      && (|KeptLines(text)| >= t ==> Framed(KeptLines(text)[..t]))
      && (ExtractFirst(text, t) == Some(secret) <==> 0 !in secret)
  {
    hide Line, Lines, Picked, KeptLines, JoinLines, Framed, Draws, GeneratedText, Shares, CBytes;
    var prefix := CBytes(secret);
    var polys := Draws(prefix, random);
    var pick := seq(n, i requires 0 <= i < n => i + 1);
    GeneratedLines(secret, random, n, t);
    NoZeroByte(secret);
    assert |prefix| == |secret| <==> prefix == secret;
    LinesArePicked(polys, n, t);
    DrawsAreShares(prefix, random, t);
    FirstLinesJoin(polys, prefix, t, pick);
    FirstOf(Picked(polys, t, pick), t);
  }

  lemma FirstOf(ls: seq<string>, t: nat)
    requires 1 <= t <= |ls|
    ensures t == 1 ==> ls[..1][..t] == ls[..t]
  {
  }

  lemma FirstLinesJoin(polys: seq<Poly>, secret: seq<byte>, t: nat, pick: seq<int>)
    requires Shares(polys, secret, t) && 1 <= t < 256 && DistinctNumbers(pick) && |pick| >= t
    ensures Framed(Picked(polys, t, pick)[..t]) && JoinLines(Picked(polys, t, pick)[..t]) == Some(secret)
    ensures t == 1 ==> Framed(Picked(polys, t, pick)[..1])
  {
    assert Picked(polys, t, pick)[..t] == Picked(polys, t, pick[..t]);
    PickedLinesJoin(polys, secret, t, pick[..t]);
  }
}
