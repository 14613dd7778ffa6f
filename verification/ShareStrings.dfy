/** The share-string functions of the publisher and the subscriber, on character buffers, each
    proved against the value-level functions of ShareText. */
module ShareStrings {
  import opened Options
  import opened CArithmetic
  import opened CStrings
  import opened Field257
  import opened SecretSharing
  import opened Polynomials
  import opened HexText
  import opened ShareText

  // ----- taking a text apart in place -----

  /** `strspn(str, "\n")`: how many newlines stand at `from`. */
  method Strspn(buf: array<char>, from: nat) returns (l: nat)
    requires from <= buf.Length && '\0' in buf[from..]
    ensures from + l < buf.Length && '\0' in buf[from + l..]
    ensures CString(buf[from + l..]) == SkipNewlines(CString(buf[from..]))
    ensures buf[from + l] != '\n'
  {
    hide CString, SkipNewlines;
    l := 0;
    while buf[from + l] == '\n'
      invariant from + l < buf.Length && '\0' in buf[from + l..]
      invariant SkipNewlines(CString(buf[from + l..])) == SkipNewlines(CString(buf[from..]))
      decreases buf.Length - l
    {
      assert buf[from + l..] == ['\n'] + buf[from + l + 1..];
      SkipOne(buf[from + l + 1..]);
      l := l + 1;
    }
    assert buf[from + l..][0] == buf[from + l];
    NothingToSkip(buf[from + l..]);
  }

  lemma SkipOne(rest: string)
    ensures SkipNewlines(CString(['\n'] + rest)) == SkipNewlines(CString(rest))
    ensures '\0' in ['\n'] + rest ==> '\0' in rest
  {
    assert (['\n'] + rest)[1..] == rest;
    assert (['\n'] + CString(rest))[1..] == CString(rest);
  }

  lemma NothingToSkip(s: string)
    requires s != "" && s[0] != '\n'
    ensures SkipNewlines(CString(s)) == CString(s)
  {
  }

  /** `strcspn(str, "\n")`: how many characters stand before the next newline or the end. */
  method Strcspn(buf: array<char>, from: nat) returns (l: nat)
    requires from <= buf.Length && '\0' in buf[from..]
    ensures l == |UpToNewline(CString(buf[from..]))|
    ensures from + l < buf.Length
    ensures buf[from + l] == (if l < |CString(buf[from..])| then '\n' else '\0')
  {
    ghost var s := buf[from..];
    ghost var u := CString(s);
    ghost var token := UpToNewline(u);
    CStringEmbedded(s);
    l := 0;
    while buf[from + l] != '\n' && buf[from + l] != '\0'
      invariant l <= |token|
      decreases |token| - l
    {
      assert buf[from + l] == s[l];
      l := l + 1;
    }
    assert s[l] == buf[from + l];
  }

  /** `strtok_rr` with delimiter newline, from index `start` (the argument, or the saved
      position). A token is ended by overwriting its delimiter with NUL. */
  method StrtokRR(buf: array<char>, start: nat) returns (token: Option<nat>, next: nat)
    requires start <= buf.Length && '\0' in buf[start..]
    modifies buf
    ensures match NextToken(old(CString(buf[start..])))
      case None => token == None && next == start && buf[..] == old(buf[..])
      case Some((tok, rest)) =>
        && token.Some? && start <= token.value < next <= buf.Length
        && '\0' in buf[token.value..] && CString(buf[token.value..]) == tok
        && '\0' in buf[next..] && CString(buf[next..]) == rest
    ensures var text := old(CString(buf[start..]));
      && (token == None ==> forall i :: 0 <= i < |text| ==> text[i] == '\n')
      && (token != None ==>
           && start <= token.value < next <= buf.Length
           && IsToken(text, CString(buf[token.value..]), CString(buf[next..])))
  {
    hide *;
    ghost var text := CString(buf[start..]);
    NextTokenMeans(text);
    NextTokenParts(text);
    var skip := Strspn(buf, start);
    var str := start + skip;
    assert buf[str..][0] == buf[str];
    FirstCharacter(buf[str..]);
    if buf[str] == '\0' {
      return None, start;
    }
    var l := Strcspn(buf, str);
    next := Cut(buf, str, l);
    token := Some(str);
  }

  lemma NextTokenParts(s: string)
    ensures var u := SkipNewlines(s);
      var token := UpToNewline(u);
      NextToken(s) ==
        if u == "" then None else Some((token, if |token| < |u| then u[|token| + 1..] else ""))
    ensures var u := SkipNewlines(s); UpToNewline(u) == u[..|UpToNewline(u)|]
    ensures SkipNewlines(s) != "" ==> UpToNewline(SkipNewlines(s)) != ""
  {
  }

  lemma FirstCharacter(s: string)
    requires s != ""
    ensures CString(s) == "" <==> s[0] == '\0'
  {
  }

  lemma EmptyCString(s: string)
    requires s != "" && s[0] == '\0'
    ensures CString(s) == ""
  {
  }

  lemma CutFront(s: string, l: nat)
    requires l < |s| && forall i :: 0 <= i < l ==> s[i] != '\0'
    ensures '\0' in s[l := '\0'] && CString(s[l := '\0']) == s[..l]
  {
    hide CString;
    var cut := s[l := '\0'];
    assert cut[l] == '\0' && cut[..l] == s[..l];
    CStringEnds(cut, l);
  }

  lemma CutRest(s: string, l: nat)
    requires '\0' in s && l < |CString(s)|
    ensures l < |s| && s[l] != '\0' && '\0' in s[l + 1..] && CString(s[l + 1..]) == CString(s)[l + 1..]
  {
    hide CString;
    CStringEmbedded(s);
    CStringDrop(s, l + 1);
    var rest, n := s[l + 1..], |CString(s)| - l - 1;
    assert rest[n] == s[|CString(s)|] == '\0';
  }

  /** The end of `strtok_rr`: terminate the token and step over its delimiter, if any. */
  method Cut(buf: array<char>, str: nat, l: nat) returns (next: nat)
    requires str + l < buf.Length && '\0' in buf[str..] && l > 0
    requires l <= |CString(buf[str..])|
    modifies buf
    ensures str < next <= buf.Length
    ensures '\0' in buf[str..] && CString(buf[str..]) == old(CString(buf[str..]))[..l]
    ensures '\0' in buf[next..]
    ensures CString(buf[next..]) ==
      var u := old(CString(buf[str..])); if l < |u| then u[l + 1..] else ""
  {
    hide CString;
    ghost var s := buf[str..];
    assert s[l] == buf[str + l];
    CutFront(s, l);
    if buf[str + l] != '\0' {
      CutRest(s, l);
      buf[str + l] := '\0';
      next := str + l + 1;
      assert buf[next..] == s[l + 1..];
    } else {
      next := str + l;
      assert buf[next..] == s[l..];
      EmptyCString(s[l..]);
      assert s[l..][0] == '\0';
    }
    assert buf[str..] == s[l := '\0'];
  }

  /** `trim_trailing_whitespace`. */
  method TrimTrailingWhitespace(str: array<char>)
    requires '\0' in str[..]
    modifies str
    ensures '\0' in str[..] && CString(str[..]) == Trim(old(CString(str[..])))
    ensures IsTrimOf(old(CString(str[..])), CString(str[..]))
  {
    TrimMeans(CString(str[..]));
    assert str[0..] == str[..];
    var l := StrLen(str, 0);
    while l > 0 && IsTrimmed(str[l - 1])
      invariant '\0' in str[..] && l == |CString(str[..])| < str.Length && str[l] == '\0'
      invariant Trim(CString(str[..])) == Trim(old(CString(str[..])))
    {
      l := Shorten(str, l);
    }
  }

  /** One pass of the loop: overwrite the last character with NUL and measure again. */
  method Shorten(str: array<char>, len: nat) returns (l: nat)
    requires '\0' in str[..] && 0 < len == |CString(str[..])|
    modifies str
    ensures '\0' in str[..] && l == len - 1 < str.Length && str[l] == '\0'
    ensures CString(str[..]) == old(CString(str[..]))[..len - 1]
  {
    hide CString;
    ghost var s := str[..];
    str[len - 1] := '\0';
    assert str[0..] == str[..];
    assert str[..][len - 1] == '\0';
    assert str[..][..len - 1] == s[..len - 1] == CString(s)[..len - 1];
    CStringEnds(str[..], len - 1);
    l := StrLen(str, 0);
  }

  // ----- joining -----

  /** The first buffers of `shares` hold the lines `ls`. */
  ghost predicate HoldLines(shares: seq<array<char>>, ls: seq<string>)
    reads shares
  {
    |ls| <= |shares| && forall j :: 0 <= j < |ls| ==> Holds(shares[j], ls[j])
  }

  /** The share numbers at the front of the lines. */
  method ReadNumbers(shares: seq<array<char>>, n: int32, ghost ls: seq<string>) returns (x: array<int32>)
    requires n as int == |ls| && HoldLines(shares, ls) && forall j :: 0 <= j < |ls| ==> |ls[j]| >= 6
    ensures fresh(x) && x.Length == |ls|
    ensures forall j :: 0 <= j < |ls| ==> x[j] as int == LineXs(ls)[j] && -256 <= x[j] <= 256
    ensures forall j :: 0 <= j < |ls| ==> x[j] as int == Strtol16(ls[j][..2])
  {
    hide Strtol16;
    x := new int32[n];
    var i: int32 := 0;
    while i < n
      invariant 0 <= i <= n
      invariant forall j :: 0 <= j < i as int ==> x[j] as int == LineXs(ls)[j] && -256 <= x[j] <= 256
    {
      var codon := [shares[i][0], shares[i][1]];
      assert Holds(shares[i], ls[i]) && codon == ls[i][..2];
      StrtolRange(codon);
      x[i] := Strtol16(codon) as int32;
      i := i + 1;
    }
  }

  lemma LineYsAre(ls: seq<string>, i: nat)
    requires forall j :: 0 <= j < |ls| ==> |ls[j]| >= 8 + 2 * i
    ensures forall j :: 0 <= j < |ls| ==> LineYs(ls, i)[j] == ReadCodon(ls[j][6 + 2 * i..8 + 2 * i])
  {
    hide ReadCodon;
  }

  lemma ReadCodonIs(codon: string)
    ensures ReadCodon(codon) == if codon == "G0" then 256 else Strtol16(codon)
  {
    hide Strtol16;
  }

  lemma CodonRange(c: string)
    requires |c| == 2
    ensures -256 <= ReadCodon(c) <= 256
  {
    StrtolRange(c);
  }

  lemma CodonOf(buf: array<char>, line: string, i: nat)
    requires Holds(buf, line) && |line| >= 8 + 2 * i
    ensures [buf[6 + i * 2], buf[6 + i * 2 + 1]] == line[6 + 2 * i..8 + 2 * i]
  {
    assert line[6 + i * 2] == buf[6 + i * 2] && line[6 + i * 2 + 1] == buf[6 + i * 2 + 1];
  }

  /** The points of the i-th character: share number and value, alternating. */
  method CollectChunks(shares: seq<array<char>>, x: array<int32>, n: int32, i: nat, ghost ls: seq<string>)
    returns (chunks: array<int32>)
    requires n <= 0x3FFF_FFFF && n as int == x.Length == |ls| && HoldLines(shares, ls)
    requires forall j :: 0 <= j < |ls| ==> |ls[j]| >= 8 + 2 * i
    requires forall j :: 0 <= j < |ls| ==> -256 <= x[j] <= 256
    ensures fresh(chunks) && chunks.Length == 2 * |ls|
    ensures forall j :: 0 <= j < |ls| ==> chunks[2 * j] == x[j] && chunks[2 * j + 1] as int == LineYs(ls, i)[j]
    ensures forall k :: 0 <= k < 2 * |ls| ==> -256 <= chunks[k] <= 256
    ensures forall j :: 0 <= j < |ls| ==>
      var codon := ls[j][6 + 2 * i..8 + 2 * i];
      chunks[2 * j + 1] as int == if codon == "G0" then 256 else Strtol16(codon)
  {
    hide Strtol16, ReadCodon, Holds;
    LineYsAre(ls, i);
    forall codon: string ensures ReadCodon(codon) == if codon == "G0" then 256 else Strtol16(codon) {
      ReadCodonIs(codon);
    }
    chunks := new int32[2 * n as int];
    var j := 0;
    while j < n as int
      invariant 0 <= j <= n as int
      invariant HoldLines(shares, ls)
      invariant forall k :: 0 <= k < j ==> chunks[2 * k] == x[k] && chunks[2 * k + 1] as int == LineYs(ls, i)[k]
      invariant forall k :: 0 <= k < 2 * j ==> -256 <= chunks[k] <= 256
    {
      var y := ReadChunk(shares[j], i, ls[j]);
      chunks[j * 2] := x[j];
      chunks[j * 2 + 1] := y;
      j := j + 1;
    }
  }

  method ReadChunk(share: array<char>, i: nat, ghost line: string) returns (y: int32)
    requires Holds(share, line) && |line| >= 8 + 2 * i
    ensures y as int == ReadCodon(line[6 + 2 * i..8 + 2 * i]) && -256 <= y <= 256
  {
    CodonOf(share, line, i);
    var codon := [share[6 + i * 2], share[6 + i * 2 + 1]];
    CodonRange(codon);
    y := if codon == "G0" then 256 else Strtol16(codon) as int32;
  }

  lemma ChunksAreLines(ls: seq<string>, chunks: seq<int32>, x: seq<int32>, i: nat)
    requires |chunks| == 2 * |ls| && |x| == |ls|
    requires forall j :: 0 <= j < |ls| ==> |ls[j]| >= 8 + 2 * i
    requires forall j :: 0 <= j < |ls| ==> chunks[2 * j] == x[j] && x[j] as int == LineXs(ls)[j]
    requires forall j :: 0 <= j < |ls| ==> chunks[2 * j + 1] as int == LineYs(ls, i)[j]
    ensures Xs(chunks, |ls|) == LineXs(ls) && Ys(chunks, |ls|) == LineYs(ls, i)
  {
    hide Strtol16, ReadCodon;
  }

  /** The value of the i-th character. */
  method JoinCharacter(shares: seq<array<char>>, x: array<int32>, n: int32, i: nat, ghost ls: seq<string>)
    returns (letter: byte)
    requires n <= 0x3FFF_FFFF && n as int == x.Length == |ls| && HoldLines(shares, ls)
    requires forall j :: 0 <= j < |ls| ==> |ls[j]| >= 8 + 2 * i
    requires forall j :: 0 <= j < |ls| ==> x[j] as int == LineXs(ls)[j] && -256 <= x[j] <= 256
    ensures letter == JoinedByte(ls, i)
  {
    hide Strtol16, ReadCodon, JoinedSecret, LineXs, LineYs, Holds;
    var chunks := CollectChunks(shares, x, n, i, ls);
    ChunksAreLines(ls, chunks[..], x[..], i);
    var joined := JoinShares(chunks, n);
    letter := joined as int % 256;
  }

  /** `join_strings` if no share is NULL: NULL for no shares, otherwise one byte per character pair of
      the first. */
  method JoinHeld(shares: seq<array<char>>, n: int32, ghost ls: seq<string>) returns (result: array?<byte>)
    requires n <= 0x3FFF_FFFF && n as int == |ls| && HoldLines(shares, ls) && Framed(ls)
    ensures JoinLines(ls) == if result == null then None else Some(result[..])
    ensures result != null ==> fresh(result)
  {
    hide Strtol16, ReadCodon, JoinedByte, LineXs, CString;
    if n == 0 {
      return null;
    }
    assert Holds(shares[0], ls[0]) && shares[0][0..] == shares[0][..];
    HeldString(shares[0], ls[0]);
    var strlen := StrLen(shares[0], 0);
    var len := (strlen - 6) / 2;
    var x := ReadNumbers(shares, n, ls);
    result := new byte[len];
    var i := 0;
    while i < len
      invariant 0 <= i <= len
      invariant HoldLines(shares, ls)
      invariant forall j :: 0 <= j < |ls| ==> x[j] as int == LineXs(ls)[j] && -256 <= x[j] <= 256
      invariant forall k :: 0 <= k < i ==> result[k] == JoinedByte(ls, k)
    {
      var letter := JoinCharacter(shares, x, n, i, ls);
      result[i] := letter;
      i := i + 1;
    }
    assert JoinLines(ls).value == result[..];
  }

  /** One byte for each pair of characters in the first line: what interpolation at 0 makes of the
      pairs in this place, as eight bits. */
  ghost predicate JoinsTo(ls: seq<string>, secret: seq<byte>)
    requires |ls| > 0
  {
    Framed(ls) && |secret| == (|ls[0]| - 6) / 2 && forall i: nat :: i < |secret| ==>
      var joined := Lagrange(LineXs(ls), LineYs(ls, i), |ls|, 0) % 257;
      secret[i] == if joined == 256 then 0 else joined
  }

  lemma JoinLinesMeans(ls: seq<string>)
    ensures Framed(ls) && |ls| > 0 ==> JoinLines(ls).Some? && JoinsTo(ls, JoinLines(ls).value)
    ensures Framed(ls) ==> (JoinLines(ls) == None <==> ls == [])
  {
    hide Lagrange, Strtol16;
  }

  /** `join_strings`: NULL as well if one of the shares is. */
  method JoinStrings(shares: seq<array?<char>>, n: int32, ghost ls: seq<string>) returns (result: array?<byte>)
    requires n <= 0x3FFF_FFFF && n as int == |ls| <= |shares|
    requires forall j :: 0 <= j < |ls| && shares[j] != null ==> Holds(shares[j], ls[j])
    requires null !in shares[..n] ==> Framed(ls)
    ensures
      if null in shares[..n] then result == null
      else JoinLines(ls) == if result == null then None else Some(result[..])
    ensures result != null ==> fresh(result)
    ensures result == null <==> null in shares[..n] || n == 0
    ensures result != null ==> |ls| > 0 && JoinsTo(ls, result[..])
  {
    JoinLinesMeans(ls);
    hide JoinsTo, Holds, Framed, JoinLines;
    var held: seq<array<char>> := [];
    var j := 0;
    while j < n as int
      invariant 0 <= j == |held| <= |ls| && HoldLines(held, ls[..j])
      invariant forall k :: 0 <= k < j ==> shares[k] == held[k]
    {
      if shares[j] == null {
        return null;
      }
      held := held + [shares[j]];
      j := j + 1;
    }
    assert ls[..|ls|] == ls;
    result := JoinHeld(held, n, ls);
  }

  // ----- extraction -----

  /** `strdup` of a token, then `trim_trailing_whitespace`. */
  method CopyTrimmed(text: array<char>, from: nat) returns (share: array<char>)
    requires from <= text.Length && '\0' in text[from..]
    ensures fresh(share) && Holds(share, Trim(CString(text[from..])))
  {
    hide CString, Trim;
    ghost var token := CString(text[from..]);
    share := StrDup(text, from);
    HeldString(share, token);
    TrimTrailingWhitespace(share);
    StringHeld(share);
  }

  /** One further token in the loop of `extract_secret_from_share_strings`. */
  lemma KeptStep(rest: string, ls: seq<string>)
    ensures match NextToken(rest)
      case None => NonEmptyTrimmed(Tokens(rest)) == []
      case Some((token, next)) =>
        ls + NonEmptyTrimmed(Tokens(rest)) ==
        (if Trim(token) == "" then ls else ls + [Trim(token)]) + NonEmptyTrimmed(Tokens(next))
  {
    hide Trim, NextToken;
    match NextToken(rest)
    case None =>
    case Some((token, next)) =>
      assert Tokens(rest)[0] == token && Tokens(rest)[1..] == Tokens(next);
  }

  /** What `strtok_rr` left behind: the token it found in `rest`, and the text after it. */
  ghost predicate Pending(temp: array<char>, share: Option<nat>, saveptr: nat, rest: string)
    reads temp
  {
    match share
    case None => NextToken(rest) == None
    case Some(start) =>
      && start <= temp.Length && '\0' in temp[start..]
      && saveptr <= temp.Length && '\0' in temp[saveptr..]
      && NextToken(rest) == Some((CString(temp[start..]), CString(temp[saveptr..])))
  }

  method NextShare(temp: array<char>, start: nat) returns (share: Option<nat>, saveptr: nat)
    requires start <= temp.Length && '\0' in temp[start..]
    modifies temp
    ensures Pending(temp, share, saveptr, old(CString(temp[start..])))
  {
    hide CString, NextToken;
    share, saveptr := StrtokRR(temp, start);
  }

  /** The body of the collecting loop: keep the trimmed token unless nothing is left of it. */
  method KeepShare(temp: array<char>, start: nat, shares: seq<array<char>>, ghost ls: seq<string>)
    returns (kept: seq<array<char>>)
    requires start <= temp.Length && '\0' in temp[start..]
    requires |shares| == |ls| && HoldLines(shares, ls)
    ensures var token := Trim(CString(temp[start..]));
      var ls' := if token == "" then ls else ls + [token];
      |kept| == |ls'| && HoldLines(kept, ls')
    ensures forall a :: a in kept ==> a in shares || fresh(a)
  {
    hide CString, Trim, Holds;
    ghost var token := Trim(CString(temp[start..]));
    var next := CopyTrimmed(temp, start);
    var l := HeldLength(next, token);
    kept := if l == 0 then shares else shares + [next];
  }

  /** The collecting loop of `extract_secret_from_share_strings`, with room for 255 shares.
      `input` must hold some character besides newlines, or `strdup` would be handed NULL. */
  method CollectShares(input: array<char>, ghost text: string) returns (shares: seq<array<char>>)
    requires Holds(input, text) && 0 < |Tokens(text)| <= 255
    ensures |shares| == |KeptLines(text)| && HoldLines(shares, KeptLines(text))
    ensures forall a :: a in shares ==> fresh(a)
  {
    hide CString, Trim, NextToken, Holds, Tokens, KeptLines;
    HeldString(input, text);
    assert input[0..] == input[..];
    var temp := StrDup(input, 0);
    HeldString(temp, text);
    assert temp[0..] == temp[..];
    var share, saveptr := NextShare(temp, 0);
    FirstToken(text);
    ghost var rest := CString(temp[saveptr..]);
    var first := CopyTrimmed(temp, share.value);
    shares := [first];
    ghost var ls := [Trim(CString(temp[share.value..]))];
    share, saveptr := NextShare(temp, saveptr);
    while share.Some?
      invariant fresh(temp) && (forall a :: a in shares ==> fresh(a)) && temp !in shares
      invariant |ls| == |shares| && HoldLines(shares, ls)
      invariant Pending(temp, share, saveptr, rest)
      invariant KeptLines(text) == ls + NonEmptyTrimmed(Tokens(rest))
      decreases |rest|, share.Some?
    {
      ghost var token := Trim(CString(temp[share.value..]));
      KeptStep(rest, ls);
      shares := KeepShare(temp, share.value, shares, ls);
      ls := if token == "" then ls else ls + [token];
      rest := CString(temp[saveptr..]);
      share, saveptr := NextShare(temp, saveptr);
    }
    KeptStep(rest, ls);
  }

  lemma FirstToken(text: string)
    requires Tokens(text) != []
    ensures NextToken(text).Some?
    ensures Tokens(text)[0] == NextToken(text).value.0
    ensures KeptLines(text) == [Trim(Tokens(text)[0])] + NonEmptyTrimmed(Tokens(NextToken(text).value.1))
  {
    hide Trim, NextToken;
  }

  method HeldLength(buf: array<char>, ghost s: string) returns (l: nat)
    requires Holds(buf, s)
    ensures l == |s|
  {
    HeldString(buf, s);
    assert buf[0..] == buf[..];
    l := StrLen(buf, 0);
  }

  /** `extract_secret_from_share_strings` of the publisher. */
  method ExtractSecretFirst(input: array<char>, t: int32, ghost text: string) returns (secret: array?<byte>)
    requires Holds(input, text) && 0 < |Tokens(text)| <= 255 && 0 <= t
    requires |KeptLines(text)| >= t as int ==> Framed(KeptLines(text)[..t])
    ensures ExtractFirst(text, t as int) == if secret == null then None else Some(secret[..])
    ensures secret == null <==> |KeptLines(text)| < t as int || t == 0
    ensures secret != null ==> JoinLines(KeptLines(text)[..t]) == Some(secret[..])
  {
    hide Tokens, Trim, JoinLines, Framed, Holds, NonEmptyTrimmed;
    var shares := CollectShares(input, text);
    KeptFewer(Tokens(text)[1..]);
    if |shares| < t as int {
      return null;
    }
    secret := JoinStrings(shares, t, KeptLines(text)[..t]);
  }

  /** `extract_secret_from_share_strings` of the subscriber. */
  method ExtractSecretAll(input: array<char>, ghost text: string) returns (secret: array?<byte>)
    requires Holds(input, text) && 0 < |Tokens(text)| <= 255 && Framed(KeptLines(text))
    ensures ExtractAll(text) == if secret == null then None else Some(secret[..])
    ensures secret != null && JoinLines(KeptLines(text)) == Some(secret[..])
  {
    hide Tokens, Trim, JoinLines, Framed, Holds, NonEmptyTrimmed;
    var shares := CollectShares(input, text);
    KeptFewer(Tokens(text)[1..]);
    secret := JoinStrings(shares, |shares| as int32, KeptLines(text));
  }

  lemma {:induction false} KeptFewer(ts: seq<string>)
    ensures |NonEmptyTrimmed(ts)| <= |ts|
  {
    if ts != [] {
      KeptFewer(ts[1..]);
    }
  }

  // ----- splitting -----

  /** `sprintf(buf + at, ...)`: the printed text and its NUL; nothing else changes. */
  method Sprintf(buf: array<char>, at: nat, text: string)
    requires at + |text| < buf.Length
    modifies buf
    ensures buf[..at] == old(buf[..at])
    ensures buf[at..at + |text|] == text && buf[at + |text|] == '\0'
    ensures buf[at + |text| + 1..] == old(buf[at + |text| + 1..])
  {
    forall i | 0 <= i < |text| { buf[at + i] := text[i]; }
    buf[at + |text|] := '\0';
  }

  /** Print one more value at the end of a share. */
  method PrintCodon(share: array<char>, i: nat, chunk: int32, ghost line: string)
    requires 0 <= chunk <= 256 && Holds(share, line) && |line| == 6 + 2 * i && |line| + 2 < share.Length
    modifies share
    ensures Holds(share, line + Codon(chunk as int))
  {
    var text := if chunk == 256 then "G0" else Hex2(chunk as int);
    CodonsSolid([chunk as int]);
    assert Codons([chunk as int]) == Codon(chunk as int) + Codons([]);
    forall k | 0 <= k < 2 ensures text[k] != '\0' {
      assert text[k] == Codons([chunk as int])[k];
    }
    Sprintf(share, 6 + i * 2, text);
    assert share[..|line| + 2] == share[..|line|] + share[|line|..|line| + 2];
  }

  ghost predicate SeparateBuffers(shares: seq<array<char>>, size: nat)
  {
    && (forall r :: 0 <= r < |shares| ==> shares[r].Length == size)
    && (forall r, q :: 0 <= r < q < |shares| ==> shares[r] != shares[q])
  }

  /** The buffers with their headers: number, threshold and the two compatibility characters. */
  method ShareHeaders(n: nat, t: int, len: nat) returns (shares: seq<array<char>>)
    requires n < 256 && 0 <= t < 256
    ensures |shares| == n && SeparateBuffers(shares, 2 * len + 7)
    ensures forall r :: 0 <= r < n ==> fresh(shares[r])
    ensures forall r :: 0 <= r < n ==> Holds(shares[r], Line([], r + 1, t))
  {
    hide Holds, Line;
    shares := [];
    var i := 0;
    while i < n
      invariant 0 <= i <= n && |shares| == i && SeparateBuffers(shares, 2 * len + 7)
      invariant forall r :: 0 <= r < i ==> fresh(shares[r])
      invariant forall r :: 0 <= r < i ==> Holds(shares[r], Line([], r + 1, t))
    {
      var share := ShareHeader(i + 1, t, len);
      shares := shares + [share];
      i := i + 1;
    }
  }

  method ShareHeader(x: int, t: int, len: nat) returns (share: array<char>)
    requires 0 <= x < 256 && 0 <= t < 256
    ensures fresh(share) && share.Length == 2 * len + 7 && Holds(share, Line([], x, t))
  {
    share := new char[2 * len + 7];
    LineSolid([], x, t);
    assert Line([], x, t) == Hex2(x) + Hex2(t) + "AA";
    Sprintf(share, 0, Hex2(x) + Hex2(t) + "AA");
    assert share[0..6] == share[..6];
  }

  /** C reads the secret through signed `char`s and moves negative ones back to 128..255. */
  function SignedChar(b: byte): int {
    if b < 128 then b else b - 256
  }

  /** All shares of one byte, printed at the end of the n lines. */
  method PrintChunks(shares: seq<array<char>>, i: nat, n: int32, t: int32, chunks: array<int32>, ghost polys: seq<Poly>)
    requires 0 <= n < 256 && 1 <= t < 256 && |shares| == n as int == chunks.Length && i < |polys|
    requires SeparateBuffers(shares, 2 * |polys| + 7)
    requires forall r :: 0 <= r < |shares| ==> Holds(shares[r], Line(polys[..i], r + 1, t as int))
    requires forall x :: 0 <= x < chunks.Length ==> chunks[x] as int == ShareAt(polys[i], x + 1)
    modifies shares
    ensures forall r :: 0 <= r < |shares| ==> Holds(shares[r], Line(polys[..i + 1], r + 1, t as int))
  {
    hide Holds, ShareAt, Line;
    var j := 0;
    while j < n as int
      invariant 0 <= j <= n as int
      invariant forall r :: 0 <= r < j ==> Holds(shares[r], Line(polys[..i + 1], r + 1, t as int))
      invariant forall r :: j <= r < |shares| ==> Holds(shares[r], Line(polys[..i], r + 1, t as int))
    {
      LineSnoc(polys, i, j + 1, t as int);
      ShareRange(polys[i], j + 1);
      PrintCodon(shares[j], i, chunks[j], Line(polys[..i], j + 1, t as int));
      j := j + 1;
    }
  }

  lemma ShareRange(c: Poly, x: int)
    ensures 0 <= ShareAt(c, x) <= 256
  {
  }

  /** `split_string`: n lines for the bytes before the first zero of `secret`. */
  method SplitString(secret: seq<byte>, n: int32, t: int32, random: seq<seq<int32>>)
    returns (shares: seq<array<char>>)
    requires 0 <= n < 256 && 1 <= t < 256 && 0 in secret
    requires Randomness(random, |CBytes(secret)|, t as int)
    ensures HoldLines(shares, Lines(Draws(CBytes(secret), random), n as int, t as int))
    ensures |shares| == n as int
    ensures forall r :: 0 <= r < |shares| ==> PrintedLine(shares[r], CBytes(secret), random, r + 1, t as int)
  {
    hide Holds, Line, ShareAt, PrintedLine;
    var len := SecretLength(secret);
    ghost var polys := Draws(CBytes(secret), random);
    shares := ShareHeaders(n as int, t as int, len);
    assert polys[..0] == [];
    var i := 0;
    while i < len
      invariant 0 <= i <= len
      invariant forall r :: 0 <= r < |shares| ==> fresh(shares[r])
      invariant forall r :: 0 <= r < |shares| ==> Holds(shares[r], Line(polys[..i], r + 1, t as int))
    {
      var letter := SignedChar(secret[i]) as int32;
      if letter < 0 {
        letter := 256 + letter;
      }
      var chunks := SplitNumber(letter, n, t, random[i]);
      PrintChunks(shares, i, n, t, chunks, polys);
      i := i + 1;
    }
    assert polys[..i] == polys;
    forall r | 0 <= r < |shares| ensures PrintedLine(shares[r], CBytes(secret), random, r + 1, t as int) {
      LinePrints(shares[r], CBytes(secret), random, r + 1, t as int);
    }
  }

  /** The buffer holds the share number `x` of these bytes and a NUL. */
  ghost predicate PrintedLine(share: array<char>, secret: seq<byte>, random: seq<seq<int32>>, x: int, t: int)
    requires |secret| <= |random|
    reads share
  {
    && 6 + 2 * |secret| < share.Length && share[6 + 2 * |secret|] == '\0'
    && IsLine(share[..6 + 2 * |secret|], x, t, Values(secret, random, x))
  }

  lemma LinePrints(share: array<char>, secret: seq<byte>, random: seq<seq<int32>>, x: int, t: int)
    requires |secret| <= |random| && 0 <= x < 256 && 0 <= t < 256
    requires Holds(share, Line(Draws(secret, random), x, t))
    ensures PrintedLine(share, secret, random, x, t)
  {
    hide Line, IsLine, Values;
    DrawnLine(secret, random, x, t);
  }

  /** `strlen(secret)`. */
  method SecretLength(secret: seq<byte>) returns (l: nat)
    requires 0 in secret
    ensures l == |CBytes(secret)|
  {
    ghost var c := CBytes(secret);
    ZeroStops(secret);
    l := 0;
    while secret[l] != 0
      invariant l <= |c|
      decreases |c| - l
    {
      l := l + 1;
    }
  }

  lemma {:induction false} ZeroStops(s: seq<byte>)
    requires 0 in s
    ensures |CBytes(s)| < |s|
  {
    if s[0] != 0 {
      assert s == [s[0]] + s[1..];
      ZeroStops(s[1..]);
    }
  }

  lemma NextSlot(i: nat, n: nat, size: nat)
    requires i < n
    ensures i * size + size == (i + 1) * size <= n * size
  {
    ProductNonNegative(n - i - 1, size);
    assert n * size == i * size + size + (n - i - 1) * size;
  }

  /** What the result buffer holds after the first `i` lines were printed into their slots. */
  ghost predicate SlotsFilled(buf: string, ls: seq<string>, i: nat, size: nat, full: bool)
    requires i <= |ls| && ls != []
  {
    if full then
      0 <= i * size < |buf| && buf[..i * size] == JoinText(ls[..i]) && (i > 0 ==> buf[i * size] == '\0')
    else
      i > 0 ==> |ls[0]| + 2 <= |buf| && buf[..|ls[0]| + 2] == ls[0] + "\n\0"
  }

  /** Print the i-th line into its slot. */
  method PrintLine(buf: array<char>, share: array<char>, i: nat, size: nat, ghost full: bool, ghost ls: seq<string>)
    requires i < |ls| && buf.Length == |ls| * size + 1 && Holds(share, ls[i]) && buf != share
    requires |ls[0]| == |ls[i]| && if full then |ls[0]| + 1 == size else |ls[0]| + 2 <= size
    requires SlotsFilled(buf[..], ls, i, size, full)
    modifies buf
    ensures SlotsFilled(buf[..], ls, i + 1, size, full)
  {
    hide SlotsFilled, Holds;
    NextSlot(i, |ls|, size);
    ghost var before := buf[..];
    var text := WithNewline(share, ls[i]);
    var at := i * size;
    Sprintf(buf, at, text);
    SamePrefix(buf[..], before, at);
    LinePrinted(buf[..], before, ls, i, size, full);
  }

  lemma SamePrefix(after: string, before: string, at: nat)
    requires at <= |after| == |before| && forall k :: 0 <= k < at ==> after[k] == before[k]
    ensures after[..at] == before[..at]
  {
  }

  method WithNewline(share: array<char>, ghost line: string) returns (text: string)
    requires Holds(share, line)
    ensures text == line + "\n"
  {
    HeldString(share, line);
    assert share[0..] == share[..];
    var l := StrLen(share, 0);
    text := share[..l] + "\n";
  }

  lemma LinePrinted(after: string, before: string, ls: seq<string>, i: nat, size: nat, full: bool)
    requires i < |ls| && |after| == |before| == |ls| * size + 1
    requires |ls[0]| == |ls[i]| && if full then |ls[0]| + 1 == size else |ls[0]| + 2 <= size
    requires 0 <= i * size && i * size + size < |after|
    requires after[..i * size] == before[..i * size]
    requires after[i * size..i * size + |ls[i]| + 1] == ls[i] + "\n" && after[i * size + |ls[i]| + 1] == '\0'
    requires SlotsFilled(before, ls, i, size, full)
    ensures SlotsFilled(after, ls, i + 1, size, full)
  {
    if full {
      JoinTextSnoc(ls[..i], ls[i]);
      assert ls[..i + 1] == ls[..i] + [ls[i]];
      NextSlot(i, |ls|, size);
      FullSlot(after, before[..i * size], ls[i] + "\n", i * size, (i + 1) * size);
    } else {
      ShortSlot(after, before, ls, i, size);
    }
  }

  lemma FullSlot(after: string, front: string, back: string, at: nat, end: nat)
    requires |front| == at <= end <= |after| && |back| == end - at
    requires after[..at] == front && after[at..end] == back
    ensures after[..end] == front + back
  {
  }

  lemma ShortSlot(after: string, before: string, ls: seq<string>, i: nat, size: nat)
    requires i < |ls| && |ls[0]| + 2 <= size && |ls[i]| == |ls[0]|
    requires |after| == |before| && 0 <= i * size && i * size + size < |after|
    requires i > 0 ==> before[..|ls[0]| + 2] == ls[0] + "\n\0"
    requires after[..i * size] == before[..i * size]
    requires after[i * size..i * size + |ls[0]| + 1] == ls[i] + "\n" && after[i * size + |ls[0]| + 1] == '\0'
    ensures after[..|ls[0]| + 2] == ls[0] + "\n\0"
  {
    var m := |ls[0]| + 2;
    if i == 0 {
      assert after[..m] == after[..m - 1] + [after[m - 1]];
    } else {
      NextSlot(0, i, size);
      assert after[..m] == after[..i * size][..m] == before[..i * size][..m] == before[..m];
    }
  }

  lemma NothingFilled(buf: string, ls: seq<string>, size: nat, full: bool)
    requires ls != [] && |buf| > 0
    ensures SlotsFilled(buf, ls, 0, size, full)
  {
    assert ls[..0] == [];
    assert 0 * size == 0;
  }

  /** With all slots filled the buffer holds the generated text. */
  lemma AllFilled(buf: array<char>, str: seq<byte>, blockSize: nat, random: seq<seq<int32>>, n: nat, t: int)
    requires 1 <= n < 256 && 0 <= t < 256 && |str| <= |random|
    requires SlotsFilled(buf[..], Lines(Draws(str, random), n, t), n, 7 + 2 * blockSize, |str| == blockSize)
    ensures Holds(buf, GeneratedText(str, blockSize, random, n, t))
  {
    hide Line;
    var ls := Lines(Draws(str, random), n, t);
    forall j | 0 <= j < |ls| ensures Solid(ls[j]) {
      LineSolid(Draws(str, random), j + 1, t);
    }
    if |str| == blockSize {
      assert ls[..n] == ls;
      JoinTextNoNul(ls);
      assert buf[..][..n * (7 + 2 * blockSize)] == buf[..n * (7 + 2 * blockSize)];
    } else {
      var s := ls[0] + "\n";
      assert buf[..|s|] == buf[..][..|s| + 1][..|s|] == s;
      assert buf[|s|] == buf[..][..|s| + 1][|s|];
    }
  }

  /** `generate_share_strings`: one slot of `7 + 2 * blockSize` characters per KeyStore. */
  method GenerateShareStrings(secret: seq<byte>, n: int32, t: int32, random: seq<seq<int32>>, blockSize: nat)
    returns (shares: array<char>)
    requires 1 <= n < 256 && 1 <= t < 256 && 0 in secret && |CBytes(secret)| <= blockSize
    requires Randomness(random, |CBytes(secret)|, t as int)
    ensures fresh(shares) && shares.Length == n as int * (7 + 2 * blockSize) + 1
    ensures Holds(shares, GeneratedText(CBytes(secret), blockSize, random, n as int, t as int))
    ensures SharesPrinted(shares[..], CBytes(secret), random, n as int, t as int, 7 + 2 * blockSize)
  {
    hide Line, Holds, SlotsFilled, SharesPrinted, GeneratedText, PrintedLine, Draws, CBytes;
    var result := SplitString(secret, n, t, random);
    ghost var str := CBytes(secret);
    ghost var ls := Lines(Draws(str, random), n as int, t as int);
    ghost var full := |str| == blockSize;
    var keyLen := 6 + 2 * blockSize + 1;
    ProductNonNegative(keyLen, n as int);
    shares := new char[keyLen * n as int + 1];
    var i := 0;
    NothingFilled(shares[..], ls, keyLen, full);
    while i < n as int
      invariant 0 <= i <= n as int && shares.Length == keyLen * n as int + 1 && fresh(shares)
      invariant HoldLines(result, ls) && shares !in result
      invariant SlotsFilled(shares[..], ls, i, keyLen, full)
    {
      PrintLine(shares, result[i], i, keyLen, full, ls);
      i := i + 1;
    }
    AllFilled(shares, str, blockSize, random, n as int, t as int);
    PrintedShares(shares, str, random, n as int, t as int, 7 + 2 * blockSize);
  }

  /** Character `k` begins a share: the line of number `x`, and a newline. */
  ghost predicate LineAt(buf: string, k: nat, secret: seq<byte>, random: seq<seq<int32>>, x: int, t: int)
    requires |secret| <= |random|
  {
    var end := k + 6 + 2 * |secret|;
    end < |buf| && buf[end] == '\n' && IsLine(buf[k..end], x, t, Values(secret, random, x))
  }

  /** Every share in its slot, and a NUL behind the last one; or the first share alone, when the
      bytes are fewer than the slots are made for. */
  ghost predicate SharesPrinted(buf: string, secret: seq<byte>, random: seq<seq<int32>>, n: nat, t: int, size: nat)
    requires |secret| <= |random|
  {
    if size == 7 + 2 * |secret|
    then 0 <= n * size < |buf| && buf[n * size] == '\0' &&
      forall i: nat :: i < n ==> 0 <= i * size && LineAt(buf, i * size, secret, random, i + 1, t)
    else LineAt(buf, 0, secret, random, 1, t) && 7 + 2 * |secret| < |buf| && buf[7 + 2 * |secret|] == '\0'
  }

  lemma PrintedShares(shares: array<char>, secret: seq<byte>, random: seq<seq<int32>>, n: nat, t: int, size: nat)
    requires |secret| <= |random| && 1 <= n < 256 && 0 <= t < 256 && size >= 7 + 2 * |secret| && size % 2 == 1
    requires Holds(shares, GeneratedText(secret, (size - 7) / 2, random, n, t))
    ensures SharesPrinted(shares[..], secret, random, n, t, size)
  {
    hide Line, IsLine, Values, JoinText;
    var ls, buf := Lines(Draws(secret, random), n, t), shares[..];
    if size == 7 + 2 * |secret| {
      TextSize(ls, size);
      forall i: nat | i < n ensures 0 <= i * size && LineAt(buf, i * size, secret, random, i + 1, t) {
        SlotOfLine(ls, size, i);
        DrawnLine(secret, random, i + 1, t);
        SlotIsLine(buf, JoinText(ls), i * size, (i + 1) * size, ls[i]);
      }
    } else {
      DrawnLine(secret, random, 1, t);
      SlotIsLine(buf, ls[0] + "\n", 0, 7 + 2 * |secret|, ls[0]);
    }
  }

  lemma SlotIsLine(buf: string, text: string, from: nat, to: nat, line: string)
    requires text <= buf && from <= to <= |text| && text[from..to] == line + "\n"
    ensures to == from + |line| + 1 && buf[from..to - 1] == line && buf[to - 1] == '\n'
  {
    assert buf[from..to] == text[from..to];
    assert buf[from..to][..|line|] == line && buf[from..to][|line|] == '\n';
  }

  lemma {:induction false} TextSize(ls: seq<string>, size: nat)
    requires forall j :: 0 <= j < |ls| ==> |ls[j]| + 1 == size
    ensures |JoinText(ls)| == |ls| * size
  {
    if ls != [] {
      TextSize(ls[1..], size);
      assert |ls| * size == (|ls| - 1) * size + size;
    }
  }
}
