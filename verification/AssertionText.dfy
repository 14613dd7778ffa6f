/** `kn_read_asserts`: a buffer broken up at pairs of newlines. */
module AssertionText {
  import opened CStrings

  // ----- the blocks of a text -----

  /** The first position of two newlines in a row, or the end of the text. */
  function FirstBreak(s: string): (b: nat)
    ensures b <= |s|
    ensures b < |s| ==> b + 1 < |s| && s[b] == '\n' && s[b + 1] == '\n'
    ensures forall k :: 0 <= k < b && k + 1 < |s| ==> !(s[k] == '\n' && s[k + 1] == '\n')
  {
    if |s| < 2 then |s|
    else if s[0] == '\n' && s[1] == '\n' then 0
    else FirstBreak(s[1..]) + 1
  }

  /** A block keeps the first of the two newlines that end it. */
  function Blocks(s: string): seq<string>
    decreases |s|
  {
    var b := FirstBreak(s);
    if b == |s| then [s] else [s[..b + 1]] + Blocks(s[b + 2..])
  }

  predicate Blank(s: string) {
    forall i :: 0 <= i < |s| ==> IsSpace(s[i])
  }

  function NonBlank(bs: seq<string>): seq<string> {
    if bs == [] then [] else (if Blank(bs[0]) then [] else [bs[0]]) + NonBlank(bs[1..])
  }

  function Concat(bs: seq<string>): string {
    if bs == [] then "" else bs[0] + Concat(bs[1..])
  }

  predicate NoDoubleNewline(s: string) {
    forall k :: 0 <= k < |s| - 1 ==> !(s[k] == '\n' && s[k + 1] == '\n')
  }

  lemma {:induction false} BlankStrips(s: string)
    ensures Blank(s) <==> Strip(s) == ""
  {
    if s != "" {
      BlankStrips(s[..|s| - 1]);
      assert s == s[..|s| - 1] + [s[|s| - 1]];
    }
  }

  /** No block has two newlines in a row. */
  lemma {:induction false} BlocksUnbroken(s: string)
    ensures forall j :: 0 <= j < |Blocks(s)| ==> NoDoubleNewline(Blocks(s)[j])
    decreases |s|
  {
    var b := FirstBreak(s);
    if b < |s| {
      BlocksUnbroken(s[b + 2..]);
    }
  }

  /** The blocks, each followed by a newline except the last. */
  ghost function Rejoined(bs: seq<string>): string {
    if bs == [] then "" else if |bs| == 1 then bs[0] else bs[0] + "\n" + Rejoined(bs[1..])
  }

  /** The text is cut between the two newlines of a pair, and the second one goes: nothing else is lost,
      and every block but the last ends with the first one. */
  lemma {:induction false} BlocksPartition(s: string)
    ensures Rejoined(Blocks(s)) == s && Blocks(s) != []
    ensures forall j :: 0 <= j < |Blocks(s)| - 1 ==> Blocks(s)[j] != "" && Blocks(s)[j][|Blocks(s)[j]| - 1] == '\n'
    decreases |s|
  {
    hide FirstBreak, Blocks, Rejoined;
    BlocksAt(s);
    var b := FirstBreak(s);
    if b < |s| {
      var head, rest := s[..b + 1], s[b + 2..];
      BlocksPartition(rest);
      RejoinedStep(head, Blocks(rest));
      assert s == head + "\n" + rest;
    } else {
      RejoinedOne(s);
    }
  }

  lemma RejoinedOne(s: string)
    ensures Rejoined([s]) == s
  {
  }

  lemma RejoinedStep(head: string, rest: seq<string>)
    requires rest != []
    ensures Rejoined([head] + rest) == head + "\n" + Rejoined(rest)
  {
    assert ([head] + rest)[1..] == rest;
  }

  /** The blocks hold all of the text but the second newline of every pair. */
  lemma {:induction false} BlocksConserve(s: string)
    ensures Strip(Concat(Blocks(s))) == Strip(s)
    decreases |s|
  {
    hide Strip, Concat, FirstBreak;
    var b := FirstBreak(s);
    if b == |s| {
      ConcatOne(s);
    } else {
      var head, rest := s[..b + 1], s[b + 2..];
      BlocksConserve(rest);
      ConcatHead(head, Blocks(rest));
      StripConcat(head, Concat(Blocks(rest)));
      assert s == head + ("\n" + rest);
      StripPair(head, rest);
    }
  }

  lemma ConcatOne(s: string)
    ensures Concat([s]) == s
  {
    ConcatHead(s, []);
    assert [s] + [] == [s] && s + "" == s;
  }

  lemma ConcatHead(head: string, rest: seq<string>)
    ensures Concat([head] + rest) == head + Concat(rest)
  {
    assert ([head] + rest)[1..] == rest;
  }

  lemma StripPair(head: string, rest: string)
    ensures Strip(head + ("\n" + rest)) == Strip(head) + Strip(rest)
  {
    hide Strip;
    StripConcat(head, "\n" + rest);
    StripConcat("\n", rest);
    BlankStrips("\n");
    assert [] + Strip(rest) == Strip(rest);
  }

  lemma {:induction false} NonBlankConserve(bs: seq<string>)
    ensures Strip(Concat(NonBlank(bs))) == Strip(Concat(bs))
  {
    if bs != [] {
      NonBlankConserve(bs[1..]);
      BlankStrips(bs[0]);
      StripConcat(bs[0], Concat(bs[1..]));
      StripConcat(bs[0], Concat(NonBlank(bs[1..])));
      if !Blank(bs[0]) {
        assert ([bs[0]] + NonBlank(bs[1..]))[1..] == NonBlank(bs[1..]);
      } else {
        assert [] + NonBlank(bs[1..]) == NonBlank(bs[1..]);
      }
    }
  }

  lemma {:induction false} NonBlankMembers(bs: seq<string>)
    ensures forall b :: b in NonBlank(bs) <==> b in bs && !Blank(b)
  {
    if bs != [] {
      NonBlankMembers(bs[1..]);
      assert bs == [bs[0]] + bs[1..];
    }
  }

  /** What `kn_read_asserts` returns conserves the text: in order and without whitespace the
      pieces are the buffer, and every piece has something in it and no two newlines in a row. */
  lemma AssertionsConserve(text: string)
    ensures var r := NonBlank(Blocks(text));
      && Strip(Concat(r)) == Strip(text)
      && forall j :: 0 <= j < |r| ==> NoDoubleNewline(r[j]) && exists k :: 0 <= k < |r[j]| && !IsSpace(r[j][k])
  {
    var r := NonBlank(Blocks(text));
    BlocksConserve(text);
    NonBlankConserve(Blocks(text));
    NonBlankMembers(Blocks(text));
    BlocksUnbroken(text);
    forall j | 0 <= j < |r| ensures NoDoubleNewline(r[j]) && !Blank(r[j]) {
      assert r[j] in Blocks(text);
    }
  }

  // ----- the loop -----

  /** No pair of newlines ends between `ptr` and `i`. */
  ghost predicate Unbroken(s: string, ptr: nat, i: nat) {
    ptr <= i <= |s| && forall k :: ptr <= k < i - 1 ==> !(s[k] == '\n' && s[k + 1] == '\n')
  }

  lemma {:induction false} FirstBreakAt(s: string, b: nat)
    requires b + 1 < |s| && s[b] == '\n' && s[b + 1] == '\n'
    requires forall k :: 0 <= k < b ==> !(s[k] == '\n' && s[k + 1] == '\n')
    ensures FirstBreak(s) == b
  {
    if b > 0 {
      FirstBreakAt(s[1..], b - 1);
    }
  }

  /** The second newline of a pair ends a block. */
  lemma BlockEnds(s: string, ptr: nat, i: nat)
    requires Unbroken(s, ptr, i) && ptr < i < |s| && s[i - 1] == '\n' && s[i] == '\n'
    ensures Blocks(s[ptr..]) == [s[ptr..i]] + Blocks(s[i + 1..])
  {
    hide FirstBreak, Blocks;
    var t := s[ptr..];
    forall k | 0 <= k < i - 1 - ptr ensures !(t[k] == '\n' && t[k + 1] == '\n') {
      assert t[k] == s[ptr + k] && t[k + 1] == s[ptr + k + 1];
    }
    FirstBreakAt(t, i - 1 - ptr);
    BlocksAt(t);
    assert t[..i - ptr] == s[ptr..i] && t[i + 1 - ptr..] == s[i + 1..];
  }

  lemma BlocksAt(s: string)
    ensures var b := FirstBreak(s);
      Blocks(s) == if b == |s| then [s] else [s[..b + 1]] + Blocks(s[b + 2..])
  {
  }

  lemma LastBlock(s: string, ptr: nat)
    requires Unbroken(s, ptr, |s|)
    ensures Blocks(s[ptr..]) == [s[ptr..]]
  {
    var t := s[ptr..];
    forall k | 0 <= k < |t| - 1 ensures !(t[k] == '\n' && t[k + 1] == '\n') {
      assert t[k] == s[ptr + k] && t[k + 1] == s[ptr + k + 1];
    }
  }

  lemma NonBlankHead(b: string, rest: seq<string>)
    ensures NonBlank([b] + rest) == (if Blank(b) then [] else [b]) + NonBlank(rest)
  {
    assert ([b] + rest)[1..] == rest;
  }

  lemma BlankMore(s: string, ptr: nat, i: nat)
    requires ptr <= i < |s|
    ensures Blank(s[ptr..i + 1]) <==> Blank(s[ptr..i]) && IsSpace(s[i])
  {
    var t := s[ptr..i + 1];
    assert t[i - ptr] == s[i];
    assert forall k :: 0 <= k < i - ptr ==> t[k] == s[ptr..i][k];
  }

  /** `kn_read_asserts` on a buffer that holds the text and its NUL. The result array starts with
      32 places and doubles; every index stays inside. */
  method KnReadAsserts(buffer: array<char>, bufferlen: nat, ghost text: string)
    returns (buf: array<string>, numassertions: nat)
    requires Holds(buffer, text) && bufferlen == |text|
    ensures fresh(buf) && numassertions <= buf.Length
    ensures buf[..numassertions] == NonBlank(Blocks(text))
  {
    hide Blocks, NonBlank, Blank, IsSpace, Holds;
    var bufsize := 32;
    buf := new string[bufsize](_ => "");
    var i, flag, valid, ptr := 0, false, false, 0;
    numassertions := 0;
    assert text[0..] == text;
    BlankNothing(text);
    while i < bufferlen
      invariant 0 <= ptr <= i <= |text| && Unbroken(text, ptr, i)
      invariant flag == (ptr < i && text[i - 1] == '\n') && valid == !Blank(text[ptr..i])
      invariant fresh(buf) && bufsize == buf.Length >= 32 && numassertions <= bufsize - 4
      invariant NonBlank(Blocks(text)) == buf[..numassertions] + NonBlank(Blocks(text[ptr..]))
    {
      BlankMore(text, ptr, i);
      HeldAt(buffer, text, ptr, i);
      if buffer[i] == '\n' {
        NewlineIsSpace();
        if flag {
          BlockEnds(text, ptr, i);
          NonBlankHead(text[ptr..i], Blocks(text[i + 1..]));
          ghost var done, rest := buf[..numassertions], NonBlank(Blocks(text[i + 1..]));
          if valid {
            buf[numassertions] := buffer[ptr..i];
            assert buf[..numassertions + 1] == done + [text[ptr..i]];
            assert done + ([text[ptr..i]] + rest) == done + [text[ptr..i]] + rest;
            numassertions := numassertions + 1;
          } else {
            assert [] + rest == rest;
          }
          valid, flag, ptr := false, false, i + 1;
          BlankNothingAt(text, ptr);
          if numassertions > bufsize - 4 {
            buf := Grown(buf, numassertions);
            bufsize := bufsize * 2;
          }
        } else {
          flag := true;
        }
      } else {
        flag := false;
        if !IsSpace(buffer[i]) {
          valid := true;
        }
      }
      i := i + 1;
    }
    LastBlock(text, ptr);
    HeldAt(buffer, text, ptr, |text|);
    NonBlankHead(text[ptr..], []);
    NonBlankNothing();
    assert text[ptr..i] == text[ptr..];
    assert [text[ptr..]] + [] == [text[ptr..]];
    assert NonBlank(Blocks(text[ptr..])) == if valid then [text[ptr..]] else [];
    if valid {
      assert text[ptr..|text|] == text[ptr..];
      ghost var done := buf[..numassertions];
      buf[numassertions] := buffer[ptr..bufferlen];
      assert buf[..numassertions + 1] == done + [text[ptr..]];
      numassertions := numassertions + 1;
    }
  }

  lemma HeldAt(buffer: array<char>, text: string, ptr: nat, i: nat)
    requires Holds(buffer, text) && ptr <= i <= |text|
    ensures |text| < buffer.Length && buffer[ptr..i] == text[ptr..i]
    ensures i < |text| ==> buffer[i] == text[i]
  {
    forall k | 0 <= k < |text| ensures buffer[k] == text[k] {
      assert buffer[..|text|][k] == text[k];
    }
  }

  lemma NewlineIsSpace()
    ensures IsSpace('\n')
  {
  }

  lemma BlankNothing(s: string)
    ensures Blank(s[0..0])
  {
  }

  lemma BlankNothingAt(s: string, i: nat)
    requires i <= |s|
    ensures Blank(s[i..i])
  {
  }

  lemma NonBlankNothing()
    ensures NonBlank([]) == []
  {
  }

  /** `realloc` to twice the size. */
  method Grown(buf: array<string>, n: nat) returns (r: array<string>)
    requires n <= buf.Length
    ensures fresh(r) && r.Length == 2 * buf.Length && r[..n] == buf[..n]
  {
    r := new string[2 * buf.Length](_ => "");
    var k := 0;
    while k < n
      invariant 0 <= k <= n && r[..k] == buf[..k]
    {
      r[k] := buf[k];
      k := k + 1;
    }
  }
}
