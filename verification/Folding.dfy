/** The folded signature text of a credential: the publisher's line folder, and the two readers
    that undo it at the KeyStore. */
module Folding {
  import opened Options
  import opened CStrings

  const KN_SIGN_SZ := 364
  const LINE := 50
  const INDENT := "            "

  // ----- folding -----

  /** The key with a backslash, a newline and an indent wherever the column reaches 50. */
  function Folded(key: string, k: nat): (r: string)
    decreases |key|, k == LINE
  {
    if key == "" then ""
    else if k == LINE then "\\\n" + INDENT + Folded(key, 1)
    else [key[0]] + Folded(key[1..], k + 1)
  }

  function SignatureText(algname: string, key: string): string {
    INDENT + "\"" + algname + Folded(key, |algname| + 2) + "\"\n"
  }

  /** How often a key of length n is folded. */
  function Folds(n: nat, k: nat): nat
    requires 1 <= k <= LINE
  {
    if n <= LINE - k then 0 else (n - (LINE - k) + 48) / 49
  }

  lemma {:induction false} FoldedLength(key: string, k: nat)
    requires 1 <= k <= LINE
    ensures |Folded(key, k)| == |key| + 14 * Folds(|key|, k)
    decreases |key|, k == LINE
  {
    if key != "" {
      if k == LINE {
        FoldedLength(key, 1);
        FoldMore(|key|);
      } else {
        FoldedLength(key[1..], k + 1);
      }
    }
  }

  lemma FoldMore(n: nat)
    requires n > 0
    ensures Folds(n, LINE) == 1 + Folds(n, 1)
  {
  }

  /** A row takes what is left of 50 columns; if the key goes on, then so do a backslash, a newline and
      twelve spaces, and the next row begins at column 1. */
  lemma {:induction false} FoldedRow(key: string, k: nat)
    requires 1 <= k <= 50
    ensures |key| <= 50 - k ==> Folded(key, k) == key
    ensures |key| > 50 - k ==> Folded(key, k) == key[..50 - k] + "\\\n            " + Folded(key[50 - k..], 1)
    decreases |key|
  {
    if key != "" && k < 50 {
      FoldedRow(key[1..], k + 1);
      assert key == [key[0]] + key[1..];
      if |key| > 50 - k {
        assert key[1..][49 - k..] == key[50 - k..] && [key[0]] + key[1..][..49 - k] == key[..50 - k];
      }
    } else if key != "" {
      assert key[..0] == "" && key[0..] == key;
    }
  }

  /** The first row begins after twelve spaces, a quote and the name of the algorithm. */
  lemma FirstRow(algname: string, key: string)
    requires |algname| <= 48
    ensures |key| <= 48 - |algname| ==> SignatureText(algname, key) == "            \"" + algname + key + "\"\n"
    ensures |key| > 48 - |algname| ==>
      var rest := Folded(key[48 - |algname|..], 1);
      SignatureText(algname, key) ==
        "            \"" + algname + key[..48 - |algname|] + "\\\n            " + rest + "\"\n"
  {
    FoldedRow(key, |algname| + 2);
    if |key| > 48 - |algname| {
      var row, rest := key[..48 - |algname|], Folded(key[48 - |algname|..], 1);
      assert Folded(key, |algname| + 2) == row + "\\\n            " + rest;
      Regrouped(INDENT + "\"" + algname, row, "\\\n            ", rest, "\"\n");
    }
  }

  lemma Regrouped(a: string, b: string, c: string, d: string, e: string)
    ensures a + (b + c + d) + e == a + b + c + d + e
  {
  }

  /** The length of the text, and when it leaves room for the final NUL in the buffer. */
  lemma SignatureLength(key: string)
    ensures |SignatureText("", key)| == 15 + |key| + 14 * (if |key| <= 48 then 0 else (|key| - 48 + 48) / 49)
    ensures |SignatureText("", key)| < KN_SIGN_SZ <==> |key| <= 278
  {
    FoldedLength(key, 2);
  }

  lemma FoldedCut(key: string, i: nat, k: nat)
    requires i < |key|
    ensures Folded(key[i..], k) ==
      if k == LINE then "\\\n" + INDENT + Folded(key[i..], 1) else [key[i]] + Folded(key[i + 1..], k + 1)
  {
    assert key[i..][0] == key[i] && key[i..][1..] == key[i + 1..];
  }

  /** `strncpy` of a whole string, without its NUL. */
  method Append(result: array<char>, index: nat, text: string) returns (next: nat)
    requires index + |text| <= result.Length
    modifies result
    ensures next == index + |text| && result[..next] == old(result[..index]) + text
    ensures forall k :: next <= k < result.Length ==> result[k] == old(result[k])
  {
    var j := 0;
    while j < |text|
      invariant 0 <= j <= |text|
      invariant result[..index] == old(result[..index])
      invariant forall k :: 0 <= k < j ==> result[index + k] == text[k]
      invariant forall k :: index + |text| <= k < result.Length ==> result[k] == old(result[k])
    {
      result[index + j] := text[j];
      j := j + 1;
    }
    next := index + |text|;
  }

  /** What is written and what remains to be written make up the text. */
  ghost predicate Written(buf: string, index: nat, key: string, i: nat, k: nat, text: string) {
    && index <= |buf| && i <= |key|
    && buf[..index] + Folded(key[i..], k) + "\"\n" == text
    && (forall c :: index <= c < |buf| ==> buf[c] == '\0')
  }

  lemma WrittenFold(buf: string, after: string, index: nat, key: string, i: nat, text: string)
    requires Written(buf, index, key, i, LINE, text) && i < |key| && |after| == |buf|
    requires index + 14 <= |buf| && after[..index + 14] == buf[..index] + "\\\n" + INDENT
    requires forall c :: index + 14 <= c < |after| ==> after[c] == buf[c]
    ensures Written(after, index + 14, key, i, 1, text)
  {
    hide Folded;
    FoldedCut(key, i, LINE);
    var rest := Folded(key[i..], 1);
    assert buf[..index] + ("\\\n" + INDENT + rest) + "\"\n" == buf[..index] + "\\\n" + INDENT + rest + "\"\n";
  }

  lemma WrittenChar(buf: string, index: nat, key: string, i: nat, k: nat, text: string)
    requires Written(buf, index, key, i, k, text) && k != LINE && i < |key| && index < |buf|
    ensures Written(buf[index := key[i]], index + 1, key, i + 1, k + 1, text)
  {
    hide Folded;
    FoldedCut(key, i, k);
    var after, rest := buf[index := key[i]], Folded(key[i + 1..], k + 1);
    assert after[..index + 1] == buf[..index] + [key[i]];
    assert buf[..index] + ([key[i]] + rest) + "\"\n" == buf[..index] + [key[i]] + rest + "\"\n";
  }

  lemma WrittenRoom(buf: string, index: nat, key: string, i: nat, k: nat, text: string)
    requires Written(buf, index, key, i, k, text) && i < |key|
    ensures index + 3 + (if k == LINE then 14 else 0) <= |text|
  {
    FoldedCut(key, i, k);
    if k == LINE {
      FoldedCut(key, i, 1);
    }
  }

  lemma WrittenStart(buf: string, index: nat, algname: string, key: string)
    requires index <= |buf| && buf[..index] == INDENT + "\"" + algname
    requires forall c :: index <= c < |buf| ==> buf[c] == '\0'
    ensures Written(buf, index, key, 0, |algname| + 2, SignatureText(algname, key))
  {
    assert key[0..] == key;
  }

  lemma WrittenEnd(buf: string, index: nat, key: string, k: nat, text: string)
    requires Written(buf, index, key, |key|, k, text)
    ensures buf[..index] + "\"\n" == text && index + 2 == |text|
  {
    assert key[|key|..] == "";
    assert buf[..index] + "" == buf[..index];
  }

  /** `kn_encode_signture`, for a key whose text fits in the buffer. */
  method KnEncodeSignture(algname: string, key: string) returns (result: array<char>)
    requires |SignatureText(algname, key)| <= KN_SIGN_SZ
    ensures fresh(result) && result.Length == KN_SIGN_SZ
    ensures var text := SignatureText(algname, key);
      result[..|text|] == text && forall k :: |text| <= k < KN_SIGN_SZ ==> result[k] == '\0'
  {
    hide Written, Folded;
    result := new char[KN_SIGN_SZ](_ => '\0');
    ghost var text := SignatureText(algname, key);
    var index: nat := Append(result, 0, INDENT);
    index := Append(result, index, "\"");
    index := Append(result, index, algname);
    WrittenStart(result[..], index, algname, key);
    var i := 0;
    var k := |algname| + 2;
    while i < |key|
      invariant 0 <= i <= |key| && k >= 1 && 0 <= index <= KN_SIGN_SZ == result.Length && fresh(result)
      invariant Written(result[..], index, key, i, k, text)
      decreases |key| - i, k == LINE
    {
      ghost var before := result[..];
      WrittenRoom(before, index, key, i, k, text);
      if k == LINE {
        index := AppendFold(result, index);
        WrittenFold(before, result[..], index - 14, key, i, text);
        i := i - 1;
        k := 0;
      } else {
        WrittenChar(before, index, key, i, k, text);
        result[index] := key[i];
        assert result[..] == before[index := key[i]];
        index := index + 1;
      }
      i := i + 1;
      k := k + 1;
    }
    WrittenEnd(result[..], index, key, k, text);
    WrittenRest(result[..], index, key, k, text);
    index := Append(result, index, "\"\n");
  }

  lemma WrittenRest(buf: string, index: nat, key: string, k: nat, text: string)
    requires Written(buf, index, key, |key|, k, text)
    ensures forall c :: index <= c < |buf| ==> buf[c] == '\0'
  {
  }

  method AppendFold(result: array<char>, index: nat) returns (next: nat)
    requires index + 14 <= result.Length
    modifies result
    ensures next == index + 14 && result[..next] == old(result[..index]) + "\\\n" + INDENT
    ensures forall k :: next <= k < result.Length ==> result[k] == old(result[k])
  {
    next := Append(result, index, "\\\n");
    next := Append(result, next, INDENT);
  }

  // ----- the lexer's reader -----

  /** A C string read at any position: NUL at its end. */
  function CharAt(s: string, i: int): char {
    if 0 <= i < |s| then s[i] else '\0'
  }

  predicate IsOctal(c: char) {
    '0' <= c <= '7'
  }

  function OctalDigit(c: char): int {
    if IsOctal(c) then c as int - '0' as int else 0
  }

  /** `get_octal`: the value, which is 0 if there is no octal number, and its length. */
  function GetOctal(s: string, i: nat, len: int): (r: (int, nat))
    ensures 0 <= r.0 < 256 && (r.0 != 0 ==> 2 <= r.1 <= 3)
  {
    if CharAt(s, i) == '0' then
      if len > 0 && IsOctal(CharAt(s, i + 1)) then
        if IsOctal(CharAt(s, i + 2)) && len - 1 > 0
        then (OctalDigit(CharAt(s, i + 1)) * 8 + OctalDigit(CharAt(s, i + 2)), 3)
        else (OctalDigit(CharAt(s, i + 1)), 2)
      else (0, 0)
    else if IsOctal(CharAt(s, i)) && len - 1 > 0 && IsOctal(CharAt(s, i + 1)) && IsOctal(CharAt(s, i + 2)) then
      ((OctalDigit(CharAt(s, i)) * 64 + OctalDigit(CharAt(s, i + 1)) * 8 + OctalDigit(CharAt(s, i + 2))) % 256, 3)
    else (0, 0)
  }

  /** Whitespace after an escaped newline: where it ends, and what is left of the count. */
  function SkipBlanks(s: string, i: nat, len: int): (r: (nat, int))
    ensures r.1 <= len && (r.1 < 0 || r.0 >= i)
    decreases if len <= 0 then 0 else len
  {
    if !IsSpace(CharAt(s, i)) then (i, len)
    else if len <= 0 then (i, len - 1)
    else SkipBlanks(s, i + 1, len - 1)
  }

  /** The character for an escape that is not a number: newline, tab and so on, or itself. */
  function Escape(c: char): char {
    if c == 'n' then '\n' else if c == 't' then '\t' else if c == 'r' then '\r' else if c == 'f' then 12 as char else c
  }

  /** What `mystrncpy` copies from position `i` on, with `len` characters to consume. */
  function Unescaped(s: string, i: nat, len: int): (r: string)
    ensures |r| <= if len <= 0 then 0 else len
    decreases if len <= 0 then 0 else len
  {
    if len <= 0 then ""
    else if CharAt(s, i) != '\\' then
      if CharAt(s, i) == '\0' then "" else [s[i]] + Unescaped(s, i + 1, len - 1)
    else if len == 1 then ""
    else if CharAt(s, i + 1) == '\n' then
      var (j, left) := SkipBlanks(s, i + 2, len - 2);
      Unescaped(s, j, left)
    else
      var (c, advance) := GetOctal(s, i + 1, len - 2);
      if c != 0 then [c as char] + Unescaped(s, i + 1 + advance, len - 2 - (advance - 1))
      else if CharAt(s, i + 1) == '\0' then ""
      else [Escape(s[i + 1])] + Unescaped(s, i + 2, len - 2)
  }

  /** `mystrncpy` into a zeroed target that has one place more than the count. */
  method Mystrncpy(s1: array<char>, s2: string, count: nat)
    requires count < s1.Length && forall k :: 0 <= k < s1.Length ==> s1[k] == '\0'
    modifies s1
    ensures var r := Unescaped(s2, 0, count);
      s1[..|r|] == r && forall k :: |r| <= k < s1.Length ==> s1[k] == '\0'
  {
    hide Unescaped;
    var i: nat, len: int, o: nat := 0, count, 0;
    ghost var all := Unescaped(s2, 0, count);
    while len > 0
      invariant o + (if len <= 0 then 0 else len) < s1.Length
      invariant all == s1[..o] + Unescaped(s2, i, len)
      invariant forall k :: o <= k < s1.Length ==> s1[k] == '\0'
      decreases len
    {
      ghost var done := s1[..o];
      var c, next, left := ReadOne(s2, i, len);
      if c.None? {
        if left < 0 {
          assert done + "" == done;
          return;
        }
      } else {
        s1[o] := c.value;
        assert s1[..o + 1] == done + [c.value];
        o := o + 1;
      }
      i, len := next, left;
    }
  }

  /** An octal number is not longer than the count allows. */
  lemma OctalFits(s: string, i: nat, len: int)
    ensures GetOctal(s, i, len).0 != 0 ==> GetOctal(s, i, len).1 <= len + 1
  {
  }

  /** One round of the loop in `mystrncpy`: a character or none, and where to go on; a negative
      count means that the copying stops. */
  method ReadOne(s: string, i: nat, len: int) returns (c: Option<char>, next: nat, left: int)
    requires len > 0
    ensures left < len && (c.Some? ==> left >= 0 || len <= 2)
    ensures left >= 0 ==> Unescaped(s, i, len) == (if c.Some? then [c.value] else "") + Unescaped(s, next, left)
    ensures left < 0 ==> Unescaped(s, i, len) == if c.Some? then [c.value] else ""
  {
    hide SkipBlanks, GetOctal, Escape;
    if CharAt(s, i) != '\\' {
      if CharAt(s, i) == '\0' {
        return None, i, -1;
      }
      return Some(s[i]), i + 1, len - 1;
    }
    if len == 1 {
      return None, i, -1;
    }
    if CharAt(s, i + 1) == '\n' {
      next, left := SkipWhitespace(s, i + 2, len - 2);
      return None, next, left;
    }
    OctalFits(s, i + 1, len - 2);
    var (o, advance) := GetOctal(s, i + 1, len - 2);
    if o != 0 {
      return Some(o as char), i + 1 + advance, len - 2 - (advance - 1);
    }
    if CharAt(s, i + 1) == '\0' {
      return None, i, -1;
    }
    return Some(Escape(s[i + 1])), i + 2, len - 2;
  }

  /** The inner loop, after an escaped newline. */
  method SkipWhitespace(s: string, i: nat, len: nat) returns (next: nat, left: int)
    ensures (next, left) == SkipBlanks(s, i, len)
  {
    next, left := i, len;
    while IsSpace(CharAt(s, next)) && left > 0
      invariant left >= 0 && SkipBlanks(s, i, len) == SkipBlanks(s, next, left)
      decreases left
    {
      next, left := next + 1, left - 1;
    }
    if IsSpace(CharAt(s, next)) {
      left := left - 1;
    }
  }

  // ----- what single escapes give -----

  /** A backslash and a character that is no octal digit: newline, tab, carriage return or form feed for
      `n`, `t`, `r` and `f`, any other character as it is. */
  lemma EscapedCharacter(s: string, i: nat, len: nat)
    requires len >= 2 && i + 1 < |s| && s[i] == '\\'
    requires s[i + 1] != '\n' && s[i + 1] != '\0' && !('0' <= s[i + 1] <= '7')
    ensures var c := s[i + 1];
      var meant := if c == 'n' then '\n' else if c == 't' then '\t' else if c == 'r' then '\r'
        else if c == 'f' then 12 as char else c;
      Unescaped(s, i, len) == [meant] + Unescaped(s, i + 2, len - 2)
  {
    assert GetOctal(s, i + 1, len - 2).0 == 0;
  }

  /** A backslash and three octal digits: the character with this number, unless the number is 0 in
      eight bits. */
  lemma EscapedNumber(s: string, i: nat, len: nat, a: nat, b: nat, c: nat)
    requires len >= 4 && i + 3 < |s| && s[i] == '\\' && a < 8 && b < 8 && c < 8
    requires s[i + 1] as int == 48 + a && s[i + 2] as int == 48 + b && s[i + 3] as int == 48 + c
    requires (64 * a + 8 * b + c) % 256 != 0
    ensures Unescaped(s, i, len) == [((64 * a + 8 * b + c) % 256) as char] + Unescaped(s, i + 4, len - 4)
  {
    hide Unescaped;
    ThreeOctals(s, i, len, a, b, c);
    UnescapedNumber(s, i, len);
  }

  lemma ThreeOctals(s: string, i: nat, len: nat, a: nat, b: nat, c: nat)
    requires len >= 4 && i + 3 < |s| && a < 8 && b < 8 && c < 8
    requires s[i + 1] as int == 48 + a && s[i + 2] as int == 48 + b && s[i + 3] as int == 48 + c
    ensures GetOctal(s, i + 1, len - 2) == ((64 * a + 8 * b + c) % 256, 3)
  {
    assert a == 0 <==> s[i + 1] == '0';
  }

  /** A backslash, a zero and one more octal digit. */
  lemma EscapedDigit(s: string, i: nat, len: nat, a: nat)
    requires len >= 3 && i + 2 < |s| && s[i] == '\\' && s[i + 1] == '0' && 0 < a < 8 && s[i + 2] as int == 48 + a
    requires len == 3 || i + 3 == |s| || !('0' <= s[i + 3] <= '7')
    ensures Unescaped(s, i, len) == [a as char] + Unescaped(s, i + 3, len - 3)
  {
    hide Unescaped;
    assert GetOctal(s, i + 1, len - 2) == (a, 2);
    UnescapedNumber(s, i, len);
  }

  lemma UnescapedNumber(s: string, i: nat, len: nat)
    requires len >= 2 && i + 1 < |s| && s[i] == '\\' && s[i + 1] != '\n'
    ensures var (c, advance) := GetOctal(s, i + 1, len - 2);
      c != 0 ==> Unescaped(s, i, len) == [c as char] + Unescaped(s, i + 1 + advance, len - 2 - (advance - 1))
  {
    hide GetOctal;
  }

  // ----- unfolding -----

  /** No quote, no backslash, no whitespace, no NUL. */
  predicate Plain(key: string) {
    forall i :: 0 <= i < |key| ==> key[i] != '"' && key[i] != '\\' && !IsSpace(key[i]) && key[i] != '\0'
  }

  /** All whitespace after an escaped newline is skipped, if the count allows, and nothing else. */
  lemma {:induction false} SkipIndent(s: string, i: nat, n: nat, len: int)
    requires forall c :: i <= c < i + n ==> CharAt(s, c) as int in {9, 10, 11, 12, 13, 32}
    requires CharAt(s, i + n) as int !in {9, 10, 11, 12, 13, 32} && len >= n
    ensures SkipBlanks(s, i, len) == (i + n, len - n)
    decreases n
  {
    if n > 0 {
      assert CharAt(s, i) as int in {9, 10, 11, 12, 13, 32};
      SkipIndent(s, i + 1, n - 1, len - 1);
    }
  }

  /** An escaped newline and the whitespace after it leave no trace. */
  lemma EscapedNewline(s: string, i: nat, n: nat, len: nat)
    requires i + 1 < |s| && s[i] == '\\' && s[i + 1] == '\n' && len >= n + 2
    requires forall c :: i + 2 <= c < i + 2 + n ==> CharAt(s, c) as int in {9, 10, 11, 12, 13, 32}
    requires CharAt(s, i + 2 + n) as int !in {9, 10, 11, 12, 13, 32}
    ensures Unescaped(s, i, len) == Unescaped(s, i + 2 + n, len - 2 - n)
  {
    SkipIndent(s, i + 2, n, len - 2);
  }

  /** The text after position i begins with `part`. */
  ghost predicate StartsAt(s: string, i: nat, part: string) {
    i + |part| <= |s| && forall c :: 0 <= c < |part| ==> CharAt(s, i + c) == part[c]
  }

  lemma StartsAtParts(s: string, i: nat, a: string, b: string)
    requires StartsAt(s, i, a + b)
    ensures StartsAt(s, i, a) && StartsAt(s, i + |a|, b)
  {
    forall c | 0 <= c < |a| ensures CharAt(s, i + c) == a[c] {
      assert (a + b)[c] == a[c];
    }
    forall c | 0 <= c < |b| ensures CharAt(s, i + |a| + c) == b[c] {
      assert (a + b)[|a| + c] == b[c];
    }
  }

  lemma UnescapedFold(s: string, i: nat, len: nat, key: string)
    requires StartsAt(s, i, "\\\n" + INDENT) && !IsSpace(CharAt(s, i + 14)) && len >= 14
    ensures Unescaped(s, i, len) == Unescaped(s, i + 14, len - 14)
  {
    var part := "\\\n" + INDENT;
    assert part[0] == '\\' && part[1] == '\n';
    assert CharAt(s, i) == part[0] && CharAt(s, i + 1) == part[1];
    forall c | i + 2 <= c < i + 14 ensures CharAt(s, c) == ' ' {
      assert CharAt(s, i + (c - i)) == part[c - i];
      assert part[c - i] == INDENT[c - i - 2];
    }
    SkipIndent(s, i + 2, 12, len - 2);
  }

  lemma UnescapedPlain(s: string, i: nat, len: nat, c: char)
    requires len > 0 && CharAt(s, i) == c && c != '\\' && c != '\0'
    ensures Unescaped(s, i, len) == [c] + Unescaped(s, i + 1, len - 1)
  {
  }

  /** Wherever the folded key stands, reading exactly its length gives back the key. */
  lemma {:induction false} UnescapedFolded(s: string, i: nat, key: string, k: nat)
    requires Plain(key) && 1 <= k && StartsAt(s, i, Folded(key, k))
    ensures Unescaped(s, i, |Folded(key, k)|) == key
    decreases |key|, k == LINE
  {
    hide Unescaped;
    if key == "" {
      NothingCopied(s, i);
    } else if k == LINE {
      var head, rest := "\\\n" + INDENT, Folded(key, 1);
      assert Folded(key, k) == head + rest;
      StartsAtParts(s, i, head, rest);
      assert rest[0] == key[0] && CharAt(s, i + 14 + 0) == rest[0];
      UnescapedFold(s, i, |Folded(key, k)|, key);
      UnescapedFolded(s, i + 14, key, 1);
    } else {
      var rest := Folded(key[1..], k + 1);
      assert Folded(key, k) == [key[0]] + rest;
      StartsAtParts(s, i, [key[0]], rest);
      assert CharAt(s, i + 0) == [key[0]][0];
      UnescapedPlain(s, i, |Folded(key, k)|, key[0]);
      UnescapedFolded(s, i + 1, key[1..], k + 1);
      assert key == [key[0]] + key[1..];
    }
  }

  lemma NothingCopied(s: string, i: nat)
    ensures Unescaped(s, i, 0) == ""
  {
  }

  /** The string token of the lexer: from the opening quote to the closing one. */
  function QuotedText(key: string): string {
    "\"" + Folded(key, 2) + "\""
  }

  /** Unfolding undoes folding: `mystrncpy` on the quoted text of `kn_encode_signture("", key)`,
      with the length the lexer passes, gives back the key. */
  lemma UnfoldUndoesFold(key: string)
    requires Plain(key)
    ensures SignatureText("", key) == INDENT + QuotedText(key) + "\n"
    ensures var text := QuotedText(key); Unescaped(text[1..], 0, |text| - 2) == key
  {
    var text, body := QuotedText(key), Folded(key, 2);
    assert text[1..] == body + "\"";
    UnescapedFolded(text[1..], 0, key, 2);
    assert INDENT + "\"" + "" + body + "\"\n" == INDENT + text + "\n" by { TextParts(body); }
  }

  lemma TextParts(body: string)
    ensures INDENT + "\"" + "" + body + "\"\n" == INDENT + ("\"" + body + "\"") + "\n"
  {
    var a, b := INDENT + "\"" + "" + body + "\"\n", INDENT + ("\"" + body + "\"") + "\n";
    assert |a| == |b|;
    forall k | 0 <= k < |a| ensures a[k] == b[k] {
      assert k < 13 || 13 <= k < 13 + |body| || k >= 13 + |body|;
    }
  }

  // ----- the licensee reader -----

  /** `parsekey` drops blanks, backslashes and newlines. */
  predicate Dropped(c: char) {
    c == ' ' || c == '\\' || c == '\n'
  }

  function Kept(s: string): (r: string)
    ensures |r| <= |s|
  {
    if s == "" then "" else Kept(s[..|s| - 1]) + if Dropped(s[|s| - 1]) then "" else [s[|s| - 1]]
  }

  /** The text between the first two quotes. */
  predicate QuotesAt(s: string, open: nat, close: nat) {
    open < close < |s| && s[open] == '"' && s[close] == '"' && forall i :: 0 <= i < close && i != open ==> s[i] != '"'
  }

  lemma QuotesUnique(s: string, open: nat, close: nat, open': nat, close': nat)
    requires QuotesAt(s, open, close) && QuotesAt(s, open', close')
    ensures open == open' && close == close'
  {
  }

  /** `parsekey`, on a text with two quotes: one pass counts, the second one copies. */
  method ParseKey(key: string) returns (result: array<char>, len: nat)
    requires exists open: nat, close: nat :: QuotesAt(key, open, close)
    ensures fresh(result) && result.Length == len
    ensures forall open: nat, close: nat :: QuotesAt(key, open, close) ==> result[..] == Kept(key[open + 1..close])
  {
    hide Kept, QuotesAt;
    ghost var open: nat, close: nat :| QuotesAt(key, open, close);
    len := CountKept(key, open, close);
    result := new char[len];
    CopyKept(key, result, open, close);
    forall open': nat, close': nat | QuotesAt(key, open', close') ensures open' == open && close' == close {
      QuotesUnique(key, open, close, open', close');
    }
  }

  method CountKept(key: string, ghost open: nat, ghost close: nat) returns (newlen: nat)
    requires QuotesAt(key, open, close)
    ensures newlen == |Kept(key[open + 1..close])|
  {
    hide Kept;
    var total := FirstQuote(key, open, close);
    total, newlen := total + 1, 0;
    KeptStart(key, open + 1);
    while key[total] != '"'
      invariant open + 1 <= total <= close && newlen == |Kept(key[open + 1..total])|
      decreases close - total
    {
      KeptStep(key, open + 1, total);
      if key[total] != ' ' && key[total] != '\\' && key[total] != '\n' {
        newlen := newlen + 1;
      }
      total := total + 1;
    }
  }

  method CopyKept(key: string, result: array<char>, ghost open: nat, ghost close: nat)
    requires QuotesAt(key, open, close) && result.Length == |Kept(key[open + 1..close])|
    modifies result
    ensures result[..] == Kept(key[open + 1..close])
  {
    hide Kept;
    var total := FirstQuote(key, open, close);
    total := total + 1;
    var index := 0;
    KeptStart(key, open + 1);
    while key[total] != '"'
      invariant open + 1 <= total <= close && index == |Kept(key[open + 1..total])| <= result.Length
      invariant result[..index] == Kept(key[open + 1..total])
      decreases close - total
    {
      KeptStep(key, open + 1, total);
      KeptGrows(key, open + 1, total + 1, close);
      if key[total] != ' ' && key[total] != '\\' && key[total] != '\n' {
        result[index] := key[total];
        index := index + 1;
      }
      total := total + 1;
    }
    assert result[..] == result[..index];
  }

  lemma KeptStart(s: string, from: nat)
    requires from <= |s|
    ensures Kept(s[from..from]) == ""
  {
  }

  method FirstQuote(key: string, ghost open: nat, ghost close: nat) returns (i: nat)
    requires QuotesAt(key, open, close)
    ensures i == open
  {
    i := 0;
    while key[i] != '"'
      invariant 0 <= i <= open
      decreases open - i
    {
      i := i + 1;
    }
  }

  lemma KeptStep(s: string, from: nat, i: nat)
    requires from <= i < |s|
    ensures Kept(s[from..i + 1]) == Kept(s[from..i]) + if Dropped(s[i]) then "" else [s[i]]
  {
    assert s[from..i + 1][..i - from] == s[from..i];
  }

  lemma {:induction false} KeptGrows(s: string, from: nat, i: nat, j: nat)
    requires from <= i <= j <= |s|
    ensures |Kept(s[from..i])| <= |Kept(s[from..j])|
    decreases j - i
  {
    if i < j {
      KeptStep(s, from, i);
      KeptGrows(s, from, i + 1, j);
    }
  }

  lemma {:induction false} KeptConcat(a: string, b: string)
    ensures Kept(a + b) == Kept(a) + Kept(b)
    decreases |b|
  {
    if b == "" {
      assert a + b == a;
    } else {
      var n := |b| - 1;
      assert (a + b)[..|a| + n] == a + b[..n];
      KeptConcat(a, b[..n]);
    }
  }

  lemma {:induction false} KeptAll(s: string)
    requires forall i :: 0 <= i < |s| ==> !Dropped(s[i])
    ensures Kept(s) == s
  {
    if s != "" { KeptAll(s[..|s| - 1]); }
  }

  lemma {:induction false} KeptNone(s: string)
    requires forall i :: 0 <= i < |s| ==> Dropped(s[i])
    ensures Kept(s) == ""
  {
    if s != "" { KeptNone(s[..|s| - 1]); }
  }

  lemma {:induction false} KeptFolded(key: string, k: nat)
    requires Plain(key)
    ensures Kept(Folded(key, k)) == key && '"' !in Folded(key, k)
    decreases |key|, k == LINE
  {
    if key != "" {
      if k == LINE {
        KeptFolded(key, 1);
        KeptNone("\\\n" + INDENT);
        KeptConcat("\\\n" + INDENT, Folded(key, 1));
      } else {
        KeptFolded(key[1..], k + 1);
        KeptAll([key[0]]);
        KeptConcat([key[0]], Folded(key[1..], k + 1));
        assert key == [key[0]] + key[1..];
      }
    }
  }

  lemma KeptOne(c: char)
    ensures Kept([c]) == if c == ' ' || c == '\\' || c == '\n' then "" else [c]
  {
    assert [c][..0] == "";
    assert Kept("") == "";
  }

  /** `parsekey` on the whole signature text gives back the key as well. */
  lemma ParseKeyUndoesFold(key: string)
    requires Plain(key)
    ensures var text := SignatureText("", key);
      QuotesAt(text, 12, |text| - 2) && Kept(text[13..|text| - 2]) == key
  {
    var text, body := SignatureText("", key), Folded(key, 2);
    KeptFolded(key, 2);
    TextQuotes(body, text);
  }

  lemma TextQuotes(body: string, text: string)
    requires '"' !in body && text == INDENT + "\"" + "" + body + "\"\n"
    ensures QuotesAt(text, 12, 13 + |body|) && text[13..13 + |body|] == body
  {
    assert text[..12] == INDENT;
    assert text[13..13 + |body|] == body;
  }
}
