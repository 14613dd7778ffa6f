/** NUL-terminated strings in character arrays, and the library calls the sources make on them. */
module CStrings {

  /** The C string that starts at the beginning of `s`: everything before the first NUL. */
  function CString(s: string): (r: string)
    ensures |r| <= |s| && r == s[..|r|]
    ensures forall i :: 0 <= i < |r| ==> r[i] != '\0'
    ensures |r| < |s| ==> s[|r|] == '\0'
  {
    if s == [] || s[0] == '\0' then [] else [s[0]] + CString(s[1..])
  }

  /** `isspace` in the C locale. */
  predicate IsSpace(c: char) {
    c == ' ' || '\t' <= c <= '\r'
  }

  /** Tab, newline, vertical tab, form feed, carriage return and space. */
  lemma SpaceCodes(c: char)
    ensures IsSpace(c) <==> c as int in {9, 10, 11, 12, 13, 32}
  {
  }

  lemma {:induction false} CStringEnds(s: string, k: nat)
    requires k < |s| && s[k] == '\0' && forall i :: 0 <= i < k ==> s[i] != '\0'
    ensures CString(s) == s[..k]
  {
    if k > 0 {
      CStringEnds(s[1..], k - 1);
    }
  }

  /** The buffer holds exactly the C string `s`. */
  ghost predicate Holds(buf: array<char>, s: string)
    reads buf
  {
    |s| < buf.Length && buf[..|s|] == s && buf[|s|] == '\0' && '\0' !in s
  }

  lemma HeldString(buf: array<char>, s: string)
    requires Holds(buf, s)
    ensures '\0' in buf[..] && CString(buf[..]) == s
  {
    assert buf[..][|s|] == '\0' && buf[..][..|s|] == s;
    CStringEnds(buf[..], |s|);
  }

  lemma StringHeld(buf: array<char>)
    requires '\0' in buf[..]
    ensures Holds(buf, CString(buf[..]))
  {
    CStringEmbedded(buf[..]);
    var s := CString(buf[..]);
    assert buf[..][..|s|] == buf[..|s|];
  }

  lemma {:induction false} CStringDrop(s: string, k: nat)
    requires k <= |CString(s)|
    ensures CString(s[k..]) == CString(s)[k..]
  {
    if k > 0 {
      CStringDrop(s[1..], k - 1);
      assert s[1..][k - 1..] == s[k..];
    }
  }

  lemma {:induction false} CStringEmbedded(s: string)
    requires '\0' in s
    ensures |CString(s)| < |s|
  {
    if s[0] != '\0' {
      assert s == [s[0]] + s[1..];
      CStringEmbedded(s[1..]);
    }
  }

  /** Where the first NUL at or after `from` is. */
  method StrLen(str: array<char>, from: nat) returns (l: nat)
    requires from <= str.Length && '\0' in str[from..]
    ensures l == |CString(str[from..])| && from + l < str.Length && str[from + l] == '\0'
    ensures CString(str[from..]) == str[from..from + l]
  {
    ghost var s := str[from..];
    ghost var k :| 0 <= k < |s| && s[k] == '\0';
    l := 0;
    while str[from + l] != '\0'
      invariant l <= k
      invariant forall i :: 0 <= i < l ==> s[i] != '\0'
      decreases k - l
    {
      assert s[l] != '\0';
      l := l + 1;
    }
    CStringEnds(s, l);
  }

  /** `strdup` of the C string that starts at `from`. */
  method StrDup(str: array<char>, from: nat) returns (copy: array<char>)
    requires from <= str.Length && '\0' in str[from..]
    ensures fresh(copy) && Holds(copy, CString(str[from..]))
  {
    ghost var s := str[from..];
    var l := StrLen(str, from);
    copy := new char[l + 1];
    forall i | 0 <= i <= l { copy[i] := str[from + i]; }
    assert str[from..] == s;
    assert copy[..l] == s[..l] == CString(s);
  }

  // ----- whitespace -----

  /** The text without whitespace. */
  function Strip(s: string): (r: string)
    ensures |r| <= |s| && forall k :: 0 <= k < |r| ==> !IsSpace(r[k])
  {
    if s == [] then []
    else Strip(s[..|s| - 1]) + if IsSpace(s[|s| - 1]) then [] else [s[|s| - 1]]
  }

  lemma StripStep(s: string, i: nat)
    requires i < |s|
    ensures Strip(s[..i + 1]) == Strip(s[..i]) + if IsSpace(s[i]) then [] else [s[i]]
  {
    assert s[..i + 1][..i] == s[..i];
  }

  lemma {:induction false} StripPrefix(s: string, i: nat)
    requires i <= |s|
    ensures Strip(s[..i]) <= Strip(s)
    decreases |s| - i
  {
    if i < |s| {
      StripStep(s, i);
      StripPrefix(s, i + 1);
    } else {
      assert s[..i] == s;
    }
  }

  lemma {:induction false} StripNothing(s: string)
    requires forall k :: 0 <= k < |s| ==> !IsSpace(s[k])
    ensures Strip(s) == s
  {
    if s != [] {
      StripNothing(s[..|s| - 1]);
    }
  }

  lemma {:induction false} StripConcat(a: string, b: string)
    ensures Strip(a + b) == Strip(a) + Strip(b)
    decreases |b|
  {
    if b == [] {
      assert a + b == a;
    } else {
      var n := |b| - 1;
      assert (a + b)[..|a| + n] == a + b[..n];
      StripConcat(a, b[..n]);
    }
  }
}
