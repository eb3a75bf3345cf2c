/** NUL-terminated character buffers and the few C library functions the text code relies on. */
module CText {
  const NUL: char := '\0'

  /** isspace in the "C" locale. */
  predicate IsSpace(c: char) { c == ' ' || ('\t' <= c <= '\r') }

  predicate IsDigit(c: char) { '0' <= c <= '9' }

  /** Which characters these are: HT, LF, VT, FF, CR and the blank; and the ten digits. */
  lemma CharacterClasses(c: char)
    ensures IsSpace(c) <==> c in " \t\n\U{000B}\U{000C}\r"
    ensures IsDigit(c) <==> c in "0123456789"
  {}

  /** The string that a buffer holds: everything before its first NUL. */
  function CString(b: seq<char>): (s: seq<char>)
    ensures |s| <= |b| && s == b[..|s|] && NUL !in s
    ensures |s| < |b| ==> b[|s|] == NUL
  {
    if b == [] || b[0] == NUL then [] else [b[0]] + CString(b[1..])
  }

  /** The string is determined by where the first NUL is. */
  lemma {:induction false} CStringIs(b: seq<char>, n: nat)
    requires n < |b| && b[n] == NUL && NUL !in b[..n]
    ensures CString(b) == b[..n]
  {
    if n > 0 {
      assert b[0] in b[..n];
      assert b[1..][..n - 1] == b[..n][1..];
      CStringIs(b[1..], n - 1);
    }
  }

  lemma {:induction false} NoNulIsString(s: seq<char>)
    requires NUL !in s
    ensures CString(s) == s
  {
    if s != [] { NoNulIsString(s[1..]); }
  }

  /** strlen. */
  method StrLen(b: array<char>) returns (n: nat)
    requires NUL in b[..]
    ensures n == |CString(b[..])| < b.Length && b[n] == NUL
  {
    ghost var k :| 0 <= k < b.Length && b[k] == NUL;
    n := 0;
    while b[n] != NUL
      invariant n <= k && NUL !in b[..n]
      decreases k - n
    {
      n := n + 1;
      assert b[..n] == b[..n - 1] + [b[n - 1]];
    }
    CStringIs(b[..], n);
  }

  /** String(const char*): copies a buffer up to its NUL. */
  method ReadString(b: array<char>) returns (s: seq<char>)
    requires NUL in b[..]
    ensures s == CString(b[..])
  {
    var n := StrLen(b);
    s := b[..n];
  }

  /** strcpy. */
  method StrCpy(dst: array<char>, src: seq<char>)
    requires NUL !in src && |src| < dst.Length
    modifies dst
    ensures dst[..|src|] == src && dst[|src|] == NUL && CString(dst[..]) == src && NUL in dst[..]
  {
    for i := 0 to |src|
      invariant dst[..i] == src[..i]
    {
      dst[i] := src[i];
    }
    dst[|src|] := NUL;
    assert dst[..][|src|] == NUL;
    CStringIs(dst[..], |src|);
  }

  /** find_first_of with a single character; |s| when there is none. */
  function IndexOf(s: seq<char>, c: char): (i: nat)
    ensures i <= |s| && c !in s[..i]
    ensures i < |s| ==> s[i] == c
    ensures i == |s| <==> c !in s
  {
    if s == [] || s[0] == c then 0 else 1 + IndexOf(s[1..], c)
  }

  /** A scan that has passed n characters without meeting c knows this much about the index. */
  lemma {:induction false} IndexOfFrom(s: seq<char>, c: char, n: nat)
    requires n <= |s| && forall j :: 0 <= j < n ==> s[j] != c
    ensures IndexOf(s, c) >= n && (n < |s| ==> (s[n] == c <==> IndexOf(s, c) == n))
  {
    if n > 0 { IndexOfFrom(s[1..], c, n - 1); }
  }

  /** The first c stands behind a text without c. */
  lemma IndexBehind(a: seq<char>, c: char, b: seq<char>)
    requires c !in a
    ensures IndexOf(a + [c] + b, c) == |a|
  {
    hide IndexOf;
    var s := a + [c] + b;
    assert forall j :: 0 <= j < |a| ==> s[j] == a[j];
    IndexOfFrom(s, c, |a|);
  }

  predicate MatchAt(s: seq<char>, t: seq<char>, i: nat) { i + |t| <= |s| && s[i..i + |t|] == t }

  /** String::find on a substring: does s contain t? */
  predicate Contains(s: seq<char>, t: seq<char>) { exists i :: 0 <= i <= |s| && MatchAt(s, t, i) }

  /** A text contains another exactly when it can be written with it somewhere inside. */
  lemma ContainsIff(s: seq<char>, t: seq<char>)
    ensures Contains(s, t) <==> exists a, b :: s == a + t + b
  {
    if Contains(s, t) {
      var i :| 0 <= i <= |s| && MatchAt(s, t, i);
      assert s == s[..i] + t + s[i + |t|..];
    }
    if a, b :| s == a + t + b {
      assert s[|a|..|a| + |t|] == t;
      assert MatchAt(s, t, |a|);
    }
  }

  /** The texts one after the other with a separator between them. */
  function Joined(texts: seq<seq<char>>, sep: seq<char>): seq<char> {
    if texts == [] then []
    else texts[0] + ((if |texts| == 1 then [] else sep) + Joined(texts[1..], sep))
  }

  /** The text of a file with the given lines. */
  function Unlines(lines: seq<seq<char>>): seq<char> {
    if lines == [] then [] else lines[0] + "\n" + Unlines(lines[1..])
  }
}
