/** StringUtility::Trim and IsComment (libs/utility/stringutility.cpp:25-78). */
module Trim {
  import opened CText

  /** How many leading characters are space. */
  function Lead(s: seq<char>): (n: nat)
    ensures n <= |s| && (n < |s| ==> !IsSpace(s[n]))
    ensures forall j :: 0 <= j < n ==> IsSpace(s[j])
  {
    if s != [] && IsSpace(s[0]) then 1 + Lead(s[1..]) else 0
  }

  function SkipSpaces(s: seq<char>): (t: seq<char>) { s[Lead(s)..] }

  /** A ';' or a "//" begins at i. */
  predicate CommentAt(s: seq<char>, i: nat) {
    i < |s| && (s[i] == ';' || (s[i] == '/' && i + 1 < |s| && s[i + 1] == '/'))
  }

  /** Where the first comment begins, |s| when there is none. */
  function FirstComment(s: seq<char>): (i: nat)
    ensures i <= |s| && (i < |s| ==> CommentAt(s, i))
    ensures forall j :: 0 <= j < i ==> !CommentAt(s, j)
  {
    if s == [] || CommentAt(s, 0) then 0
    else
      var i := 1 + FirstComment(s[1..]);
      assert forall j :: 0 < j <= i ==> (CommentAt(s, j) <==> CommentAt(s[1..], j - 1));
      i
  }

  predicate IsBlank(c: char) { c == ' ' || c == '\t' }

  /** The last blank before n, 0 when there is none. */
  function LastBlank(s: seq<char>, n: nat): (i: nat)
    requires n <= |s|
    ensures i <= n && (n > 0 ==> i < n)
  {
    if n == 0 then 0 else if IsBlank(s[n - 1]) then n - 1 else LastBlank(s, n - 1)
  }

  /** Leading space dropped; and with a comment, everything from the last blank before it. */
  function Trimmed(s: seq<char>): seq<char> {
    var t := SkipSpaces(s);
    var c := FirstComment(t);
    if c == |t| then t else t[..LastBlank(t, c)]
  }

  /** The buffer b holds lead spaces, the text t that begins with a non-space, and a NUL. */
  predicate Laid(b: seq<char>, lead: nat, t: seq<char>) {
    && lead + |t| < |b| && b[lead + |t|] == NUL
    && (forall k :: 0 <= k < |t| ==> t[k] == b[lead + k])
    && (forall j :: 0 <= j < lead ==> IsSpace(b[j])) && (t != [] ==> !IsSpace(b[lead]))
  }

  lemma SkipSpacesIn(b: seq<char>)
    requires |CString(b)| < |b|
    ensures Laid(b, Lead(CString(b)), SkipSpaces(CString(b)))
    ensures Lead(CString(b)) + |SkipSpaces(CString(b))| == |CString(b)|
  {
    hide CString, Lead;
    var s := CString(b);
    assert forall j :: 0 <= j < |s| ==> s[j] == b[j];
    assert forall k :: 0 <= k < |SkipSpaces(s)| ==> SkipSpaces(s)[k] == s[Lead(s) + k];
  }

  /** What looking at position i of the buffer tells, while no comment was found before it. */
  lemma Look(b: seq<char>, lead: nat, t: seq<char>, i: nat)
    requires Laid(b, lead, t) && i < lead + |t|
    ensures i < lead ==> IsSpace(b[i])
    ensures i >= lead ==>
              var k := i - lead;
              && t[k] == b[i] && (k == 0 ==> !IsSpace(b[i]))
              && (k <= FirstComment(t) ==>
                    if b[i] == ';' || (b[i] == '/' && b[i + 1] == '/') then FirstComment(t) == k
                    else k < FirstComment(t))
              && LastBlank(t, k + 1) == if b[i] == ' ' || b[i] == '\t' then k else LastBlank(t, k)
  {
    hide FirstComment;
    if i >= lead {
      assert i + 1 < lead + |t| ==> t[i + 1 - lead] == b[i + 1];
      assert CommentAt(t, i - lead) <==> b[i] == ';' || (b[i] == '/' && b[i + 1] == '/');
    }
  }

  /** What the buffer holds when the rewrite stops at the comment, or at the end of the string. */
  lemma TrimmedPiece(s: seq<char>, b: seq<char>, cut: nat)
    requires NUL !in s
    requires var t := SkipSpaces(s); cut == if FirstComment(t) == |t| then |t| else LastBlank(t, FirstComment(t))
    requires cut < |b| && b[cut] == NUL && forall j :: 0 <= j < cut ==> b[j] == SkipSpaces(s)[j]
    ensures CString(b) == Trimmed(s)
  {
    var t := SkipSpaces(s);
    assert b[..cut] == t[..cut];
    CStringIs(b, cut);
  }

  /** The in-place rewrite; it never writes past the place it has read. */
  method TrimInPlace(instr: array<char>)
    requires NUL in instr[..]
    modifies instr
    ensures NUL in instr[..] && CString(instr[..]) == Trimmed(CString(old(instr[..])))
    ensures forall j :: |CString(old(instr[..]))| < j < instr.Length ==> instr[j] == old(instr[j])
  {
    hide CString, Trimmed, FirstComment, Lead, SkipSpaces, LastBlank, IsSpace, Laid;
    var len := StrLen(instr);
    ghost var b := instr[..];
    ghost var lead, t := Lead(CString(b)), SkipSpaces(CString(b));
    SkipSpacesIn(b);
    ghost var cut := 0;
    var idx, newIdx := 0, 0;
    var firstNonSpace, lastSpace := false, 0;
    while idx < len
      invariant 0 <= newIdx <= idx <= len && newIdx <= FirstComment(t)
      invariant if firstNonSpace then idx == lead + newIdx && newIdx > 0 else newIdx == 0 && idx <= lead
      invariant forall j :: idx <= j < instr.Length ==> instr[j] == b[j]
      invariant forall j :: 0 <= j < newIdx ==> instr[j] == t[j]
      invariant lastSpace == LastBlank(t, newIdx)
    {
      Look(b, lead, t, idx);
      if !firstNonSpace && IsSpace(instr[idx]) {
        idx := idx + 1;
        continue;
      }
      if instr[idx] == ';' || (instr[idx] == '/' && instr[idx + 1] == '/') {
        instr[lastSpace] := NUL;
        cut := lastSpace;
        break;
      }
      if instr[idx] == ' ' || instr[idx] == '\t' { lastSpace := newIdx; }
      firstNonSpace := true;
      instr[newIdx] := instr[idx];
      newIdx := newIdx + 1;
      idx := idx + 1;
    }
    instr[newIdx] := NUL;
    if idx == len { cut := newIdx; }
    TrimmedPiece(CString(b), instr[..], cut);
  }

  /** Neither ';' nor "//" anywhere. */
  predicate NoComment(s: seq<char>) { forall j :: 0 <= j < |s| ==> !CommentAt(s, j) }

  lemma FirstCommentIs(s: seq<char>, n: nat)
    requires n <= |s| && (n < |s| ==> CommentAt(s, n)) && forall j :: 0 <= j < n ==> !CommentAt(s, j)
    ensures FirstComment(s) == n
  {}

  lemma LeadIs(s: seq<char>, n: nat)
    requires n <= |s| && (n < |s| ==> !IsSpace(s[n])) && forall j :: 0 <= j < n ==> IsSpace(s[j])
    ensures Lead(s) == n
  {}

  lemma PrefixNoComment(t: seq<char>, k: nat)
    requires k <= FirstComment(t)
    ensures NoComment(t[..k])
  {
    forall j | 0 <= j < k ensures !CommentAt(t[..k], j) { assert !CommentAt(t, j); }
  }

  /** Text that starts with a non-space and has no comment is left alone. */
  lemma CleanIsFixed(r: seq<char>)
    requires NoComment(r) && (r != [] ==> !IsSpace(r[0]))
    ensures Trimmed(r) == r
  {
    LeadIs(r, 0);
    assert SkipSpaces(r) == r;
    FirstCommentIs(r, |r|);
  }

  /**
   The result is a contiguous piece of the input that is empty or starts with a non-space and contains
   no comment; and trimming it again changes nothing.
   */
  lemma TrimmedShape(s: seq<char>)
    ensures var r := Trimmed(s);
            && Lead(s) + |r| <= |s| && r == s[Lead(s)..Lead(s) + |r|]
            && (r != [] ==> !IsSpace(r[0])) && NoComment(r)
            && Trimmed(r) == r
  {
    hide FirstComment, LastBlank;
    var t, r := SkipSpaces(s), Trimmed(s);
    assert r == t[..|r|];
    PrefixNoComment(t, |r|);
    CleanIsFixed(r);
  }

  predicate EndsInSpace(s: seq<char>) { s != [] && IsSpace(s[|s| - 1]) }

  /**
   Space at the end is removed only with a comment, and then only the blank that the comment follows and
   what comes after it: exactly which results still end in space.
   */
  lemma TrailingSpaceIff(s: seq<char>)
    ensures EndsInSpace(Trimmed(s))
            <==> var t := SkipSpaces(s);
                 var c := FirstComment(t);
                 if c == |t| then EndsInSpace(t) else LastBlank(t, c) > 0 && IsSpace(t[LastBlank(t, c) - 1])
  {
    hide FirstComment, LastBlank;
    var t := SkipSpaces(s);
    assert forall k :: 0 < k <= |t| ==> t[..k][|t[..k]| - 1] == t[k - 1];
  }

  /** Without a comment all trailing space stays, whatever the description of the function says. */
  lemma TrailingSpaceStays(s: seq<char>, space: seq<char>)
    requires s != [] && NoComment(s) && !IsSpace(s[0])
    requires space != [] && forall j :: 0 <= j < |space| ==> IsSpace(space[j])
    ensures Trimmed(s + space) == s + space && EndsInSpace(Trimmed(s + space)) && Trimmed("a ") == "a "
  {
    forall j | 0 <= j < |s + space| ensures !CommentAt(s + space, j) {
      if j < |s| { assert !CommentAt(s, j); }
    }
    CleanIsFixed(s + space);
    assert !CommentAt("a ", 0) && !CommentAt("a ", 1);
    CleanIsFixed("a ");
  }

  /** noisy is the line l followed by a blank or a tab, a ';' or "//", and any text. */
  predicate Commented(l: seq<char>, noisy: seq<char>) {
    && |l| + 1 < |noisy| && noisy[..|l|] == l && (noisy[|l|] == ' ' || noisy[|l|] == '\t')
    && (noisy[|l| + 1] == ';' || (|l| + 2 < |noisy| && noisy[|l| + 1] == '/' && noisy[|l| + 2] == '/'))
  }

  /** What a comment after a blank leaves of a line u that starts with a non-space. */
  lemma CommentedCut(u: seq<char>, t: seq<char>)
    requires u != [] && Commented(u, t)
    ensures FirstComment(t) == if FirstComment(u) < |u| then FirstComment(u) else |u| + 1
    ensures t[..LastBlank(t, FirstComment(t))]
            == if FirstComment(u) < |u| then u[..LastBlank(u, FirstComment(u))] else u
  {
    var f := FirstComment(u);
    assert forall j :: 0 <= j < |u| ==> t[j] == u[j];
    forall j | 0 <= j < |u| ensures CommentAt(t, j) <==> CommentAt(u, j) {}
    if f < |u| {
      FirstCommentIs(t, f);
      LastBlankPrefix(t, u, f);
    } else {
      FirstCommentIs(t, |u| + 1);
    }
  }

  /** A comment that follows a blank disappears, whatever the line and the comment are. */
  lemma TrailingCommentVanishes(l: seq<char>, noisy: seq<char>)
    requires Commented(l, noisy)
    ensures Trimmed(noisy) == Trimmed(l)
  {
    hide FirstComment, LastBlank;
    var n := Lead(l);
    assert forall j :: 0 <= j < |l| ==> noisy[j] == l[j];
    if n == |l| {
      LeadIs(noisy, |l| + 1);
      assert CommentAt(SkipSpaces(noisy), 0);
      FirstCommentIs(SkipSpaces(noisy), 0);
      assert SkipSpaces(l) == [];
    } else {
      LeadIs(noisy, n);
      assert noisy[n..][..|l| - n] == l[n..];
      CommentedCut(l[n..], noisy[n..]);
    }
  }

  /** The same, spelled out. */
  lemma CommentVanishes(l: seq<char>, c: char, mark: seq<char>, text: seq<char>)
    requires c == ' ' || c == '\t'
    requires mark == ";" || mark == "//"
    ensures Trimmed(l + [c] + mark + text) == Trimmed(l)
  {
    var noisy := l + [c] + mark + text;
    assert noisy[..|l|] == l && noisy[|l|] == c;
    assert noisy[|l| + 1] == mark[0] && (|mark| == 2 ==> noisy[|l| + 2] == mark[1]);
    TrailingCommentVanishes(l, noisy);
  }

  /**
   Where the cut falls: with t the text from its first non-space, a comment in it, and what is left of it r,
   either r ends before a blank or tab with no other between it and the comment, or there is no blank or tab
   before the comment and r is empty.
   */
  lemma CutFalls(s: seq<char>)
    requires FirstComment(SkipSpaces(s)) < |SkipSpaces(s)|
    ensures var t, r := SkipSpaces(s), Trimmed(s);
            var c := FirstComment(t);
            && (t[c] == ';' || (t[c] == '/' && c + 1 < |t| && t[c + 1] == '/'))
            && |r| <= c && r == t[..|r|]
            && (forall j :: |r| < j < c ==> t[j] != ' ' && t[j] != '\t')
            && (r != [] ==> |r| < c && (t[|r|] == ' ' || t[|r|] == '\t'))
            && (r == [] ==> forall j :: 0 <= j < c ==> t[j] != ' ' && t[j] != '\t')
  {
    hide FirstComment;
    var t := SkipSpaces(s);
    LastBlankIs(t, FirstComment(t));
  }

  lemma {:induction false} LastBlankIs(t: seq<char>, n: nat)
    requires n <= |t|
    ensures forall j :: LastBlank(t, n) < j < n ==> !IsBlank(t[j])
    ensures LastBlank(t, n) > 0 ==> IsBlank(t[LastBlank(t, n)])
    ensures LastBlank(t, n) == 0 && n > 0 && !IsBlank(t[0]) ==> forall j :: 0 <= j < n ==> !IsBlank(t[j])
  {
    if n > 0 && !IsBlank(t[n - 1]) { LastBlankIs(t, n - 1); }
  }

  lemma {:induction false} LastBlankPrefix(t: seq<char>, u: seq<char>, n: nat)
    requires n <= |u| <= |t| && u == t[..|u|]
    ensures LastBlank(t, n) == LastBlank(u, n) && t[..LastBlank(t, n)] == u[..LastBlank(u, n)]
  {
    if n > 0 { LastBlankPrefix(t, u, n - 1); }
  }

  /** The lines the INI reader skips, once trimmed: empty, or starting with ';', '/', CR or LF. */
  predicate IsComment(s: seq<char>) {
    s == [] || s[0] == ';' || s[0] == '/' || s[0] == '\r' || s[0] == '\n'
  }

  lemma CommentCharacters(s: seq<char>)
    ensures IsComment(s) <==> s == [] || s[0] in ";/\r\n"
  {}

  /**
   A line is skipped exactly when it is all space, when it starts (after space) with ';' or '/', or when
   it has a comment with no blank before it: then the text before the comment goes too.
   */
  lemma SkippedIff(s: seq<char>)
    ensures IsComment(Trimmed(s))
            <==> var t := SkipSpaces(s);
                 t == [] || t[0] == ';' || t[0] == '/' || (FirstComment(t) < |t| && LastBlank(t, FirstComment(t)) == 0)
  {
    hide FirstComment, LastBlank;
    var t := SkipSpaces(s);
    if t != [] {
      assert t[0] == s[Lead(s)];
      var r := Trimmed(s);
      if r != [] { assert r[0] == t[0]; }
    }
  }
}
