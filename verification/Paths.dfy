/** Path text: stripping, the keep list, creating a path (libs/utility/fileutility.cpp:48-103, 146-185). */
module Paths {
  import opened CText
  import opened Options

  const PATH_BUFFER: nat := 256

  predicate IsSeparator(c: char) { c == '/' || c == '\\' }

  // ---------------------------------------------------------------- Stripping

  /** The last separator before n, -1 when there is none. */
  function LastSeparator(s: seq<char>, n: nat): (i: int)
    requires n <= |s|
    ensures -1 <= i < n && (i >= 0 ==> IsSeparator(s[i]))
    ensures forall j :: i < j < n ==> !IsSeparator(s[j])
  {
    if n == 0 then -1 else if IsSeparator(s[n - 1]) then n - 1 else LastSeparator(s, n - 1)
  }

  /** The path without its last name; the root keeps its separator. */
  function Stripped(s: seq<char>): (r: seq<char>)
    ensures |r| <= |s| && r == s[..|r|]
  {
    var k := LastSeparator(s, |s|);
    if |s| < 2 || k < 0 then s else if k == 0 then s[..1] else s[..k]
  }

  /** The last name goes with its separator, but the root's separator stays. */
  lemma StrippedForm(folder: seq<char>, separator: char, name: seq<char>)
    requires separator == '/' || separator == '\\'
    requires folder + [separator] + name != [separator] && '/' !in name && '\\' !in name
    ensures Stripped(folder + [separator] + name) == if folder == [] then [separator] else folder
  {
    var s, k := folder + [separator] + name, |folder|;
    assert s[k] == separator;
    forall j | k < j < |s| ensures !IsSeparator(s[j]) { assert s[j] == name[j - k - 1] && s[j] in name; }
    assert LastSeparator(s, |s|) == k;
    assert s[..k] == folder;
  }

  /** Without a separator, or with fewer than two characters, the path stays. */
  lemma NothingToStrip(s: seq<char>)
    requires |s| < 2 || ('/' !in s && '\\' !in s)
    ensures Stripped(s) == s
  {
    assert forall j :: 0 <= j < |s| ==> s[j] in s;
  }

  method StripFilenameFromPath(path: array<char>)
    requires NUL in path[..]
    modifies path
    ensures NUL in path[..] && CString(path[..]) == Stripped(CString(old(path[..])))
  {
    hide CString;
    var index: int := StrLen(path);
    ghost var b := path[..];
    ghost var s := CString(b);
    if index >= 2 {
      index := index - 1;
      while index >= 0
        invariant -1 <= index < |s| && path[..] == b
        invariant LastSeparator(s, |s|) == LastSeparator(s, index + 1)
      {
        assert s[index] == path[index];
        if path[index] == '/' || path[index] == '\\' {
          var cut := if index == 0 then 1 else index;
          path[cut] := NUL;
          assert path[..][cut] == NUL && path[..][..cut] == s[..cut];
          CStringIs(path[..], cut);
          return;
        }
        index := index - 1;
      }
    }
  }

  // ---------------------------------------------------------------- The keep list

  /** The entries of a list of NUL-terminated strings that ends with an empty one. */
  function Entries(list: seq<char>): (r: seq<seq<char>>)
    ensures forall i :: 0 <= i < |r| ==> NUL !in r[i]
  {
    var entry := CString(list);
    if entry == [] then []
    else [entry] + (if |entry| < |list| then Entries(list[|entry| + 1..]) else [])
  }

  predicate DoublyTerminated(list: seq<char>) {
    && NUL in list
    && (CString(list) != [] ==> |CString(list)| < |list| && DoublyTerminated(list[|CString(list)| + 1..]))
  }

  /** A prefix of length n of the path ends where a name ends. */
  predicate NameEnds(path: seq<char>, n: nat) { n == |path| || (n < |path| && IsSeparator(path[n])) }

  /** The folder is the entry itself, or one of the folders above it. */
  predicate IsAbove(folder: seq<char>, entry: seq<char>) {
    1 < |folder| <= |entry| && entry[..|folder|] == folder && NameEnds(entry, |folder|)
  }

  /** A folder of more than one character is the entry, or stands before a separator in it. */
  lemma IsAboveIff(folder: seq<char>, entry: seq<char>)
    ensures IsAbove(folder, entry)
            <==>
            && |folder| > 1
            && (entry == folder || exists rest :: entry == folder + "/" + rest || entry == folder + "\\" + rest)
  {
    var n := |folder|;
    if IsAbove(folder, entry) && n < |entry| {
      assert entry == folder + [entry[n]] + entry[n + 1..];
    }
    if rest :| entry == folder + "/" + rest || entry == folder + "\\" + rest {
      assert entry[..n] == folder && IsSeparator(entry[n]);
    }
    if entry == folder { assert entry[..n] == folder; }
  }

  /** The list as the source keeps it in memory. */
  function Listed(entries: seq<seq<char>>): seq<char> {
    if entries == [] then [NUL] else entries[0] + ([NUL] + Listed(entries[1..]))
  }

  /** Such a list is properly ended and holds its entries. */
  lemma {:induction false} EntriesOfListed(entries: seq<seq<char>>)
    requires forall i :: 0 <= i < |entries| ==> entries[i] != [] && NUL !in entries[i]
    ensures DoublyTerminated(Listed(entries)) && Entries(Listed(entries)) == entries
  {
    hide CString, Entries, DoublyTerminated;
    var list := Listed(entries);
    if entries == [] {
      EndOfList(list);
    } else {
      var e := entries[0];
      assert list[..|e|] == e && list[|e|] == NUL;
      EntriesOfListed(entries[1..]);
      assert list[|e| + 1..] == Listed(entries[1..]);
      CStringIs(list, |e|);
      FirstEntry(list, e);
    }
  }

  lemma EndOfList(list: seq<char>)
    requires list == [NUL]
    ensures DoublyTerminated(list) && Entries(list) == []
  {
    CStringIs(list, 0);
  }

  lemma FirstEntry(list: seq<char>, entry: seq<char>)
    requires CString(list) == entry != [] && |entry| < |list| && DoublyTerminated(list[|entry| + 1..])
    ensures DoublyTerminated(list) && Entries(list) == [entry] + Entries(list[|entry| + 1..])
  {
    hide CString;
    assert list[|entry|] == NUL;
  }

  /** Stripping name after name gets to the end of such a path. */
  predicate Climbs(path: seq<char>) { |path| <= 1 || IsSeparator(path[0]) || IsSeparator(path[1]) }

  function Climb(path: seq<char>, k: nat): seq<char> {
    if k == 0 then path else Climb(Stripped(path), k - 1)
  }

  /** Climbing gets below two characters if and only if the first name has at most one. */
  lemma {:induction false} ClimbEndsIff(path: seq<char>)
    ensures (exists k: nat :: |Climb(path, k)| <= 1) <==> Climbs(path)
    decreases |path|
  {
    var next := Stripped(path);
    if |path| <= 1 {
      var none: nat := 0;
      assert |Climb(path, none)| <= 1;
    } else if next == path {
      forall k: nat ensures Climb(path, k) == path { ClimbStuck(path, k); }
    } else {
      assert |next| == LastSeparator(path, |path|) || |next| == 1;
      ClimbEndsIff(next);
      if Climbs(path) {
        var k: nat :| |Climb(next, k)| <= 1;
        assert Climb(path, k + 1) == Climb(next, k);
      } else {
        forall k: nat ensures |Climb(path, k)| > 1 {
          if k > 0 { assert |Climb(next, k - 1)| > 1; }
        }
      }
    }
  }

  lemma {:induction false} ClimbStuck(path: seq<char>, k: nat)
    requires Stripped(path) == path
    ensures Climb(path, k) == path
  {
    if k > 0 { ClimbStuck(path, k - 1); }
  }

  /** One strip passes over no folder that lies above the entry. */
  lemma StripSkipsNothing(entry: seq<char>, n: nat, folder: seq<char>)
    requires 1 < n <= |entry| && NameEnds(entry, n)
    requires Climbs(entry) || (IsAbove(folder, entry) && |folder| < n)
    ensures var m := |Stripped(entry[..n])|;
            && m < n && (m > 1 ==> NameEnds(entry, m))
            && (IsAbove(folder, entry) && |folder| < n ==> |folder| <= m)
  {
    var s := entry[..n];
    assert forall j :: 0 <= j < n ==> s[j] == entry[j];
    assert exists j :: 0 <= j < n && IsSeparator(s[j]) by {
      if Climbs(entry) { assert IsSeparator(s[0]) || IsSeparator(s[1]); } else { assert IsSeparator(s[|folder|]); }
    }
  }

  /** The search comes back: it meets no entry it cannot copy or cannot climb before it meets a match. */
  predicate Searchable(folder: seq<char>, entries: seq<seq<char>>) {
    forall i :: 0 <= i < |entries| ==>
      || (exists j :: 0 <= j < i && IsAbove(folder, entries[j]))
      || (|entries[i]| < PATH_BUFFER && (Climbs(entries[i]) || IsAbove(folder, entries[i])))
  }

  /** Null pointers find nothing. */
  method IsFolderInFileList(fileList: Option<seq<char>>, folder: Option<seq<char>>) returns (found: bool)
    requires folder.Some? ==> NUL !in folder.value
    requires fileList.Some? ==> DoublyTerminated(fileList.value)
    requires fileList.Some? && folder.Some? ==> Searchable(folder.value, Entries(fileList.value))
    ensures found <==>
              && folder.Some? && fileList.Some?
              && var entries := Entries(fileList.value);
                 exists i :: 0 <= i < |entries| && IsAbove(folder.value, entries[i])
  {
    hide CString, Stripped, Climbs, IsAbove;
    if folder.None? || fileList.None? { return false; }
    var list := fileList.value;
    var tempFolder := new char[PATH_BUFFER];
    ghost var all := Entries(list);
    ghost var seen := 0;
    while CString(list) != []
      invariant DoublyTerminated(list) && seen <= |all| && all[seen..] == Entries(list)
      invariant forall i :: 0 <= i < seen ==> !IsAbove(folder.value, all[i])
      decreases |list|
    {
      var entry := CString(list);
      assert all[seen] == entry == all[seen..][0];
      StrCpy(tempFolder, entry);
      found := IsAboveEntry(tempFolder, folder.value, entry);
      if found { return true; }
      list := list[|entry| + 1..];
      assert all[seen..][1..] == all[seen + 1..];
      seen := seen + 1;
    }
    assert all[seen..] == [];
    return false;
  }

  /** The inner loop: compares the folder with the entry and every folder above it. */
  method IsAboveEntry(tempFolder: array<char>, folder: seq<char>, ghost entry: seq<char>) returns (found: bool)
    requires NUL in tempFolder[..] && CString(tempFolder[..]) == entry
    requires Climbs(entry) || IsAbove(folder, entry)
    modifies tempFolder
    ensures found <==> IsAbove(folder, entry)
  {
    hide CString, Stripped, Climbs;
    var temp := ReadString(tempFolder);
    assert entry[..|entry|] == entry;
    while |temp| > 1
      invariant NUL in tempFolder[..] && CString(tempFolder[..]) == temp
      invariant |temp| <= |entry| && temp == entry[..|temp|] && (|temp| > 1 ==> NameEnds(entry, |temp|))
      invariant IsAbove(folder, entry) ==> |folder| <= |temp|
      decreases |temp|
    {
      if folder == temp { return true; }
      StripSkipsNothing(entry, |temp|, folder);
      StripFilenameFromPath(tempFolder);
      temp := ReadString(tempFolder);
    }
    return false;
  }
}
