/** The INI reader (libs/utility/stringutility.cpp:99-200). */
module Ini {
  import opened CText
  import opened Options
  import opened Trim

  /** One call of the add-command callback. */
  datatype Call = Call(section: seq<char>, key: seq<char>, value: seq<char>)

  /** The reader's variables, and the calls made so far. */
  datatype Reader =
    Reader(section: seq<char>, key: seq<char>, multilineStart: bool, multiline: seq<char>, calls: seq<Call>)

  const START := Reader("", "", false, "", [])

  /** getline keeps at most 126 characters of a line. */
  const MAX_LINE: nat := 126

  /** std::string::substr. */
  function Substr(s: seq<char>, pos: nat, count: nat): seq<char>
    requires pos <= |s|
  {
    if pos + count <= |s| then s[pos..pos + count] else s[pos..]
  }

  function InterpretSection(s: seq<char>): seq<char> {
    var sectionStart, sectionEnd := IndexOf(s, '['), IndexOf(s, ']');
    if sectionStart < |s| && 1 <= sectionEnd < |s| then Substr(s, sectionStart + 1, sectionEnd - 1) else ""
  }

  function InterpretKeyValue(s: seq<char>): Option<(seq<char>, seq<char>)> {
    var separator, end := IndexOf(s, '='), IndexOf(s, ';');
    if 1 < separator < |s| then
      Some((s[..separator], if 1 < end < |s| then Substr(s, separator + 1, end) else s[separator + 1..]))
    else None
  }

  /** What one line of the file does. */
  function Step(r: Reader, line: seq<char>): Reader {
    var t := Trimmed(CString(line));
    if IsComment(t) then r
    else if r.multilineStart then
      if ']' in t then
        r.(multilineStart := false, multiline := "", calls := r.calls + [Call(r.section, r.key, r.multiline)])
      else r.(multiline := r.multiline + t)
    else if InterpretSection(t) != "" then r.(section := InterpretSection(t))
    else
      match InterpretKeyValue(t)
      case None => r
      case Some((key, value)) =>
        if value != [] && value[0] == '[' then r.(key := key, multilineStart := true)
        else r.(key := key, calls := r.calls + [Call(r.section, key, value)])
  }

  function ReadAll(r: Reader, lines: seq<seq<char>>): Reader
    decreases |lines|
  {
    if lines == [] then r else ReadAll(Step(r, lines[0]), lines[1..])
  }

  /** The lines getline delivers: the last one without its newline, and nothing after an over-long one. */
  function Lines(content: seq<char>): seq<seq<char>>
    decreases |content|
  {
    var k := IndexOf(content, '\n');
    if k > MAX_LINE then [content[..MAX_LINE]]
    else if k == |content| then [content]
    else [content[..k]] + Lines(content[k + 1..])
  }

  /** The calls for a file, None standing for one that cannot be opened. */
  function Calls(file: Option<seq<char>>): seq<Call> {
    match file
    case None => []
    case Some(content) => ReadAll(START, Lines(content)).calls
  }

  function LineAt(rest: seq<char>): seq<char> {
    var k := IndexOf(rest, '\n');
    if k > MAX_LINE then rest[..MAX_LINE] else rest[..k]
  }

  /** What getline has read when it stops after k characters. */
  lemma LinesStep(rest: seq<char>, k: nat)
    requires k <= |rest| && k <= MAX_LINE && forall j :: 0 <= j < k ==> rest[j] != '\n'
    requires k == MAX_LINE || k == |rest| || rest[k] == '\n'
    ensures LineAt(rest) == rest[..k]
    ensures Lines(rest) == [rest[..k]] + (if k < |rest| && rest[k] == '\n' then Lines(rest[k + 1..]) else [])
  {
    hide IndexOf, Lines;
    IndexOfFrom(rest, '\n', k);
    FirstLine(rest);
    if k == |rest| { assert rest[..k] == rest; }
  }

  lemma FirstLine(content: seq<char>)
    ensures var k := IndexOf(content, '\n');
            Lines(content) == if k > MAX_LINE then [content[..MAX_LINE]]
                              else if k == |content| then [content]
                              else [content[..k]] + Lines(content[k + 1..])
  {
    hide IndexOf;
  }

  lemma ReadAllStep(r: Reader, line: seq<char>, rest: seq<seq<char>>)
    ensures ReadAll(r, [line] + rest) == ReadAll(Step(r, line), rest)
  {
    hide Step;
    assert ([line] + rest)[1..] == rest;
  }

  /** getline into the 128-character line buffer; the flag says whether the stream is still good. */
  method GetLine(content: seq<char>, pos: nat, line: array<char>) returns (next: nat, good: bool)
    requires pos <= |content| && line.Length == 128
    modifies line
    ensures pos <= next <= |content| && (good ==> pos < next)
    ensures Lines(content[pos..]) == [LineAt(content[pos..])] + (if good then Lines(content[next..]) else [])
    ensures NUL in line[..] && CString(line[..]) == CString(LineAt(content[pos..]))
  {
    hide Lines, LineAt, CString;
    ghost var rest := content[pos..];
    assert forall j :: 0 <= j < |rest| ==> rest[j] == content[pos + j];
    var k := 0;
    while k < MAX_LINE && pos + k < |content| && content[pos + k] != '\n'
      invariant 0 <= k <= MAX_LINE && pos + k <= |content|
      invariant forall j :: 0 <= j < k ==> line[j] == rest[j] && rest[j] != '\n'
    {
      line[k] := content[pos + k];
      k := k + 1;
    }
    line[k] := NUL;
    LinesStep(rest, k);
    assert line[..k] == rest[..k];
    CutAtNul(line[..], rest[..k]);
    assert line[..][k] == NUL;
    next := pos + k;
    good := next < |content| && content[next] == '\n';
    if good {
      next := next + 1;
      assert rest[k + 1..] == content[next..];
    }
  }

  /** A buffer that holds l and then a NUL holds the string that l begins with. */
  lemma {:induction false} CutAtNul(b: seq<char>, l: seq<char>)
    requires |l| < |b| && b[..|l|] == l && b[|l|] == NUL
    ensures CString(b) == CString(l)
  {
    var c := CString(l);
    assert b[..|c|] == c;
    assert b[|c|] == NUL by { if |c| < |l| { assert l[|c|] == NUL; } }
    CStringIs(b, |c|);
  }

  lemma NoMoreLines()
    ensures forall r :: ReadAll(r, []) == r
  {}

  method InterpretIniFile(file: Option<seq<char>>) returns (calls: seq<Call>)
    ensures calls == Calls(file)
  {
    hide Lines, LineAt, ReadAll, Trimmed, CString, IsComment, InterpretSection, InterpretKeyValue, IndexOf;
    calls := [];
    if file.None? { return; }
    NoMoreLines();
    var content := file.value;
    var section, multilineStart, multiline, key := "", false, "", "";
    var line := new char[128];
    var pos, good := 0, true;
    assert content[0..] == content;
    while good
      invariant pos <= |content|
      invariant Calls(file) == ReadAll(Reader(section, key, multilineStart, multiline, calls),
                                       if good then Lines(content[pos..]) else []).calls
      decreases good, |content| - pos
    {
      ghost var r := Reader(section, key, multilineStart, multiline, calls);
      ghost var raw := LineAt(content[pos..]);
      ghost var was := pos;
      pos, good := GetLine(content, pos, line);
      ghost var rest := if good then Lines(content[pos..]) else [];
      ReadAllStep(r, raw, rest);
      assert Calls(file) == ReadAll(Step(r, raw), rest).calls;
      TrimInPlace(line);
      var trimmedLine := ReadString(line);
      if IsComment(trimmedLine) { continue; }
      if multilineStart {
        if ']' in trimmedLine {
          calls := calls + [Call(section, key, multiline)];
          multilineStart := false;
          multiline := "";
        } else {
          multiline := multiline + trimmedLine;
        }
        continue;
      }
      var tempSection := InterpretSection(trimmedLine);
      if tempSection == "" {
        var pair := InterpretKeyValue(trimmedLine);
        if pair.Some? {
          key := pair.value.0;
          var value := pair.value.1;
          if |value| > 0 && value[0] == '[' {
            multilineStart := true;
            continue;
          }
          calls := calls + [Call(section, key, value)];
        }
      } else {
        section := tempSection;
      }
    }
  }
}
