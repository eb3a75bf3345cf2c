/** What the INI reader is for: it inverts printing, and it does not see blank lines and comments. */
module IniTheorems {
  import opened CText
  import opened Ini
  import opened Options
  import opened Trim

  // ---------------------------------------------------------------- Noise

  /** An empty line, a line of space, or one whose first non-space is ';' or '/'. */
  predicate NoiseLine(l: seq<char>) {
    var s := CString(l);
    Lead(s) == |s| || s[Lead(s)] == ';' || s[Lead(s)] == '/'
  }

  /** The same line, or the line with a blank or tab and a comment after it. */
  predicate SameLine(l: seq<char>, noisy: seq<char>) { noisy == l || Commented(CString(l), CString(noisy)) }

  /** noisy is lines with noise lines put in anywhere and comments put after any of its lines. */
  predicate NoisyCopy(lines: seq<seq<char>>, noisy: seq<seq<char>>)
    decreases |noisy|
  {
    if noisy == [] then lines == []
    else
      || (NoiseLine(noisy[0]) && NoisyCopy(lines, noisy[1..]))
      || (lines != [] && SameLine(lines[0], noisy[0]) && NoisyCopy(lines[1..], noisy[1..]))
  }

  lemma NoiseSkipped(l: seq<char>)
    requires NoiseLine(l)
    ensures IsComment(Trimmed(CString(l)))
  {
    hide Trimmed;
    var s := CString(l);
    SkippedIff(s);
    assert SkipSpaces(s) != [] ==> SkipSpaces(s)[0] == s[Lead(s)];
  }

  /** From any state of the reader, inside a multiline value or not, a noisy copy does the same. */
  lemma {:induction false} NoiseInvariant(r: Reader, lines: seq<seq<char>>, noisy: seq<seq<char>>)
    requires NoisyCopy(lines, noisy)
    ensures ReadAll(r, noisy) == ReadAll(r, lines)
    decreases |noisy|
  {
    hide NoiseLine, Trimmed, CString, IsComment;
    if noisy != [] {
      if NoiseLine(noisy[0]) && NoisyCopy(lines, noisy[1..]) {
        NoiseSkipped(noisy[0]);
        NoiseInvariant(r, lines, noisy[1..]);
      } else {
        if noisy[0] != lines[0] { TrailingCommentVanishes(CString(lines[0]), CString(noisy[0])); }
        NoiseInvariant(Step(r, lines[0]), lines[1..], noisy[1..]);
      }
    }
  }

  // ---------------------------------------------------------------- Files

  predicate FitsLine(l: seq<char>) { |l| <= MAX_LINE && '\n' !in l }

  predicate AllFit(lines: seq<seq<char>>) { forall i :: 0 <= i < |lines| ==> FitsLine(lines[i]) }

  /** getline delivers short lines as they are, and goes on behind them. */
  lemma {:induction false} LinesThenRest(lines: seq<seq<char>>, rest: seq<char>)
    requires AllFit(lines)
    ensures Lines(Unlines(lines) + rest) == lines + Lines(rest)
  {
    hide Lines, CString;
    if lines == [] {
      assert Unlines(lines) + rest == rest;
    } else {
      var more := Unlines(lines[1..]) + rest;
      assert Unlines(lines) + rest == lines[0] + "\n" + more;
      LineThenRest(lines[0], more);
      LinesThenRest(lines[1..], rest);
    }
  }

  /** At the end of such a file it delivers an empty line. */
  lemma LinesOfFile(lines: seq<seq<char>>)
    requires AllFit(lines)
    ensures Lines(Unlines(lines)) == lines + [""]
  {
    hide Lines;
    LinesThenRest(lines, "");
    assert Unlines(lines) + "" == Unlines(lines);
    LinesStep("", 0);
  }

  /** A line of more than 126 characters is cut there, and nothing behind it is read. */
  lemma LongLineEndsFile(lines: seq<seq<char>>, rest: seq<char>)
    requires AllFit(lines) && |rest| > 126 && '\n' !in rest[..127]
    ensures Lines(Unlines(lines) + rest) == lines + [rest[..126]]
  {
    hide Lines, Unlines;
    LinesThenRest(lines, rest);
    assert forall j :: 0 <= j < 127 ==> rest[j] == rest[..127][j];
    LinesStep(rest, 126);
  }

  /** The lines getline delivers are short and hold no newline. */
  lemma {:induction false} LinesFit(content: seq<char>)
    ensures AllFit(Lines(content))
    decreases |content|
  {
    var k := IndexOf(content, '\n');
    if k <= MAX_LINE && k < |content| { LinesFit(content[k + 1..]); }
  }

  /** A list of lines is delivered as it was written exactly when each fits the line buffer. */
  lemma LinesOfFileIff(lines: seq<seq<char>>)
    ensures Lines(Unlines(lines)) == lines + [""]
            <==> forall i :: 0 <= i < |lines| ==> |lines[i]| <= 126 && '\n' !in lines[i]
  {
    hide Lines, Unlines;
    if AllFit(lines) { LinesOfFile(lines); }
    if Lines(Unlines(lines)) == lines + [""] {
      LinesFit(Unlines(lines));
      forall i | 0 <= i < |lines| ensures FitsLine(lines[i]) {
        assert (lines + [""])[i] == lines[i];
        assert FitsLine((lines + [""])[i]);
      }
    }
  }

  lemma LineThenRest(l: seq<char>, rest: seq<char>)
    requires FitsLine(l)
    ensures Lines(l + "\n" + rest) == [l] + Lines(rest)
  {
    hide Lines;
    var text := l + "\n" + rest;
    assert forall j :: 0 <= j < |l| ==> text[j] == l[j];
    LinesStep(text, |l|);
    assert text[..|l|] == l && text[|l| + 1..] == rest;
  }

  lemma {:induction false} ReadAllAppend(r: Reader, a: seq<seq<char>>, b: seq<seq<char>>)
    ensures ReadAll(r, a + b) == ReadAll(ReadAll(r, a), b)
    decreases |a|
  {
    if a == [] {
      assert a + b == b;
    } else {
      assert (a + b)[1..] == a[1..] + b;
      ReadAllAppend(Step(r, a[0]), a[1..], b);
    }
  }

  lemma EmptyLineDoesNothing(r: Reader)
    ensures ReadAll(r, [""]) == r
  {}

  lemma CallsOfFile(lines: seq<seq<char>>)
    requires AllFit(lines)
    ensures Calls(Some(Unlines(lines))) == ReadAll(START, lines).calls
  {
    LinesOfFile(lines);
    ReadAllAppend(START, lines, [""]);
    EmptyLineDoesNothing(ReadAll(START, lines));
  }

  /** Noise anywhere in a file leaves the whole sequence of callbacks unchanged. */
  lemma FileNoiseInvariant(lines: seq<seq<char>>, noisy: seq<seq<char>>)
    requires AllFit(lines) && AllFit(noisy) && NoisyCopy(lines, noisy)
    ensures Calls(Some(Unlines(noisy))) == Calls(Some(Unlines(lines)))
  {
    CallsOfFile(lines);
    CallsOfFile(noisy);
    NoiseInvariant(START, lines, noisy);
  }

  // ---------------------------------------------------------------- Round trip

  /** A piece of configuration: a section heading, a setting, or a setting whose value is a list of lines. */
  datatype Item =
    | Heading(name: seq<char>)
    | Setting(key: seq<char>, value: seq<char>)
    | ListSetting(key: seq<char>, body: seq<seq<char>>)

  function HeadingLine(name: seq<char>): seq<char> { "[" + name + "]" }

  function SettingLine(key: seq<char>, value: seq<char>): seq<char> { key + "=" + value }

  function Print(i: Item): seq<seq<char>> {
    match i
    case Heading(name) => [HeadingLine(name)]
    case Setting(key, value) => [SettingLine(key, value)]
    case ListSetting(key, body) => [SettingLine(key, "[")] + body + ["]"]
  }

  function PrintAll(items: seq<Item>): seq<seq<char>> {
    if items == [] then [] else Print(items[0]) + PrintAll(items[1..])
  }

  function Concat(body: seq<seq<char>>): seq<char> {
    if body == [] then [] else Concat(body[..|body| - 1]) + body[|body| - 1]
  }

  /** The callbacks an item asks for in a section. */
  function Asked(section: seq<char>, item: Item): seq<Call> {
    match item
    case Heading(_) => []
    case Setting(key, value) => [Call(section, key, value)]
    case ListSetting(key, body) => [Call(section, key, Concat(body))]
  }

  /** The callbacks a configuration asks for, from the section in force on. */
  function Expected(section: seq<char>, items: seq<Item>): seq<Call>
    decreases |items|
  {
    if items == [] then []
    else Asked(section, items[0]) + Expected(if items[0].Heading? then items[0].name else section, items[1..])
  }

  /** A line that reading leaves as it is and does not skip. */
  predicate PlainLine(l: seq<char>) {
    && NUL !in l && NoComment(l)
    && l != [] && !IsSpace(l[0]) && l[0] != '/'
  }

  /** The brackets of a line do not make it look like a section heading. */
  predicate NotHeading(l: seq<char>) {
    '[' !in l || ']' !in l || IndexOf(l, ']') <= 1 || IndexOf(l, '[') == |l| - 1
  }

  predicate SettingOk(key: seq<char>, value: seq<char>) {
    && PlainLine(SettingLine(key, value)) && NotHeading(SettingLine(key, value))
    && |key| >= 2 && '=' !in key
    && !(value != [] && value[0] == '[')
  }

  predicate WellFormed(i: Item) {
    match i
    case Heading(name) => name != [] && ']' !in name && PlainLine(HeadingLine(name))
    case Setting(key, value) => SettingOk(key, value)
    case ListSetting(key, body) =>
      && PlainLine(SettingLine(key, "[")) && NotHeading(SettingLine(key, "["))
      && |key| >= 2 && '=' !in key
      && forall j :: 0 <= j < |body| ==> PlainLine(body[j]) && ']' !in body[j]
  }

  lemma NotHeadingIff(l: seq<char>)
    ensures InterpretSection(l) == "" <==> NotHeading(l)
  {}

  /** Plain lines reach the interpreter unchanged; and what reaches it unchanged is plain. */
  lemma PlainLineIff(l: seq<char>)
    ensures Trimmed(CString(l)) == l && !IsComment(l) <==> PlainLine(l)
  {
    if PlainLine(l) {
      NoNulIsString(l);
      CleanIsFixed(l);
      assert !CommentAt(l, 0);
    }
    if Trimmed(CString(l)) == l {
      TrimmedShape(CString(l));
      assert CString(l) == l;
    }
  }

  lemma NoSemicolon(t: seq<char>)
    requires NoComment(t)
    ensures IndexOf(t, ';') == |t|
  {
    forall j | 0 <= j < |t| ensures t[j] != ';' { assert !CommentAt(t, j); }
  }

  lemma SplitSetting(key: seq<char>, value: seq<char>)
    requires NoComment(SettingLine(key, value)) && |key| >= 2 && '=' !in key
    ensures InterpretKeyValue(SettingLine(key, value)) == Some((key, value))
  {
    hide IndexOf;
    var l := SettingLine(key, value);
    assert forall j :: 0 <= j < |key| ==> l[j] == key[j];
    IndexOfFrom(l, '=', |key|);
    NoSemicolon(l);
    assert l[..|key|] == key && l[|key| + 1..] == value;
  }

  lemma SettingReadBack(r: Reader, key: seq<char>, value: seq<char>)
    requires !r.multilineStart && SettingOk(key, value)
    ensures Step(r, SettingLine(key, value)) == r.(key := key, calls := r.calls + [Call(r.section, key, value)])
  {
    hide Trimmed, CString, SettingLine, NotHeading, PlainLine, IsComment, InterpretSection, InterpretKeyValue;
    var l := SettingLine(key, value);
    PlainLineIff(l);
    NotHeadingIff(l);
    PlainHasNoComment(l);
    SplitSetting(key, value);
  }

  lemma PlainHasNoComment(l: seq<char>)
    requires PlainLine(l)
    ensures NoComment(l)
  {}

  /** What a line that made a call outside a multiline value looked like. */
  lemma CallNeeds(r: Reader, l: seq<char>, key: seq<char>, value: seq<char>)
    requires !r.multilineStart
    requires Step(r, l).calls == r.calls + [Call(r.section, key, value)]
    ensures var t := Trimmed(CString(l));
            && !IsComment(t) && NotHeading(t) && t == SettingLine(key, value)
            && |key| >= 2 && '=' !in key && !(value != [] && value[0] == '[')
  {
    hide Trimmed, CString, IsComment, NotHeading, InterpretSection, InterpretKeyValue, SettingLine;
    var t := Trimmed(CString(l));
    assert Step(r, l).calls != r.calls;
    NotHeadingIff(t);
    TrimmedShape(CString(l));
    match InterpretKeyValue(t) {
      case None =>
      case Some((k, v)) =>
        KeyValueParts(t, k, v);
        assert (r.calls + [Call(r.section, k, v)])[|r.calls|] == (r.calls + [Call(r.section, key, value)])[|r.calls|];
    }
  }

  lemma KeyValueParts(t: seq<char>, key: seq<char>, value: seq<char>)
    requires NoComment(t) && InterpretKeyValue(t) == Some((key, value))
    ensures t == SettingLine(key, value) && |key| >= 2 && '=' !in key
  {
    hide IndexOf;
    NoSemicolon(t);
  }

  /**
   A printed setting is read back as the call it stands for if and only if SettingOk holds: the
   condition leaves out no key and no value that would have worked.
   */
  lemma SettingReadBackIff(r: Reader, key: seq<char>, value: seq<char>)
    requires !r.multilineStart
    ensures Step(r, SettingLine(key, value)).calls == r.calls + [Call(r.section, key, value)] <==> SettingOk(key, value)
  {
    hide Trimmed, CString, SettingLine, Step, IsComment, NotHeading, PlainLine;
    var l := SettingLine(key, value);
    if SettingOk(key, value) { SettingReadBack(r, key, value); }
    if Step(r, l).calls == r.calls + [Call(r.section, key, value)] {
      CallNeeds(r, l, key, value);
      PlainLineIff(l);
    }
  }

  /** A line that opens with a bracket is the heading of what stands before the first closing one, whatever follows. */
  lemma HeadingWithTail(r: Reader, name: seq<char>, tail: seq<char>)
    requires !r.multilineStart && name != [] && ']' !in name && PlainLine("[" + name + "]" + tail)
    ensures Step(r, "[" + name + "]" + tail) == r.(section := name)
  {
    hide Trimmed, CString, PlainLine, IsComment, InterpretSection;
    var l := "[" + name + "]" + tail;
    PlainLineIff(l);
    SectionOf("", name, tail);
    assert "" + "[" + name + "]" + tail == l;
    assert Substr(name + "]" + tail, 0, |name|) == name;
  }

  lemma HeadingReadBack(r: Reader, name: seq<char>)
    requires !r.multilineStart && WellFormed(Heading(name))
    ensures Step(r, HeadingLine(name)) == r.(section := name)
  {
    hide PlainLine, Step;
    assert "[" + name + "]" + "" == HeadingLine(name);
    HeadingWithTail(r, name, "");
  }

  /**
   What a line with brackets is taken to say: the section begins behind the first opening bracket and has as
   many characters as stand before the first closing one, but for one. With text before the brackets that is
   more than stands between them.
   */
  lemma SectionOf(before: seq<char>, name: seq<char>, tail: seq<char>)
    requires '[' !in before && ']' !in before && ']' !in name
    ensures InterpretSection(before + "[" + name + "]" + tail) == Substr(name + "]" + tail, 0, |before| + |name|)
  {
    hide IndexOf, Substr, InterpretSection;
    var l := before + "[" + name + "]" + tail;
    TwoMarks(before, '[', name, ']', tail);
    assert |l| == |before| + 1 + |name| + 1 + |tail|;
    SectionAt(l, |before|, |before| + 1 + |name|);
    SubstrOf(l, |before| + 1, |before| + |name|);
  }

  /** Where two marks stand in a text, each for the first time. */
  lemma TwoMarks(a: seq<char>, c: char, b: seq<char>, d: char, rest: seq<char>)
    requires c !in a && d !in a && d !in b && c != d
    ensures var l := a + [c] + b + [d] + rest;
            && IndexOf(l, c) == |a| && IndexOf(l, d) == |a| + 1 + |b|
            && l[..|a|] == a && l[|a| + 1..] == b + [d] + rest
  {
    hide IndexOf;
    var l, tail := a + [c] + b + [d] + rest, b + [d] + rest;
    Regroup(a, [c], b, [d], rest);
    IndexBehind(a, c, tail);
    NotInside(a, c, b, d);
    IndexBehind(a + [c] + b, d, rest);
  }

  lemma Regroup(a: seq<char>, b: seq<char>, c: seq<char>, d: seq<char>, e: seq<char>)
    ensures var l := a + b + c + d + e;
            l == a + b + (c + d + e) && l[..|a|] == a && l[|a| + |b|..] == c + d + e
  {}

  lemma NotInside(a: seq<char>, c: char, b: seq<char>, d: char)
    requires d !in a && d !in b && c != d
    ensures d !in a + [c] + b
  {}

  /**
   With a ';' in it, which no trimmed line has, a line gives a value with as many characters as stand before
   the ';', counted from the beginning of the line: more than stand between '=' and ';'.
   */
  lemma ValueWithSemicolon(key: seq<char>, value: seq<char>, tail: seq<char>)
    requires |key| >= 2 && '=' !in key && ';' !in key && ';' !in value
    ensures InterpretKeyValue(key + "=" + value + ";" + tail)
            == Some((key, Substr(value + ";" + tail, 0, |key| + 1 + |value|)))
  {
    hide IndexOf, InterpretKeyValue, Substr;
    var l := key + "=" + value + ";" + tail;
    TwoMarks(key, '=', value, ';', tail);
    KeyValueAt(l, |key|, |key| + 1 + |value|);
    SubstrOf(l, |key| + 1, |key| + 1 + |value|);
  }

  lemma SectionAt(l: seq<char>, start: nat, end: nat)
    requires start == IndexOf(l, '[') < |l| && end == IndexOf(l, ']') && 1 <= end < |l|
    ensures InterpretSection(l) == Substr(l, start + 1, end - 1)
  {
    hide IndexOf, Substr;
  }

  lemma KeyValueAt(l: seq<char>, separator: nat, end: nat)
    requires separator == IndexOf(l, '=') && end == IndexOf(l, ';') && 1 < separator < |l| && 1 < end < |l|
    ensures InterpretKeyValue(l) == Some((l[..separator], Substr(l, separator + 1, end)))
  {
    hide IndexOf, Substr;
  }

  lemma SubstrOf(s: seq<char>, pos: nat, count: nat)
    requires pos <= |s|
    ensures Substr(s, pos, count) == Substr(s[pos..], 0, count)
  {
    if pos + count <= |s| { assert s[pos..][0..count] == s[pos..pos + count]; }
  }

  /** A line that is neither a heading nor holds a '=' behind a key of two characters is passed over. */
  lemma OtherLineIgnored(r: Reader, l: seq<char>)
    requires !r.multilineStart && PlainLine(l) && NotHeading(l)
    requires '=' !in l || l[0] == '=' || (|l| > 1 && l[1] == '=')
    ensures Step(r, l) == r
  {
    hide Trimmed, CString, PlainLine, NotHeading, IsComment, InterpretSection, IndexOf;
    PlainLineIff(l);
    NotHeadingIff(l);
    IndexOfFrom(l, '=', 0);
    if '=' in l && l[0] != '=' { IndexOfFrom(l, '=', 1); }
  }

  lemma ListOpens(r: Reader, key: seq<char>)
    requires !r.multilineStart
    requires PlainLine(SettingLine(key, "[")) && NotHeading(SettingLine(key, "[")) && |key| >= 2 && '=' !in key
    ensures Step(r, SettingLine(key, "[")) == r.(key := key, multilineStart := true)
  {
    hide Trimmed, CString, SettingLine, NotHeading, PlainLine, IsComment, InterpretSection, InterpretKeyValue;
    var l := SettingLine(key, "[");
    PlainLineIff(l);
    NotHeadingIff(l);
    PlainHasNoComment(l);
    SplitSetting(key, "[");
  }

  lemma {:induction false} BodyReadBack(r: Reader, body: seq<seq<char>>)
    requires r.multilineStart && forall j :: 0 <= j < |body| ==> PlainLine(body[j]) && ']' !in body[j]
    ensures ReadAll(r, body) == r.(multiline := r.multiline + Concat(body))
    decreases |body|
  {
    hide Trimmed, CString, PlainLine, IsComment;
    if body == [] {
    } else {
      var front, last := body[..|body| - 1], body[|body| - 1];
      BodyReadBack(r, front);
      assert body == front + [last];
      ReadAllAppend(r, front, [last]);
      PlainLineIff(last);
      var m := r.(multiline := r.multiline + Concat(front));
      OneLine(m, last);
    }
  }

  lemma BracketLine()
    ensures PlainLine("]")
  {
    assert !CommentAt("]", 0);
  }

  /** Any line with a closing bracket ends a multiline value; the line itself is dropped. */
  lemma ListCloses(r: Reader, l: seq<char>)
    requires r.multilineStart && PlainLine(l) && ']' in l
    ensures Step(r, l)
            == r.(multilineStart := false, multiline := "", calls := r.calls + [Call(r.section, r.key, r.multiline)])
  {
    hide Trimmed, CString, IsComment, PlainLine;
    PlainLineIff(l);
  }

  /** A multiline value that is never closed makes no call. */
  lemma UnclosedListCallsNothing(r: Reader, key: seq<char>, body: seq<seq<char>>)
    requires !r.multilineStart && WellFormed(ListSetting(key, body))
    ensures ReadAll(r, [SettingLine(key, "[")] + body).calls == r.calls
  {
    hide Step;
    ListOpens(r, key);
    OneLine(r, SettingLine(key, "["));
    ReadAllAppend(r, [SettingLine(key, "[")], body);
    BodyReadBack(Step(r, SettingLine(key, "[")), body);
  }

  lemma ListReadBack(r: Reader, key: seq<char>, body: seq<seq<char>>)
    requires !r.multilineStart && r.multiline == "" && WellFormed(ListSetting(key, body))
    ensures ReadAll(r, Print(ListSetting(key, body)))
            == r.(key := key, calls := r.calls + [Call(r.section, key, Concat(body))])
  {
    hide Step;
    var open := SettingLine(key, "[");
    ListOpens(r, key);
    var o := Step(r, open);
    BodyReadBack(o, body);
    var b := ReadAll(o, body);
    BracketLine();
    ListCloses(b, "]");
    OneLine(r, open);
    OneLine(b, "]");
    ReadAllAppend(r, [open], body);
    ReadAllAppend(r, [open] + body, ["]"]);
    assert b.multiline == Concat(body);
  }

  /** Outside a multiline value the reader holds no multiline text. */
  predicate Ready(r: Reader) { !r.multilineStart && r.multiline == "" }

  /** What reading one printed item does. */
  lemma ItemReadBack(r: Reader, item: Item)
    requires Ready(r) && WellFormed(item)
    ensures var s := ReadAll(r, Print(item));
            && Ready(s)
            && s.section == (if item.Heading? then item.name else r.section)
            && s.calls == r.calls + Asked(r.section, item)
  {
    hide Step, WellFormed;
    match item
    case Heading(name) =>
      HeadingReadBack(r, name);
      OneLine(r, HeadingLine(name));
    case Setting(key, value) =>
      assert SettingOk(key, value) by { WellFormedSetting(key, value); }
      SettingReadBack(r, key, value);
      OneLine(r, SettingLine(key, value));
    case ListSetting(key, body) => ListReadBack(r, key, body);
  }

  lemma WellFormedSetting(key: seq<char>, value: seq<char>)
    requires WellFormed(Setting(key, value))
    ensures SettingOk(key, value)
  {}

  lemma OneLine(r: Reader, l: seq<char>)
    ensures ReadAll(r, [l]) == Step(r, l)
  {
    assert [l][1..] == [];
  }

  lemma {:induction false} ReadBack(r: Reader, items: seq<Item>)
    requires Ready(r) && forall i :: 0 <= i < |items| ==> WellFormed(items[i])
    ensures ReadAll(r, PrintAll(items)).calls == r.calls + Expected(r.section, items)
    decreases |items|
  {
    hide Step, WellFormed, Print, Asked, ReadAll;
    if items == [] {
      NoLines(r);
    } else {
      var item, rest := items[0], items[1..];
      assert WellFormed(item);
      ItemReadBack(r, item);
      ReadAllAppend(r, Print(item), PrintAll(rest));
      ReadBack(ReadAll(r, Print(item)), rest);
    }
  }

  lemma NoLines(r: Reader)
    ensures ReadAll(r, []) == r
  {}

  /**
   Round trip: the reader, run on the printed text of a well-formed configuration, makes exactly the
   calls the configuration asks for, a list value being the concatenation of its lines.
   */
  lemma RoundTrip(items: seq<Item>)
    requires AllFit(PrintAll(items)) && forall i :: 0 <= i < |items| ==> WellFormed(items[i])
    ensures Calls(Some(Unlines(PrintAll(items)))) == Expected("", items)
  {
    hide Step, WellFormed, Expected, Print, PrintAll, Unlines, Lines;
    CallsOfFile(PrintAll(items));
    ReadBack(START, items);
  }
}
