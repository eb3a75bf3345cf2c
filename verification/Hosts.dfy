/** The rewrite of /etc/hosts (libs/utility/osinterface.cpp:412-485). */
module Hosts {
  import opened CText

  const FORMAT_BUFFER: nat := 4096

  // ---------------------------------------------------------------- Lines

  /** The lines std::getline delivers: an unfinished last line counts, an empty rest does not. */
  function LinesOf(content: seq<char>): seq<seq<char>>
    decreases |content|
  {
    if content == [] then []
    else
      var k := IndexOf(content, '\n');
      if k == |content| then [content] else [content[..k]] + LinesOf(content[k + 1..])
  }

  predicate NoNewlines(texts: seq<seq<char>>) { forall i :: 0 <= i < |texts| ==> '\n' !in texts[i] }

  lemma FirstLine(line: seq<char>, rest: seq<char>)
    requires '\n' !in line
    ensures LinesOf(line + "\n" + rest) == [line] + LinesOf(rest)
  {
    hide IndexOf;
    var content := line + "\n" + rest;
    assert forall j :: 0 <= j < |line| ==> content[j] == line[j];
    IndexOfFrom(content, '\n', |line|);
    assert content[..|line|] == line && content[|line| + 1..] == rest;
  }

  /** Text put before a file joins its first line. */
  lemma JoinsFirstLine(text: seq<char>, rest: seq<char>)
    requires '\n' !in text && text != []
    ensures var lines := LinesOf(rest);
            LinesOf(text + rest) == if lines == [] then [text] else [text + lines[0]] + lines[1..]
  {
    hide IndexOf, LinesOf;
    var content, k := text + rest, IndexOf(rest, '\n');
    LinesStep(content);
    LinesStep(rest);
    LinesStep([]);
    assert forall j :: 0 <= j < |text| + k ==> content[j] == if j < |text| then text[j] else rest[..k][j - |text|];
    IndexOfFrom(content, '\n', |text| + k);
    if rest == [] {
      assert content == text;
    } else if k == |rest| {
      assert content[..|text| + k] == content && rest[..k] == rest;
      assert LinesOf(rest) == [rest] && LinesOf(content) == [content];
    } else {
      assert content[|text| + k] == '\n';
      assert content[..|text| + k] == text + rest[..k] && content[|text| + k + 1..] == rest[k + 1..];
    }
  }

  lemma {:induction false} LinesOfUnlines(lines: seq<seq<char>>, rest: seq<char>)
    requires NoNewlines(lines)
    ensures LinesOf(Unlines(lines) + rest) == lines + LinesOf(rest)
  {
    hide LinesOf;
    if lines == [] {
      assert Unlines(lines) + rest == rest;
    } else {
      LinesOfUnlines(lines[1..], rest);
      FirstLine(lines[0], Unlines(lines[1..]) + rest);
      assert Unlines(lines) + rest == lines[0] + "\n" + (Unlines(lines[1..]) + rest);
    }
  }

  lemma {:induction false} LinesHaveNoNewline(content: seq<char>)
    ensures NoNewlines(LinesOf(content))
    decreases |content|
  {
    var k := IndexOf(content, '\n');
    if k < |content| { LinesHaveNoNewline(content[k + 1..]); }
  }

  // ---------------------------------------------------------------- Filtering

  predicate Mentions(line: seq<char>, texts: seq<seq<char>>) {
    exists i :: 0 <= i < |texts| && Contains(line, texts[i])
  }

  /** The lines that mention no listed address and no listed host. */
  function Kept(lines: seq<seq<char>>, ips: seq<seq<char>>, hosts: seq<seq<char>>): seq<seq<char>> {
    if lines == [] then []
    else
      (if Mentions(lines[0], ips) || Mentions(lines[0], hosts) then [] else [lines[0]])
      + Kept(lines[1..], ips, hosts)
  }

  lemma {:induction false} KeptAppend(a: seq<seq<char>>, b: seq<seq<char>>, ips: seq<seq<char>>, hosts: seq<seq<char>>)
    ensures Kept(a + b, ips, hosts) == Kept(a, ips, hosts) + Kept(b, ips, hosts)
  {
    hide Mentions;
    if a == [] {
      assert a + b == b;
    } else {
      assert (a + b)[1..] == a[1..] + b;
      KeptAppend(a[1..], b, ips, hosts);
    }
  }

  /** Filtering leaves unmentioning lines alone and removes the others. */
  lemma {:induction false} KeptFacts(lines: seq<seq<char>>, ips: seq<seq<char>>, hosts: seq<seq<char>>)
    ensures forall l :: l in Kept(lines, ips, hosts) <==> l in lines && !Mentions(l, ips) && !Mentions(l, hosts)
    ensures Kept(Kept(lines, ips, hosts), ips, hosts) == Kept(lines, ips, hosts)
    ensures (forall i :: 0 <= i < |lines| ==> Mentions(lines[i], ips)) ==> Kept(lines, ips, hosts) == []
  {
    hide Mentions;
    if lines != [] {
      var rest := Kept(lines[1..], ips, hosts);
      KeptFacts(lines[1..], ips, hosts);
      if Mentions(lines[0], ips) || Mentions(lines[0], hosts) {
        assert Kept(lines, ips, hosts) == rest;
      } else {
        assert Kept(lines, ips, hosts) == [lines[0]] + rest;
        assert ([lines[0]] + rest)[1..] == rest;
      }
    }
  }

  // ---------------------------------------------------------------- Mapping lines

  /** Format("%s %s %s\n", ...): at most 4095 characters of it. */
  function Mapping(ip: seq<char>, host: seq<char>, fqdn: seq<char>): seq<char> {
    var text := CString(ip) + " " + CString(host) + " " + CString(fqdn) + "\n";
    if |text| < FORMAT_BUFFER then text else text[..FORMAT_BUFFER - 1]
  }

  function Mappings(ips: seq<seq<char>>, hosts: seq<seq<char>>, fqdns: seq<seq<char>>): seq<char>
    requires |ips| <= |hosts| && |ips| <= |fqdns|
  {
    if ips == [] then [] else Mapping(ips[0], hosts[0], fqdns[0]) + Mappings(ips[1..], hosts[1..], fqdns[1..])
  }

  /** The file after an update. */
  function Updated(content: seq<char>, ips: seq<seq<char>>, hosts: seq<seq<char>>, fqdns: seq<seq<char>>): seq<char>
    requires |ips| <= |hosts| && |ips| <= |fqdns|
  {
    Unlines(Kept(LinesOf(content), ips, hosts)) + Mappings(ips, hosts, fqdns)
  }

  /** A line names a text when the text stands somewhere in it. */
  ghost predicate Names(line: seq<char>, text: seq<char>) { exists a, b :: line == a + text + b }

  /** The line names none of the texts. */
  ghost predicate Clear(line: seq<char>, texts: seq<seq<char>>) {
    forall i :: 0 <= i < |texts| ==> !Names(line, texts[i])
  }

  lemma ClearIff(line: seq<char>, texts: seq<seq<char>>)
    ensures Clear(line, texts) <==> !Mentions(line, texts)
  {
    hide Contains;
    forall i | 0 <= i < |texts| ensures Contains(line, texts[i]) <==> Names(line, texts[i]) {
      ContainsIff(line, texts[i]);
    }
  }

  /**
   What an update makes of the lines of a file: of the new lines the first ones name no listed address and no
   listed host, are old lines, and are all the old lines of that kind; behind them stand the mappings.
   */
  ghost predicate Rewritten(before: seq<char>, after: seq<char>, ips: seq<seq<char>>, hosts: seq<seq<char>>,
                            mappings: seq<char>)
  {
    var was, now, count := LinesOf(before), LinesOf(after), |LinesOf(after)| - |LinesOf(mappings)|;
    && count >= 0 && now[count..] == LinesOf(mappings)
    && (forall l :: l in now[..count] <==> l in was && Clear(l, ips) && Clear(l, hosts))
  }

  lemma UpdatedIsRewritten(content: seq<char>, ips: seq<seq<char>>, hosts: seq<seq<char>>, fqdns: seq<seq<char>>)
    requires |ips| <= |hosts| && |ips| <= |fqdns|
    ensures Rewritten(content, Updated(content, ips, hosts, fqdns), ips, hosts, Mappings(ips, hosts, fqdns))
  {
    hide LinesOf, Kept, Mappings, Updated, Mentions, Clear;
    UpdatedLines(content, ips, hosts, fqdns);
    KeptFacts(LinesOf(content), ips, hosts);
    var was, kept := LinesOf(content), Kept(LinesOf(content), ips, hosts);
    var now := LinesOf(Updated(content, ips, hosts, fqdns));
    var count := |kept|;
    assert now[..count] == kept && now[count..] == LinesOf(Mappings(ips, hosts, fqdns));
    forall l | l in was ensures l in kept <==> Clear(l, ips) && Clear(l, hosts) {
      ClearIff(l, ips);
      ClearIff(l, hosts);
    }
  }

  // ---------------------------------------------------------------- The method

  /** Whether a line survives: it mentions no listed address and no listed host. */
  method UsesLine(line: seq<char>, ipList: seq<seq<char>>, hostList: seq<seq<char>>) returns (useLine: bool)
    ensures useLine <==> !Mentions(line, ipList) && !Mentions(line, hostList)
    ensures useLine <==> Clear(line, ipList) && Clear(line, hostList)
  {
    hide Contains, Mentions, Clear;
    ClearIff(line, ipList);
    ClearIff(line, hostList);
    useLine := true;
    for i := 0 to |ipList|
      invariant useLine && forall j :: 0 <= j < i ==> !Contains(line, ipList[j])
    {
      if Contains(line, ipList[i]) {
        MentionsOne(line, ipList, i);
        useLine := false;
        break;
      }
    }
    if useLine {
      MentionsNone(line, ipList);
      for i := 0 to |hostList|
        invariant useLine && forall j :: 0 <= j < i ==> !Contains(line, hostList[j])
      {
        if Contains(line, hostList[i]) {
          MentionsOne(line, hostList, i);
          useLine := false;
          break;
        }
      }
      if useLine { MentionsNone(line, hostList); }
    }
  }

  class HostsFile {
    var content: seq<char>
    const canRead: bool
    const canWrite: bool

    constructor (content: seq<char>, canRead: bool, canWrite: bool)
      ensures this.content == content && this.canRead == canRead && this.canWrite == canWrite
    {
      this.content, this.canRead, this.canWrite := content, canRead, canWrite;
    }

    method UpdateEtcHosts(ipList: seq<seq<char>>, hostList: seq<seq<char>>, fqdnList: seq<seq<char>>)
      returns (success: bool)
      requires |ipList| <= |hostList| && |ipList| <= |fqdnList|
      modifies this
      ensures success <==> canRead && canWrite
      ensures content == if success then Updated(old(content), ipList, hostList, fqdnList) else old(content)
      ensures success ==> Rewritten(old(content), content, ipList, hostList, Mappings(ipList, hostList, fqdnList))
    {
      hide Contains, Mentions, Kept, LinesOf, Mapping, Mappings, Unlines, IndexOf, Rewritten, Clear;
      if !canRead { return false; }
      var fileContent: seq<seq<char>> := [];
      var rest := content;
      KeptStep([], ipList, hostList);
      while rest != []
        invariant content == old(content)
        invariant fileContent + Kept(LinesOf(rest), ipList, hostList) == Kept(LinesOf(content), ipList, hostList)
        decreases |rest|
      {
        LinesStep(rest);
        KeptStep(LinesOf(rest), ipList, hostList);
        var k := IndexOf(rest, '\n');
        var line := rest[..k];
        rest := if k < |rest| then rest[k + 1..] else [];
        var useLine := UsesLine(line, ipList, hostList);
        if useLine { fileContent := fileContent + [line]; }
      }
      LinesStep([]);
      assert fileContent == Kept(LinesOf(content), ipList, hostList);
      UpdatedIsRewritten(content, ipList, hostList, fqdnList);
      if !canWrite { return false; }
      WriteContent(fileContent, ipList, hostList, fqdnList);
      success := true;
    }

    /** The kept lines first, then the mappings. */
    method WriteContent(fileContent: seq<seq<char>>,
                        ipList: seq<seq<char>>, hostList: seq<seq<char>>, fqdnList: seq<seq<char>>)
      requires |ipList| <= |hostList| && |ipList| <= |fqdnList|
      modifies this
      ensures content == Unlines(fileContent) + Mappings(ipList, hostList, fqdnList)
    {
      hide Mapping, Mappings, Unlines;
      content := [];
      assert fileContent[0..] == fileContent;
      for i := 0 to |fileContent|
        invariant content + Unlines(fileContent[i..]) == Unlines(fileContent)
      {
        UnlinesFrom(fileContent, i);
        content := content + fileContent[i];
        content := content + "\n";
      }
      UnlinesFrom(fileContent, |fileContent|);
      assert ipList[0..] == ipList && hostList[0..] == hostList && fqdnList[0..] == fqdnList;
      for i := 0 to |ipList|
        invariant content + Mappings(ipList[i..], hostList[i..], fqdnList[i..])
                  == Unlines(fileContent) + Mappings(ipList, hostList, fqdnList)
      {
        MappingsFrom(ipList, hostList, fqdnList, i);
        content := content + Mapping(ipList[i], hostList[i], fqdnList[i]);
      }
      MappingsFrom(ipList, hostList, fqdnList, |ipList|);
    }
  }

  lemma UnlinesFrom(lines: seq<seq<char>>, i: nat)
    requires i <= |lines|
    ensures Unlines(lines[i..]) == if i == |lines| then [] else lines[i] + "\n" + Unlines(lines[i + 1..])
  {
    if i < |lines| { assert lines[i..][1..] == lines[i + 1..]; }
  }

  lemma MappingsFrom(ips: seq<seq<char>>, hosts: seq<seq<char>>, fqdns: seq<seq<char>>, i: nat)
    requires i <= |ips| <= |hosts| && |ips| <= |fqdns|
    ensures Mappings(ips[i..], hosts[i..], fqdns[i..])
            == if i == |ips| then []
               else Mapping(ips[i], hosts[i], fqdns[i]) + Mappings(ips[i + 1..], hosts[i + 1..], fqdns[i + 1..])
  {
    hide Mapping;
    if i < |ips| {
      assert ips[i..][1..] == ips[i + 1..] && hosts[i..][1..] == hosts[i + 1..] && fqdns[i..][1..] == fqdns[i + 1..];
    }
  }

  lemma LinesStep(rest: seq<char>)
    ensures var k := IndexOf(rest, '\n');
            LinesOf(rest) == if rest == [] then [] else [rest[..k]] + LinesOf(if k < |rest| then rest[k + 1..] else [])
  {
    hide IndexOf;
    var k := IndexOf(rest, '\n');
    if k == |rest| { assert rest[..k] == rest; }
  }

  lemma KeptStep(lines: seq<seq<char>>, ips: seq<seq<char>>, hosts: seq<seq<char>>)
    ensures Kept(lines, ips, hosts)
            == if lines == [] then []
               else (if Mentions(lines[0], ips) || Mentions(lines[0], hosts) then [] else [lines[0]])
                    + Kept(lines[1..], ips, hosts)
  {}

  lemma MentionsOne(line: seq<char>, texts: seq<seq<char>>, i: nat)
    requires i < |texts| && Contains(line, texts[i])
    ensures Mentions(line, texts)
  {}

  lemma MentionsNone(line: seq<char>, texts: seq<seq<char>>)
    requires forall i :: 0 <= i < |texts| ==> !Contains(line, texts[i])
    ensures !Mentions(line, texts)
  {}

  // ---------------------------------------------------------------- What the rewrite achieves

  /** Texts that a line can hold whole, addresses that survive the formatting buffer. */
  predicate Printable(ips: seq<seq<char>>, hosts: seq<seq<char>>, fqdns: seq<seq<char>>) {
    && |ips| <= |hosts| && |ips| <= |fqdns|
    && NoNewlines(ips) && NoNewlines(hosts) && NoNewlines(fqdns)
    && forall i :: 0 <= i < |ips| ==> NUL !in ips[i] && |ips[i]| < 4096
  }

  /** A mapping begins with its address; all of it but a closing newline is on one line. */
  lemma MappingShape(ip: seq<char>, host: seq<char>, fqdn: seq<char>)
    requires NUL !in ip && |ip| < 4096 && '\n' !in ip && '\n' !in host && '\n' !in fqdn
    ensures var m := Mapping(ip, host, fqdn);
            && |ip| <= |m| && m[..|ip|] == ip && m != []
            && '\n' !in m[..|m| - 1]
  {
    NoNulIsString(ip);
    var body := CString(ip) + " " + CString(host) + " " + CString(fqdn);
    assert '\n' !in body;
    assert forall j :: 0 <= j < |Mapping(ip, host, fqdn)| - 1 ==> Mapping(ip, host, fqdn)[j] == body[j];
  }

  lemma ContainsPrefix(line: seq<char>, text: seq<char>)
    requires |text| <= |line| && line[..|text|] == text
    ensures Contains(line, text)
  {
    assert MatchAt(line, text, 0);
  }

  /** Every line of the new mappings holds one of the addresses. */
  lemma {:induction false} MappingsMention(all: seq<seq<char>>,
                                           ips: seq<seq<char>>, hosts: seq<seq<char>>, fqdns: seq<seq<char>>)
    requires Printable(ips, hosts, fqdns) && forall i :: 0 <= i < |ips| ==> ips[i] in all
    ensures forall i :: 0 <= i < |LinesOf(Mappings(ips, hosts, fqdns))| ==>
              Mentions(LinesOf(Mappings(ips, hosts, fqdns))[i], all)
  {
    hide Mapping, Contains, LinesOf, Mentions, CString;
    if ips == [] {
      LinesStep([]);
    } else {
      var m, rest := Mapping(ips[0], hosts[0], fqdns[0]), Mappings(ips[1..], hosts[1..], fqdns[1..]);
      MappingsMention(all, ips[1..], hosts[1..], fqdns[1..]);
      MappingShape(ips[0], hosts[0], fqdns[0]);
      var n := |m| - 1;
      if m[n] == '\n' {
        assert m == m[..n] + "\n";
        FirstLine(m[..n], rest);
        FirstLineMentions(m[..n], ips[0], all);
      } else {
        assert m == m[..n] + [m[n]];
        JoinsFirstLine(m, rest);
        var l := if LinesOf(rest) == [] then m else m + LinesOf(rest)[0];
        FirstLineMentions(l, ips[0], all);
      }
    }
  }

  lemma FirstLineMentions(line: seq<char>, ip: seq<char>, all: seq<seq<char>>)
    requires |ip| <= |line| && line[..|ip|] == ip && ip in all
    ensures Mentions(line, all)
  {
    ContainsPrefix(line, ip);
    var i :| 0 <= i < |all| && all[i] == ip;
    MentionsOne(line, all, i);
  }

  /** After an update the file is the surviving lines, in their order, and then the mapping lines. */
  lemma UpdatedLines(content: seq<char>, ips: seq<seq<char>>, hosts: seq<seq<char>>, fqdns: seq<seq<char>>)
    requires |ips| <= |hosts| && |ips| <= |fqdns|
    ensures LinesOf(Updated(content, ips, hosts, fqdns))
            == Kept(LinesOf(content), ips, hosts) + LinesOf(Mappings(ips, hosts, fqdns))
  {
    hide LinesOf, Kept, Mappings, Unlines, Mentions;
    var kept := Kept(LinesOf(content), ips, hosts);
    LinesHaveNoNewline(content);
    KeptFacts(LinesOf(content), ips, hosts);
    forall i | 0 <= i < |kept| ensures '\n' !in kept[i] { assert kept[i] in LinesOf(content); }
    LinesOfUnlines(kept, Mappings(ips, hosts, fqdns));
  }

  /** Updating twice is updating once. */
  lemma UpdateTwice(content: seq<char>, ips: seq<seq<char>>, hosts: seq<seq<char>>, fqdns: seq<seq<char>>)
    requires Printable(ips, hosts, fqdns)
    ensures Updated(Updated(content, ips, hosts, fqdns), ips, hosts, fqdns) == Updated(content, ips, hosts, fqdns)
  {
    hide LinesOf, Kept, Mappings, Unlines, Mentions;
    var kept, mapped := Kept(LinesOf(content), ips, hosts), LinesOf(Mappings(ips, hosts, fqdns));
    UpdatedLines(content, ips, hosts, fqdns);
    KeptFacts(LinesOf(content), ips, hosts);
    MappingsMention(ips, ips, hosts, fqdns);
    KeptFacts(mapped, ips, hosts);
    KeptAppend(kept, mapped, ips, hosts);
    assert kept + [] == kept;
    assert LinesOf(Updated(content, ips, hosts, fqdns)) == kept + mapped;
  }

  /** One mapping line: not cut, and without newlines. */
  predicate ShortMapping(ip: seq<char>, host: seq<char>, fqdn: seq<char>) {
    && NUL !in ip && NUL !in host && NUL !in fqdn && '\n' !in ip && '\n' !in host && '\n' !in fqdn
    && |ip| + |host| + |fqdn| + 3 < 4096
  }

  lemma ShortMappingWhole(ip: seq<char>, host: seq<char>, fqdn: seq<char>)
    requires ShortMapping(ip, host, fqdn)
    ensures Mapping(ip, host, fqdn) == ip + " " + host + " " + fqdn + "\n"
    ensures '\n' !in ip + " " + host + " " + fqdn
  {
    NoNulIsString(ip);
    NoNulIsString(host);
    NoNulIsString(fqdn);
  }

  /** Short mappings are written as one line each. */
  lemma {:induction false} MappingLines(ips: seq<seq<char>>, hosts: seq<seq<char>>, fqdns: seq<seq<char>>)
    requires |ips| == |hosts| == |fqdns|
    requires forall i :: 0 <= i < |ips| ==> ShortMapping(ips[i], hosts[i], fqdns[i])
    ensures |LinesOf(Mappings(ips, hosts, fqdns))| == |ips|
    ensures forall i :: 0 <= i < |ips| ==>
              LinesOf(Mappings(ips, hosts, fqdns))[i] == ips[i] + " " + hosts[i] + " " + fqdns[i]
  {
    hide LinesOf, CString, Mapping;
    if ips == [] {
      LinesStep([]);
    } else {
      var line := ips[0] + " " + hosts[0] + " " + fqdns[0];
      ShortMappingWhole(ips[0], hosts[0], fqdns[0]);
      MappingLines(ips[1..], hosts[1..], fqdns[1..]);
      FirstLine(line, Mappings(ips[1..], hosts[1..], fqdns[1..]));
    }
  }

  /**
   The update is authoritative: a line of the new file that mentions a listed address or host is one of
   the freshly written mapping lines, of which there is one for each address; and every old line that
   mentions none is still there.
   */
  lemma UpdateIsAuthoritative(content: seq<char>, ips: seq<seq<char>>, hosts: seq<seq<char>>, fqdns: seq<seq<char>>)
    requires |ips| == |hosts| == |fqdns|
    requires forall i :: 0 <= i < |ips| ==> ShortMapping(ips[i], hosts[i], fqdns[i])
    ensures var lines := LinesOf(Updated(content, ips, hosts, fqdns));
            var first := |lines| - |ips|;
            && first >= 0
            && (forall j :: 0 <= j < |lines| && (Mentions(lines[j], ips) || Mentions(lines[j], hosts)) ==> j >= first)
            && (forall i :: 0 <= i < |ips| ==> lines[first + i] == ips[i] + " " + hosts[i] + " " + fqdns[i])
            && (forall l :: l in LinesOf(content) && !Mentions(l, ips) && !Mentions(l, hosts) ==> l in lines)
            && lines[..first] == Kept(LinesOf(content), ips, hosts)
  {
    hide LinesOf, Kept, Mappings, Unlines, Mentions, Updated;
    UpdatedLines(content, ips, hosts, fqdns);
    KeptFacts(LinesOf(content), ips, hosts);
    MappingLines(ips, hosts, fqdns);
  }
}
