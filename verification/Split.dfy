/** Splitting lists and expanding ranges of IPv4 addresses (libs/utility/stringutility.cpp:250-308). */
module Split {
  import opened AddressText
  import opened CText

  const IP_BUFFER: nat := 1024
  const FORMAT_BUFFER: nat := 4096

  // ---------------------------------------------------------------- Tokens

  datatype Token = End | Token(text: seq<char>, rest: seq<char>)

  function SkipDelimiters(s: seq<char>, delimiter: char): (t: seq<char>)
    ensures |t| <= |s| && (t != [] ==> t[0] != delimiter)
  {
    if s != [] && s[0] == delimiter then SkipDelimiters(s[1..], delimiter) else s
  }

  /** strtok_r: the next token and what is left after it. */
  function Strtok(s: seq<char>, delimiter: char): (r: Token)
    ensures r.Token? ==> r.text != [] && delimiter !in r.text && |r.rest| < |s|
  {
    var t := SkipDelimiters(s, delimiter);
    var n := IndexOf(t, delimiter);
    if t == [] then End else Token(t[..n], if n < |t| then t[n + 1..] else [])
  }

  /** All the tokens of s. */
  function Tokens(s: seq<char>, delimiter: char): (r: seq<seq<char>>)
    ensures forall i :: 0 <= i < |r| ==> r[i] != [] && delimiter !in r[i]
    decreases |s|
  {
    match Strtok(s, delimiter)
    case End => []
    case Token(text, rest) => [text] + Tokens(rest, delimiter)
  }

  method Split(inString: seq<char>, delimiter: char, output: seq<seq<char>>) returns (count: nat, out: seq<seq<char>>)
    ensures out == output + Tokens(inString, delimiter) && count == |Tokens(inString, delimiter)|
  {
    hide Strtok;
    out := output;
    count := 0;
    var token := Strtok(inString, delimiter);
    while token.Token?
      invariant out + (if token.End? then [] else [token.text] + Tokens(token.rest, delimiter))
                == output + Tokens(inString, delimiter)
      invariant |out| == |output| + count
      decreases if token.End? then 0 else 1 + |token.rest|
    {
      out := out + [token.text];
      token := Strtok(token.rest, delimiter);
      count := count + 1;
    }
  }

  /** Joining is undone exactly when no text is empty or holds the delimiter. */
  lemma TokensOfJoined(texts: seq<seq<char>>, delimiter: char)
    ensures Tokens(Joined(texts, [delimiter]), delimiter) == texts
            <==> forall i :: 0 <= i < |texts| ==> texts[i] != [] && delimiter !in texts[i]
  {
    hide Tokens, Joined;
    if forall i :: 0 <= i < |texts| ==> texts[i] != [] && delimiter !in texts[i] {
      TokensJoined(texts, delimiter);
    }
  }

  lemma {:induction false} TokensJoined(texts: seq<seq<char>>, delimiter: char)
    requires forall i :: 0 <= i < |texts| ==> texts[i] != [] && delimiter !in texts[i]
    ensures Tokens(Joined(texts, [delimiter]), delimiter) == texts
  {
    hide Strtok, Joined;
    if texts == [] {
      NoToken(delimiter);
    } else {
      FirstToken(texts, delimiter);
      TokensJoined(texts[1..], delimiter);
    }
  }

  lemma NoToken(delimiter: char)
    ensures Joined([], [delimiter]) == [] && Strtok([], delimiter) == End
  {}

  lemma FirstToken(texts: seq<seq<char>>, delimiter: char)
    requires texts != [] && texts[0] != [] && delimiter !in texts[0]
    ensures Strtok(Joined(texts, [delimiter]), delimiter) == Token(texts[0], Joined(texts[1..], [delimiter]))
  {
    hide Strtok, Joined;
    var head, rest := texts[0], Joined(texts[1..], [delimiter]);
    JoinedStep(texts, [delimiter]);
    var s := Joined(texts, [delimiter]);
    assert s[..|head|] == head;
    StrtokOfRun(s, delimiter, |head|);
    if |texts| > 1 { assert s[|head| + 1..] == rest; }
  }

  lemma JoinedStep(texts: seq<seq<char>>, sep: seq<char>)
    requires texts != []
    ensures Joined(texts, sep) == if |texts| == 1 then texts[0] else texts[0] + (sep + Joined(texts[1..], sep))
    ensures |texts| == 1 ==> Joined(texts[1..], sep) == []
  {}

  /** The first token ends at the first delimiter. */
  lemma StrtokOfRun(s: seq<char>, delimiter: char, n: nat)
    requires 0 < n <= |s| && delimiter !in s[..n] && (n < |s| ==> s[n] == delimiter)
    ensures Strtok(s, delimiter) == Token(s[..n], if n < |s| then s[n + 1..] else [])
  {
    hide IndexOf;
    assert forall j :: 0 <= j < n ==> s[j] == s[..n][j];
    IndexOfFrom(s, delimiter, n);
  }

  lemma TokensOfRun(s: seq<char>, delimiter: char, n: nat)
    requires 0 < n <= |s| && delimiter !in s[..n] && (n < |s| ==> s[n] == delimiter)
    ensures Tokens(s, delimiter) == [s[..n]] + Tokens(if n < |s| then s[n + 1..] else [], delimiter)
  {
    hide Strtok;
    StrtokOfRun(s, delimiter, n);
  }

  /** A text without a delimiter is one token, unless it is empty. */
  lemma TokensOfWord(word: seq<char>, delimiter: char)
    requires delimiter !in word
    ensures Tokens(word, delimiter) == if word == [] then [] else [word]
  {
    hide Tokens;
    NoTokens(delimiter);
    if word != [] {
      assert word[..|word|] == word;
      TokensOfRun(word, delimiter, |word|);
    }
  }

  /** A delimiter cuts a text into two that have their tokens apart. */
  lemma {:induction false} TokensAppend(a: seq<char>, delimiter: char, b: seq<char>)
    ensures Tokens(a + [delimiter] + b, delimiter) == Tokens(a, delimiter) + Tokens(b, delimiter)
    decreases |a|
  {
    hide Tokens;
    var s := a + [delimiter] + b;
    NoTokens(delimiter);
    if a == [] || a[0] == delimiter {
      TokensSkip(s, delimiter);
      if a == [] {
        assert s[1..] == b;
      } else {
        TokensSkip(a, delimiter);
        assert s[1..] == a[1..] + [delimiter] + b;
        TokensAppend(a[1..], delimiter, b);
      }
    } else {
      var n := IndexOf(a, delimiter);
      assert s[..n] == a[..n];
      TokensOfRun(a, delimiter, n);
      TokensOfRun(s, delimiter, n);
      if n < |a| {
        assert s[n + 1..] == a[n + 1..] + [delimiter] + b;
        TokensAppend(a[n + 1..], delimiter, b);
      } else {
        assert s[n + 1..] == b;
      }
    }
  }

  lemma NoTokens(delimiter: char)
    ensures Tokens([], delimiter) == []
  {}

  lemma TokensSkip(s: seq<char>, delimiter: char)
    requires s != [] && s[0] == delimiter
    ensures Tokens(s, delimiter) == Tokens(s[1..], delimiter)
  {}

  // ---------------------------------------------------------------- Ranges

  /** The last byte of an address replaced. */
  function WithHost(a: seq<Octet>, host: Octet): (r: seq<Octet>)
    requires |a| == IP_LENGTH
    ensures |r| == IP_LENGTH
  {
    [a[0], a[1], a[2], host]
  }

  function Count(start: nat, end: nat): nat { if start <= end then end - start + 1 else 0 }

  /** The addresses from a's own up to the one that ends in end, as text. */
  function Range(a: seq<Octet>, end: Octet): seq<seq<char>>
    requires |a| == IP_LENGTH
  {
    seq(Count(a[3], end), i requires 0 <= i < Count(a[3], end) => Dotted(WithHost(a, a[3] + i)))
  }

  /** How many addresses a range holds, none if it is backwards; and each reads back, the last byte counting up. */
  lemma RangeReadsBack(a: seq<Octet>, end: Octet)
    requires |a| == IP_LENGTH
    ensures |Range(a, end)| == if end < a[3] then 0 else end - a[3] + 1
    ensures forall i :: 0 <= i < |Range(a, end)| ==>
              Numbers(10, 8, Range(a, end)[i], IP_LENGTH) == [a[0], a[1], a[2], a[3] + i]
  {
    hide Numbers, Dotted;
    forall i | 0 <= i < Count(a[3], end)
      ensures Numbers(10, 8, Range(a, end)[i], IP_LENGTH) == [a[0], a[1], a[2], a[3] + i]
    {
      IpRoundTrip(WithHost(a, a[3] + i));
    }
  }

  /** The text holds a range: an address, a '-', and the last number of the range. */
  predicate IsRange(text: seq<char>) { '-' in text && |Tokens(text, '-')| >= 2 }

  function First(text: seq<char>): (a: seq<Octet>)
    requires IsRange(text)
    ensures |a| == IP_LENGTH
  {
    Numbers(10, 8, Tokens(text, '-')[0], IP_LENGTH)
  }

  function Last(text: seq<char>): Octet
    requires IsRange(text)
  {
    Strtoul(10, Tokens(text, '-')[1]) % 0x100
  }

  /** What the text stands for. */
  function Expanded(text: seq<char>): seq<seq<char>>
    requires '-' in text ==> IsRange(text)
  {
    if '-' in text then Range(First(text), Last(text)) else Tokens(text, ',')
  }

  /** The u8 loop counter after k rounds. */
  function Counter(start: Octet, k: nat): Octet { (start + k) % 0x100 }

  /** The loop over a range ends if and only if the last number is below 255. */
  lemma LoopEndsIff(start: Octet, end: Octet)
    ensures (exists k: nat :: !(Counter(start, k) <= end)) <==> end < 0xFF
  {
    if end < 0xFF { assert !(Counter(start, 0xFF - start) <= end); }
  }

  /**
   The source copies the text into a 1024-byte buffer, dereferences the first two '-' tokens without
   looking, and does not come back from a range that ends in 255.
   */
  method SplitIpv4(ipAddresses: seq<char>) returns (count: nat, output: seq<seq<char>>)
    requires NUL !in ipAddresses && |ipAddresses| < IP_BUFFER
    requires '-' in ipAddresses ==> IsRange(ipAddresses) && Last(ipAddresses) < 0xFF
    ensures output == Expanded(ipAddresses) && count == |output|
  {
    hide Tokens, Numbers, Strtoul, Dotted;
    count, output := 0, [];
    if '-' in ipAddresses {
      var n, ipList := Split(ipAddresses, '-', []);
      var startIp := new Octet[IP_LENGTH];
      TokenHasNoNul(ipAddresses, '-');
      StrToIpt(ipList[0], startIp);
      var end: Octet := Strtoul(10, ipList[1]) % 0x100;
      ghost var a := First(ipAddresses);
      assert ipList == Tokens(ipAddresses, '-') && startIp[..] == a && end == Last(ipAddresses);
      assert |Range(a, end)| == Count(a[3], end);
      var idx := startIp[3];
      while idx <= end
        invariant a[3] + count == idx && count <= Count(a[3], end) && startIp[..] == a
        invariant |output| == count && forall i :: 0 <= i < count ==> output[i] == Range(a, end)[i]
        decreases end - idx
      {
        assert startIp[0] == a[0] && startIp[1] == a[1] && startIp[2] == a[2];
        IpRoundTrip(WithHost(a, idx));
        output := output + [Snprintf(Dotted([startIp[0], startIp[1], startIp[2], idx]), FORMAT_BUFFER)];
        idx := (idx + 1) % 0x100;
        count := count + 1;
      }
    } else {
      count, output := Split(ipAddresses, ',', []);
    }
  }

  lemma {:induction false} TokenHasNoNul(s: seq<char>, delimiter: char)
    requires NUL !in s
    ensures forall i :: 0 <= i < |Tokens(s, delimiter)| ==> NUL !in Tokens(s, delimiter)[i]
    decreases |s|
  {
    SkippedHasNoNul(s, delimiter);
    match Strtok(s, delimiter) {
      case End =>
      case Token(text, rest) => TokenHasNoNul(rest, delimiter);
    }
  }

  lemma {:induction false} SkippedHasNoNul(s: seq<char>, delimiter: char)
    requires NUL !in s
    ensures NUL !in SkipDelimiters(s, delimiter)
  {
    if s != [] && s[0] == delimiter { SkippedHasNoNul(s[1..], delimiter); }
  }

  /**
   "a.b.c.d-e" is the inclusive range: e - d + 1 addresses, the i-th of them a.b.c.(d + i), none if e < d; and
   space before e and anything but a digit or a '-' behind it do not matter.
   */
  lemma PrintedRange(a: seq<Octet>, end: Octet, space: seq<char>, tail: seq<char>)
    requires |a| == IP_LENGTH && forall i :: 0 <= i < |space| ==> IsSpace(space[i])
    requires '-' !in tail && (tail != [] ==> !IsDigit(tail[0]))
    ensures var text := IptToStr(a) + "-" + (space + (Decimal(end) + tail));
            && '-' in text && IsRange(text) && First(text) == a && Last(text) == end
            && |Expanded(text)| == Count(a[3], end)
            && forall i :: 0 <= i < Count(a[3], end) ==>
                 Numbers(10, 8, Expanded(text)[i], IP_LENGTH) == [a[0], a[1], a[2], a[3] + i]
  {
    hide Tokens, Numbers, Strtoul, Decimal, IptToStr, Range, First, Last, IsRange;
    RangeText(a, end, space, tail);
    RangeReadsBack(a, end);
  }

  lemma RangeText(a: seq<Octet>, end: Octet, space: seq<char>, tail: seq<char>)
    requires |a| == IP_LENGTH && forall i :: 0 <= i < |space| ==> IsSpace(space[i])
    requires '-' !in tail && (tail != [] ==> !IsDigit(tail[0]))
    ensures var text := IptToStr(a) + "-" + (space + (Decimal(end) + tail));
            '-' in text && IsRange(text) && First(text) == a && Last(text) == end
  {
    hide Tokens, Numbers, Strtoul, Decimal, IptToStr;
    var last := space + (Decimal(end) + tail);
    IpRoundTrip(a);
    DecimalHasNoDash(end);
    RangeTokens(a, last);
    StrtoulOfText(space, "", Decimal(end), tail);
    assert "" + (Decimal(end) + tail) == Decimal(end) + tail;
  }

  lemma DecimalHasNoDash(n: nat)
    ensures '-' !in Decimal(n)
  {
    hide Decimal, Value;
    var s := Decimal(n);
    assert forall i :: 0 <= i < |s| ==> IsNumeral(10, s[i]);
  }

  lemma RangeTokens(a: seq<Octet>, last: seq<char>)
    requires |a| == IP_LENGTH && last != [] && '-' !in last
    ensures var text := IptToStr(a) + "-" + last; '-' in text && Tokens(text, '-') == [IptToStr(a), last]
  {
    hide Tokens, Numbers, IptToStr;
    var text := IptToStr(a) + "-" + last;
    NoDash(a);
    var texts := [IptToStr(a), last];
    assert Joined(texts[1..], "-") == last;
    assert Joined(texts, "-") == text;
    assert text[|IptToStr(a)|] == '-';
    TokensOfJoined(texts, '-');
  }

  lemma NoDash(a: seq<Octet>)
    requires |a| == IP_LENGTH
    ensures IptToStr(a) != [] && '-' !in IptToStr(a)
  {
    hide Decimal, Joined, Numbers;
    IpRoundTrip(a);
    NoDashJoined([Decimal(a[0]), Decimal(a[1]), Decimal(a[2]), Decimal(a[3])]);
  }

  lemma {:induction false} NoDashJoined(texts: seq<seq<char>>)
    requires texts != [] && forall i :: 0 <= i < |texts| ==> texts[i] != [] && AllNumeral(10, texts[i])
    ensures Joined(texts, ".") != [] && '-' !in Joined(texts, ".")
  {
    if |texts| > 1 { NoDashJoined(texts[1..]); }
  }

  /** A comma list without dashes is undone exactly when no text is empty or holds a comma. */
  lemma PrintedList(texts: seq<seq<char>>)
    requires '-' !in Joined(texts, ",")
    ensures Expanded(Joined(texts, ",")) == texts
            <==> forall i :: 0 <= i < |texts| ==> texts[i] != [] && ',' !in texts[i]
  {
    hide Tokens, Joined;
    TokensOfJoined(texts, ',');
  }
}
