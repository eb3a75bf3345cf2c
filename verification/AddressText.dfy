/** Address text: IPv4 (libs/base/ip.h:88-120) and MAC (libs/base/mac.h:69-94, 135-145). */
module AddressText {
  import opened CText

  type Octet = x: int | 0 <= x < 0x100

  const IP_LENGTH: nat := 4
  const IP_STRING_LENGTH: nat := 20
  const MAC_LENGTH: nat := 6
  const MAC_STRING_LENGTH: nat := 18
  const ULONG_MAX: nat := 0xFFFF_FFFF_FFFF_FFFF

  // ---------------------------------------------------------------- Numerals

  /** isdigit in base 10, isxdigit in base 16. */
  predicate IsNumeral(base: nat, c: char) {
    IsDigit(c) || (base == 16 && ('a' <= c <= 'f' || 'A' <= c <= 'F'))
  }

  predicate AllNumeral(base: nat, s: seq<char>) { forall i :: 0 <= i < |s| ==> IsNumeral(base, s[i]) }

  predicate NoNumeral(base: nat, s: seq<char>) { forall i :: 0 <= i < |s| ==> !IsNumeral(base, s[i]) }

  function DigitValue(c: char): (d: nat)
    requires IsNumeral(16, c)
    ensures d < 16 && (IsDigit(c) ==> d < 10)
  {
    if IsDigit(c) then c as int - '0' as int
    else if 'a' <= c then c as int - 'a' as int + 10
    else c as int - 'A' as int + 10
  }

  /** Which characters count, and for how much: both cases in base 16. */
  lemma Numerals(c: char, d: nat)
    requires d < 16
    ensures IsNumeral(10, c) <==> c in "0123456789"
    ensures IsNumeral(16, c) <==> c in "0123456789abcdefABCDEF"
    ensures DigitValue("0123456789abcdef"[d]) == d && DigitValue("0123456789ABCDEF"[d]) == d
  {}

  /** The number a numeral stands for. */
  function Value(base: nat, s: seq<char>): nat
    requires AllNumeral(base, s)
  {
    if s == [] then 0 else Value(base, s[..|s| - 1]) * base + DigitValue(s[|s| - 1])
  }

  /** How many numeral characters s begins with, counting no further than limit. */
  function Run(base: nat, s: seq<char>, limit: nat): (n: nat)
    ensures n <= |s| && n <= limit && AllNumeral(base, s[..n])
    ensures n < |s| && n < limit ==> !IsNumeral(base, s[n])
  {
    if s == [] || limit == 0 || !IsNumeral(base, s[0]) then 0
    else
      var n := 1 + Run(base, s[1..], limit - 1);
      assert forall i :: 0 < i < n ==> s[i] == s[1..][..n - 1][i - 1];
      n
  }

  /** How many other characters s begins with. */
  function Gap(base: nat, s: seq<char>): (n: nat)
    ensures n <= |s| && NoNumeral(base, s[..n]) && (n < |s| ==> IsNumeral(base, s[n]))
  {
    if s == [] || IsNumeral(base, s[0]) then 0
    else
      var n := 1 + Gap(base, s[1..]);
      assert forall i :: 0 < i < n ==> s[i] == s[1..][..n - 1][i - 1];
      n
  }

  lemma {:induction false} RunIs(base: nat, s: seq<char>, limit: nat, n: nat)
    requires n <= |s| && n <= limit && AllNumeral(base, s[..n])
    requires n == |s| || n == limit || !IsNumeral(base, s[n])
    ensures Run(base, s, limit) == n
  {
    if n > 0 {
      assert IsNumeral(base, s[..n][0]);
      assert s[1..][..n - 1] == s[..n][1..];
      RunIs(base, s[1..], limit - 1, n - 1);
    }
  }

  lemma {:induction false} GapIs(base: nat, s: seq<char>, n: nat)
    requires n <= |s| && NoNumeral(base, s[..n]) && (n < |s| ==> IsNumeral(base, s[n]))
    ensures Gap(base, s) == n
  {
    if n > 0 {
      assert !IsNumeral(base, s[..n][0]);
      assert s[1..][..n - 1] == s[..n][1..];
      GapIs(base, s[1..], n - 1);
    }
  }

  /** strtoul: leading space, a sign, and in base 16 a "0x" are accepted; too large a number saturates. */
  function Strtoul(base: nat, s: seq<char>): (n: nat)
    ensures n <= ULONG_MAX
    decreases |s|
  {
    if s == [] then 0
    else if IsSpace(s[0]) then Strtoul(base, s[1..])
    else if s[0] == '+' then Magnitude(base, s[1..])
    else if s[0] == '-' then
      var m := Magnitude(base, s[1..]);
      if m == 0 || m == ULONG_MAX then m else ULONG_MAX + 1 - m
    else Magnitude(base, s)
  }

  function Magnitude(base: nat, s: seq<char>): (n: nat)
    ensures n <= ULONG_MAX
  {
    var prefixed := base == 16 && |s| > 2 && s[0] == '0' && s[1] in "xX" && IsNumeral(16, s[2]);
    var t := if prefixed then s[2..] else s;
    var n := Value(base, t[..Run(base, t, |t|)]);
    if n > ULONG_MAX then ULONG_MAX else n
  }

  /**
   strtoul on any text in base 10: space before the number and anything behind it do not matter, a number too
   large saturates, and one behind a minus sign is taken modulo 2^64.
   */
  lemma StrtoulOfText(space: seq<char>, sign: seq<char>, digits: seq<char>, tail: seq<char>)
    requires forall i :: 0 <= i < |space| ==> IsSpace(space[i])
    requires sign == "" || sign == "+" || sign == "-"
    requires AllNumeral(10, digits) && digits != [] && (tail != [] ==> !IsNumeral(10, tail[0]))
    ensures var v := Value(10, digits);
            Strtoul(10, space + (sign + (digits + tail)))
            == if v >= ULONG_MAX then ULONG_MAX else if sign == "-" && v > 0 then ULONG_MAX + 1 - v else v
  {
    hide Run, Value;
    var number := digits + tail;
    assert number[..|digits|] == digits;
    RunIs(10, number, |number|, |digits|);
    assert number[0] == digits[0];
    assert sign != "" ==> (sign + number)[1..] == number;
    assert sign == "" ==> sign + number == number;
    SkipsSpace(10, space, sign + number);
  }

  lemma {:induction false} SkipsSpace(base: nat, space: seq<char>, rest: seq<char>)
    requires forall i :: 0 <= i < |space| ==> IsSpace(space[i])
    ensures Strtoul(base, space + rest) == Strtoul(base, rest)
  {
    hide Magnitude;
    if space == [] {
      assert space + rest == rest;
    } else {
      assert (space + rest)[1..] == space[1..] + rest;
      SkipsSpace(base, space[1..], rest);
    }
  }

  function Cap(k: nat): (c: nat)
    ensures c >= 1
  {
    if k == 0 then 1 else 16 * Cap(k - 1)
  }

  lemma {:induction false} ValueBound(base: nat, s: seq<char>, k: nat)
    requires base in {10, 16} && AllNumeral(base, s) && |s| <= k
    ensures Value(base, s) < Cap(k)
  {
    if s != [] { ValueBound(base, s[..|s| - 1], k - 1); }
  }

  lemma EmptyNumeral(base: nat)
    ensures Value(base, []) == 0
  {}

  /** On a short numeral strtoul is the number it stands for. */
  lemma StrtoulOfNumeral(base: nat, s: seq<char>)
    requires base in {10, 16} && AllNumeral(base, s) && |s| <= 8
    ensures Strtoul(base, s) == Value(base, s)
  {
    hide Value, Run;
    ValueBound(base, s, 8);
    if s != [] {
      assert IsNumeral(base, s[0]);
      RunIs(base, s, |s|, |s|);
      assert s[..|s|] == s;
      assert |s| > 1 ==> IsNumeral(base, s[1]);
    } else {
      EmptyNumeral(base);
    }
  }

  // ---------------------------------------------------------------- Parsing

  /** count numbers read from s one after the other, each cut to a byte, each of at most limit characters. */
  function Numbers(base: nat, limit: nat, s: seq<char>, count: nat): (r: seq<Octet>)
    ensures |r| == count
    decreases count
  {
    if count == 0 then []
    else
      var n := Run(base, s, limit);
      [Value(base, s[..n]) % 0x100] + Numbers(base, limit, s[n + Gap(base, s[n..])..], count - 1)
  }

  lemma NextNumber(base: nat, limit: nat, text: seq<char>, str: nat, next: nat, after: nat, count: nat)
    requires str <= |text| && next == str + Run(base, text[str..], limit)
    requires after == next + Gap(base, text[next..]) && count > 0
    ensures AllNumeral(base, text[str..next])
    ensures Numbers(base, limit, text[str..], count)
            == [Value(base, text[str..next]) % 0x100] + Numbers(base, limit, text[after..], count - 1)
  {
    hide Value, Run, Gap, Numbers;
    var s, n := text[str..], next - str;
    NumbersStep(base, limit, s, count);
    assert s[..n] == text[str..next];
    assert s[n..] == text[next..];
    assert s[after - str..] == text[after..];
  }

  lemma NumbersStep(base: nat, limit: nat, s: seq<char>, count: nat)
    requires count > 0
    ensures var n := Run(base, s, limit);
            Numbers(base, limit, s, count)
            == [Value(base, s[..n]) % 0x100] + Numbers(base, limit, s[n + Gap(base, s[n..])..], count - 1)
  {
    hide Value, Run, Gap;
  }

  /** Copies the numeral at str into a cleared buffer. */
  method ReadNumeral(base: nat, text: seq<char>, str: nat, limit: nat, tmpstr: array<char>) returns (next: nat)
    requires str <= |text| && NUL !in text
    requires limit < tmpstr.Length || Run(base, text[str..], limit) < tmpstr.Length
    modifies tmpstr
    ensures next == str + Run(base, text[str..], limit) <= |text|
    ensures CString(tmpstr[..]) == text[str..next]
  {
    hide CString, Run;
    ghost var rest := text[str..];
    forall k | 0 <= k < tmpstr.Length { tmpstr[k] := NUL; }
    var len := 0;
    next := str;
    while next < |text| && IsNumeral(base, text[next]) && len < limit
      invariant next == str + len <= |text| && len <= limit && len <= Run(base, rest, limit)
      invariant AllNumeral(base, rest[..len])
      invariant forall k :: 0 <= k < len ==> tmpstr[k] == rest[k]
      invariant forall k :: len <= k < tmpstr.Length ==> tmpstr[k] == NUL
    {
      RunGoesOn(base, rest, limit, len);
      tmpstr[len] := text[next];
      len := len + 1;
      next := next + 1;
    }
    RunIs(base, rest, limit, len);
    assert tmpstr[..][..len] == rest[..len] == text[str..next];
    CStringIs(tmpstr[..], len);
  }

  lemma RunGoesOn(base: nat, s: seq<char>, limit: nat, n: nat)
    requires n < |s| && n < limit && n <= Run(base, s, limit)
    requires IsNumeral(base, s[n])
    ensures n < Run(base, s, limit) && AllNumeral(base, s[..n + 1])
  {
    hide Run;
    var r := Run(base, s, limit);
    assert forall i :: 0 <= i < n + 1 ==> i < r ==> s[..r][i] == s[i];
  }

  method SkipGap(base: nat, text: seq<char>, str: nat) returns (next: nat)
    requires str <= |text|
    ensures next == str + Gap(base, text[str..]) <= |text|
  {
    hide Gap;
    ghost var rest := text[str..];
    next := str;
    while next < |text| && !IsNumeral(base, text[next])
      invariant str <= next <= |text| && NoNumeral(base, rest[..next - str])
    {
      assert rest[..next + 1 - str] == rest[..next - str] + [text[next]];
      next := next + 1;
    }
    GapIs(base, rest, next - str);
  }

  /** Ip's text constructor; a numeral longer than 8 digits goes on in the next byte. */
  method StrToIpt(text: seq<char>, out: array<Octet>)
    requires NUL !in text && out.Length == IP_LENGTH
    modifies out
    ensures out[..] == Numbers(10, 8, text, IP_LENGTH)
  {
    hide Value, Run, Gap, Strtoul, Numbers, CString;
    var idx, str := 0, 0;
    var tmpstr := new char[9];
    assert text[0..] == text;
    while idx < IP_LENGTH
      invariant idx <= IP_LENGTH && 0 <= str <= |text|
      invariant Numbers(10, 8, text, IP_LENGTH)
                == out[..idx] + Numbers(10, 8, text[str..], IP_LENGTH - idx)
    {
      var next := ReadNumeral(10, text, str, 8, tmpstr);
      var after := SkipGap(10, text, next);
      NextNumber(10, 8, text, str, next, after, IP_LENGTH - idx);
      StrtoulOfNumeral(10, text[str..next]);
      out[idx] := Strtoul(10, CString(tmpstr[..])) % 0x100;
      assert out[..idx + 1] == out[..idx] + [Value(10, text[str..next]) % 0x100];
      idx, str := idx + 1, after;
    }
    assert out[..idx] == out[..];
  }

  /** The MAC parser's 8-byte scratch buffer has room for 7 hexadecimal digits and a NUL. */
  predicate RunsFit(s: seq<char>) { forall i :: 0 <= i <= |s| ==> !LongRunAt(s, i) }

  predicate LongRunAt(s: seq<char>, i: nat) { i + 8 <= |s| && AllNumeral(16, s[i..i + 8]) }

  lemma RunFits(s: seq<char>, i: nat)
    requires i <= |s| && RunsFit(s)
    ensures Run(16, s[i..], |s|) < 8
  {
    hide Run;
    var n := Run(16, s[i..], |s|);
    forall j | i <= j < i + n ensures IsNumeral(16, s[j]) {
      assert s[i..][..n][j - i] == s[j];
    }
    assert !LongRunAt(s, i);
    if i + 8 <= |s| {
      var k :| 0 <= k < 8 && !IsNumeral(16, s[i..i + 8][k]);
      assert s[i..i + 8][k] == s[i + k];
    }
  }

  /** Mac's text constructor. */
  method StrToMac(text: seq<char>, value: array<Octet>)
    requires NUL !in text && value.Length == MAC_LENGTH && RunsFit(text)
    modifies value
    ensures value[..] == Numbers(16, |text|, text, MAC_LENGTH)
  {
    hide Value, Run, Gap, Strtoul, Numbers, CString;
    var idx, str := 0, 0;
    var tmpstr := new char[8];
    assert text[0..] == text;
    while idx < MAC_LENGTH
      invariant idx <= MAC_LENGTH && 0 <= str <= |text|
      invariant Numbers(16, |text|, text, MAC_LENGTH)
                == value[..idx] + Numbers(16, |text|, text[str..], MAC_LENGTH - idx)
    {
      RunFits(text, str);
      var next := ReadNumeral(16, text, str, |text|, tmpstr);
      var after := SkipGap(16, text, next);
      NextNumber(16, |text|, text, str, next, after, MAC_LENGTH - idx);
      StrtoulOfNumeral(16, text[str..next]);
      value[idx] := Strtoul(16, CString(tmpstr[..])) % 0x100;
      assert value[..idx + 1] == value[..idx] + [Value(16, text[str..next]) % 0x100];
      idx, str := idx + 1, after;
    }
    assert value[..idx] == value[..];
  }

  // ---------------------------------------------------------------- What parsing recovers

  /** A numeral and what stands between it and the next. */
  datatype Part = Part(digits: seq<char>, gap: seq<char>)

  function Text(parts: seq<Part>): seq<char> {
    if parts == [] then [] else parts[0].digits + (parts[0].gap + Text(parts[1..]))
  }

  /** Numerals of at most limit characters, each kept apart from the next or as long as they come. */
  predicate Apart(base: nat, limit: nat, parts: seq<Part>) {
    && (forall i :: 0 <= i < |parts| ==>
          AllNumeral(base, parts[i].digits) && 0 < |parts[i].digits| <= limit && NoNumeral(base, parts[i].gap))
    && (forall i :: 0 <= i < |parts| - 1 ==> parts[i].gap != [] || |parts[i].digits| == limit)
  }

  /** Each number comes back, cut to a byte; a byte for which there is none is zero. */
  lemma {:induction false} NumbersRecovered(base: nat, limit: nat, parts: seq<Part>, count: nat, i: nat)
    requires Apart(base, limit, parts) && i < count
    ensures Numbers(base, limit, Text(parts), count)[i]
            == if i < |parts| then Value(base, parts[i].digits) % 0x100 else 0
    decreases i
  {
    hide Value, Numbers;
    if parts == [] {
      NoNumber(base, limit, count);
    } else {
      FirstNumber(base, limit, parts, count);
    }
    if i > 0 { NumbersRecovered(base, limit, if parts == [] then [] else parts[1..], count - 1, i - 1); }
  }

  lemma NoNumber(base: nat, limit: nat, count: nat)
    requires count > 0
    ensures Numbers(base, limit, [], count) == [0] + Numbers(base, limit, [], count - 1)
  {
    NextNumber(base, limit, [], 0, 0, 0, count);
  }

  lemma FirstNumber(base: nat, limit: nat, parts: seq<Part>, count: nat)
    requires parts != [] && Apart(base, limit, parts) && count > 0
    ensures Numbers(base, limit, Text(parts), count)
            == [Value(base, parts[0].digits) % 0x100] + Numbers(base, limit, Text(parts[1..]), count - 1)
  {
    hide Value, Run, Gap, Numbers;
    var digits, gap, tail := parts[0].digits, parts[0].gap, Text(parts[1..]);
    if |parts| > 1 { assert tail[0] == parts[1].digits[0]; }
    NumberThenGap(base, limit, digits, gap, tail, count);
  }

  lemma NumberThenGap(base: nat, limit: nat, digits: seq<char>, gap: seq<char>, tail: seq<char>, count: nat)
    requires AllNumeral(base, digits) && |digits| <= limit && NoNumeral(base, gap) && count > 0
    requires tail != [] ==> (gap != [] || |digits| == limit) && IsNumeral(base, tail[0])
    ensures Numbers(base, limit, digits + (gap + tail), count)
            == [Value(base, digits) % 0x100] + Numbers(base, limit, tail, count - 1)
  {
    hide Value, Run, Gap, Numbers, IsNumeral;
    var rest := gap + tail;
    var s, n := digits + rest, |digits|;
    assert s[..n] == digits && s[n..] == rest;
    assert n < |s| ==> s[n] == rest[0];
    RunIs(base, s, limit, n);
    assert rest[..|gap|] == gap;
    GapIs(base, rest, |gap|);
    NumbersStep(base, limit, s, count);
    assert s[n + |gap|..] == tail;
  }

  /** The same for numerals joined by a separator. */
  lemma JoinedRecovered(base: nat, limit: nat, texts: seq<seq<char>>, sep: seq<char>, count: nat, i: nat)
    requires forall j :: 0 <= j < |texts| ==> AllNumeral(base, texts[j]) && 0 < |texts[j]| <= limit
    requires sep != [] && NoNumeral(base, sep) && i < count
    ensures Numbers(base, limit, Joined(texts, sep), count)[i]
            == if i < |texts| then Value(base, texts[i]) % 0x100 else 0
  {
    hide Value, Numbers, Joined, Text;
    JoinedText(texts, sep);
    var parts := seq(|texts|, j requires 0 <= j < |texts| => Part(texts[j], if j + 1 < |texts| then sep else ""));
    NumbersRecovered(base, limit, parts, count, i);
  }

  lemma {:induction false} JoinedText(texts: seq<seq<char>>, sep: seq<char>)
    ensures Joined(texts, sep)
            == Text(seq(|texts|, j requires 0 <= j < |texts| => Part(texts[j], if j + 1 < |texts| then sep else "")))
  {
    if texts != [] {
      var parts := seq(|texts|, j requires 0 <= j < |texts| => Part(texts[j], if j + 1 < |texts| then sep else ""));
      var rest := texts[1..];
      assert parts[1..] == seq(|rest|, j requires 0 <= j < |rest| => Part(rest[j], if j + 1 < |rest| then sep else ""));
      JoinedText(rest, sep);
      if rest == [] { assert Text(parts[1..]) == []; }
    }
  }

  // ---------------------------------------------------------------- Printing

  function DigitChar(d: nat): (c: char)
    requires d < 16
    ensures IsNumeral(16, c) && DigitValue(c) == d && (d < 10 ==> IsDigit(c))
  {
    "0123456789abcdef"[d]
  }

  /** "%d" of a non-negative number. */
  function Decimal(n: nat): (s: seq<char>)
    ensures s != [] && AllNumeral(10, s) && Value(10, s) == n
    ensures n > 0 ==> s[0] != '0'
    ensures |s| == 1 <==> n < 10
  {
    if n < 10 then [DigitChar(n)] else Decimal(n / 10) + [DigitChar(n % 10)]
  }

  lemma DecimalWidth(n: Octet)
    ensures |Decimal(n)| <= 3
  {
    if n >= 10 { assert |Decimal(n / 10)| <= 2; }
  }

  /** "%02x" of a byte. */
  function Hex2(n: Octet): (s: seq<char>)
    ensures |s| == 2 && AllNumeral(16, s) && Value(16, s) == n
    ensures s[0] in "0123456789abcdef" && s[1] in "0123456789abcdef"
  {
    var s := [DigitChar(n / 16), DigitChar(n % 16)];
    assert s[..1] == [DigitChar(n / 16)];
    assert Value(16, s[..1]) == n / 16;
    s
  }

  /** snprintf keeps one character less than the size it is given. */
  function Snprintf(text: seq<char>, size: nat): seq<char>
    requires size > 0
  {
    if |text| < size then text else text[..size - 1]
  }

  /** "%d.%d.%d.%d". */
  function Dotted(a: seq<Octet>): seq<char>
    requires |a| == IP_LENGTH
  {
    Joined([Decimal(a[0]), Decimal(a[1]), Decimal(a[2]), Decimal(a[3])], ".")
  }

  function IptToStr(a: seq<Octet>): seq<char>
    requires |a| == IP_LENGTH
  {
    Snprintf(Dotted(a), IP_STRING_LENGTH)
  }

  function MacToString(a: seq<Octet>): seq<char>
    requires |a| == MAC_LENGTH
  {
    Snprintf(Joined([Hex2(a[0]), Hex2(a[1]), Hex2(a[2]), Hex2(a[3]), Hex2(a[4]), Hex2(a[5])], ":"), MAC_STRING_LENGTH)
  }

  lemma {:induction false} JoinedWidth(texts: seq<seq<char>>, sep: seq<char>, w: nat)
    requires texts != [] && |sep| == 1 && forall j :: 0 <= j < |texts| ==> |texts[j]| <= w
    ensures |Joined(texts, sep)| <= |texts| * (w + 1) - 1
  {
    if |texts| > 1 { JoinedWidth(texts[1..], sep, w); }
  }

  /** Every IPv4 address is read back from its text, which snprintf never cuts. */
  lemma IpRoundTrip(a: seq<Octet>)
    requires |a| == IP_LENGTH
    ensures Numbers(10, 8, IptToStr(a), IP_LENGTH) == a && IptToStr(a) == Dotted(a) && |Dotted(a)| <= 15
  {
    hide Value, Numbers, Decimal, Joined;
    forall i | 0 <= i < 4 ensures |Decimal(a[i])| <= 3 { DecimalWidth(a[i]); }
    var texts := [Decimal(a[0]), Decimal(a[1]), Decimal(a[2]), Decimal(a[3])];
    JoinedWidth(texts, ".", 3);
    forall i | 0 <= i < 4 ensures Numbers(10, 8, IptToStr(a), IP_LENGTH)[i] == a[i] {
      JoinedRecovered(10, 8, texts, ".", IP_LENGTH, i);
    }
  }

  /** Every MAC address is read back from its text, which snprintf never cuts and which the parser's buffer can take. */
  lemma MacRoundTrip(a: seq<Octet>)
    requires |a| == MAC_LENGTH
    ensures Numbers(16, |MacToString(a)|, MacToString(a), MAC_LENGTH) == a && RunsFit(MacToString(a))
  {
    hide Value, Numbers, Hex2;
    var texts := [Hex2(a[0]), Hex2(a[1]), Hex2(a[2]), Hex2(a[3]), Hex2(a[4]), Hex2(a[5])];
    JoinedWidth(texts, ":", 2);
    var s := Joined(texts, ":");
    forall i | 0 <= i <= |s| ensures !LongRunAt(s, i) {
      if i + 8 <= |s| {
        var j := 2 - i % 3;
        MacTextShape(texts, i + j);
        assert s[i..i + 8][j] == ':';
      }
    }
    forall i | 0 <= i < 6 ensures Numbers(16, |s|, s, MAC_LENGTH)[i] == a[i] {
      JoinedRecovered(16, |s|, texts, ":", MAC_LENGTH, i);
    }
  }

  /** "%02X", for the capital letters that other systems print. */
  function CapitalHex2(n: Octet): (s: seq<char>)
    ensures |s| == 2 && AllNumeral(16, s) && Value(16, s) == n
  {
    var s := ["0123456789ABCDEF"[n / 16], "0123456789ABCDEF"[n % 16]];
    Numerals(s[0], n / 16);
    Numerals(s[1], n % 16);
    assert s[..1] == [s[0]];
    assert Value(16, s[..1]) == n / 16;
    s
  }

  /** MAC addresses are read in capital letters too, whatever separates the bytes. */
  lemma CapitalMacReadBack(a: seq<Octet>, sep: seq<char>)
    requires |a| == MAC_LENGTH && sep != [] && NoNumeral(16, sep)
    ensures var s := Joined(seq(MAC_LENGTH, i requires 0 <= i < MAC_LENGTH => CapitalHex2(a[i])), sep);
            Numbers(16, |s|, s, MAC_LENGTH) == a
  {
    hide Value, Numbers, CapitalHex2, Joined;
    var texts := seq(MAC_LENGTH, i requires 0 <= i < MAC_LENGTH => CapitalHex2(a[i]));
    var s := Joined(texts, sep);
    FirstFits(texts, sep);
    forall i | 0 <= i < 6 ensures Numbers(16, |s|, s, MAC_LENGTH)[i] == a[i] {
      JoinedRecovered(16, |s|, texts, sep, MAC_LENGTH, i);
    }
  }

  lemma FirstFits(texts: seq<seq<char>>, sep: seq<char>)
    requires texts != []
    ensures |texts[0]| <= |Joined(texts, sep)|
  {}

  /** What IPv4 addresses look like: four plain decimal numbers with a dot between them. */
  lemma IpTextForm(a: seq<Octet>)
    requires |a| == IP_LENGTH
    ensures IptToStr(a) == Decimal(a[0]) + ("." + (Decimal(a[1]) + ("." + (Decimal(a[2]) + ("." + Decimal(a[3]))))))
  {
    hide Decimal, Numbers, Joined;
    IpRoundTrip(a);
    var b, c, d := Decimal(a[1]), Decimal(a[2]), Decimal(a[3]);
    JoinedPair(Decimal(a[0]), [b, c, d], ".", [Decimal(a[0]), b, c, d]);
    JoinedPair(b, [c, d], ".", [b, c, d]);
    JoinedPair(c, [d], ".", [c, d]);
    JoinedOne(d, ".");
  }

  /** What MAC addresses look like: pairs of small hexadecimal digits with a colon between them. */
  lemma MacTextForm(a: seq<Octet>)
    requires |a| == MAC_LENGTH
    ensures MacToString(a)
            == Hex2(a[0]) + (":" + (Hex2(a[1]) + (":" + (Hex2(a[2]) + (":" +
               (Hex2(a[3]) + (":" + (Hex2(a[4]) + (":" + Hex2(a[5]))))))))))
  {
    hide Hex2, Joined;
    var b, c, d, e, f := Hex2(a[1]), Hex2(a[2]), Hex2(a[3]), Hex2(a[4]), Hex2(a[5]);
    JoinedWidth([Hex2(a[0]), b, c, d, e, f], ":", 2);
    JoinedPair(Hex2(a[0]), [b, c, d, e, f], ":", [Hex2(a[0]), b, c, d, e, f]);
    JoinedPair(b, [c, d, e, f], ":", [b, c, d, e, f]);
    JoinedPair(c, [d, e, f], ":", [c, d, e, f]);
    JoinedPair(d, [e, f], ":", [d, e, f]);
    JoinedPair(e, [f], ":", [e, f]);
    JoinedOne(f, ":");
  }

  lemma JoinedOne(a: seq<char>, sep: seq<char>)
    ensures Joined([a], sep) == a
  {}

  lemma JoinedPair(a: seq<char>, rest: seq<seq<char>>, sep: seq<char>, all: seq<seq<char>>)
    requires rest != [] && all == [a] + rest
    ensures Joined(all, sep) == a + (sep + Joined(rest, sep))
  {
    assert all[1..] == rest;
  }

  /** Every third character is a colon. */
  lemma {:induction false} MacTextShape(texts: seq<seq<char>>, i: nat)
    requires forall j :: 0 <= j < |texts| ==> |texts[j]| == 2
    requires i < |Joined(texts, ":")| && i % 3 == 2
    ensures Joined(texts, ":")[i] == ':'
  {
    if |texts| > 1 && i > 2 { MacTextShape(texts[1..], i - 3); }
  }
}
