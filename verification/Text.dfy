/** The string operations of the standard library that the configuration parser is built on. */
module Text {
  import opened Net

  // ---------------------------------------------------------------- splitting

  /** Where `c` first occurs in `s`, or the length of `s`. */
  function Find(s: string, c: char): (n: nat)
    ensures n <= |s| && c !in s[..n] && (n < |s| ==> s[n] == c)
  {
    if |s| == 0 || s[0] == c then 0
    else
      var n := 1 + Find(s[1..], c);
      assert s[..n] == [s[0]] + s[1..][..n - 1];
      n
  }

  /** The pieces of `s` between occurrences of `sep`; an empty string has one empty piece. */
  function Split(s: string, sep: char): (parts: seq<string>)
    ensures |parts| > 0
    decreases |s|
  {
    var n := Find(s, sep);
    if n == |s| then [s] else [s[..n]] + Split(s[n + 1..], sep)
  }

  function Join(parts: seq<string>, sep: char): string
    requires |parts| > 0
  {
    if |parts| == 1 then parts[0] else parts[0] + [sep] + Join(parts[1..], sep)
  }

  lemma {:induction false} JoinSplit(s: string, sep: char)
    ensures Join(Split(s, sep), sep) == s
    ensures forall i | 0 <= i < |Split(s, sep)| :: sep !in Split(s, sep)[i]
    decreases |s|
  {
    var n := Find(s, sep);
    if n < |s| {
      var rest := Split(s[n + 1..], sep);
      JoinSplit(s[n + 1..], sep);
      assert ([s[..n]] + rest)[1..] == rest;
      assert s == s[..n] + [sep] + s[n + 1..];
    }
  }

  lemma FindPrefix(a: string, b: string, c: char)
    requires c !in a
    ensures Find(a + [c] + b, c) == |a|
    ensures c !in b ==> Find(a + b, c) == |a + b|
  {
    var s, t := a + [c] + b, a + b;
    assert forall i | 0 <= i < |a| :: s[i] == a[i];
    assert forall n | |a| < n <= |s| :: s[..n][|a|] == c;
    assert forall i | 0 <= i < |t| :: t[i] in a || t[i] in b;
  }

  lemma SplitNone(a: string, sep: char)
    requires sep !in a
    ensures Split(a, sep) == [a]
  {
    FindPrefix(a, [], sep);
    assert a + [] == a;
  }

  lemma SplitCons(a: string, rest: string, sep: char)
    requires sep !in a
    ensures Split(a + [sep] + rest, sep) == [a] + Split(rest, sep)
  {
    var s := a + [sep] + rest;
    FindPrefix(a, rest, sep);
    assert s[..|a|] == a && s[|a| + 1..] == rest;
  }

  lemma SplitTwo(a: string, b: string, sep: char)
    requires sep !in a && sep !in b
    ensures Split(a + [sep] + b, sep) == [a, b]
  {
    SplitCons(a, b, sep);
    SplitNone(b, sep);
  }

  // ---------------------------------------------------------------- white space

  /** The Unicode property White_Space. */
  predicate IsWhitespace(c: char) {
    var n := c as int;
    || 0x09 <= n <= 0x0D || n == 0x20 || n == 0x85 || n == 0xA0 || n == 0x1680
    || 0x2000 <= n <= 0x200A || n == 0x2028 || n == 0x2029 || n == 0x202F || n == 0x205F || n == 0x3000
  }

  function TrimStart(s: string): string {
    if |s| > 0 && IsWhitespace(s[0]) then TrimStart(s[1..]) else s
  }

  function TrimEnd(s: string): string {
    if |s| > 0 && IsWhitespace(s[|s| - 1]) then TrimEnd(s[..|s| - 1]) else s
  }

  function Trim(s: string): string {
    TrimEnd(TrimStart(s))
  }

  /** The length of the longest prefix without white space. */
  function TokenLength(s: string): (n: nat)
    ensures n <= |s| && (forall i | 0 <= i < n :: !IsWhitespace(s[i]))
    ensures n < |s| ==> IsWhitespace(s[n])
  {
    if |s| == 0 || IsWhitespace(s[0]) then 0 else 1 + TokenLength(s[1..])
  }

  /** The maximal runs of characters that are not white space. */
  function SplitWhitespace(s: string): seq<string>
    decreases |s|
  {
    if |s| == 0 then []
    else if IsWhitespace(s[0]) then SplitWhitespace(s[1..])
    else var n := TokenLength(s); [s[..n]] + SplitWhitespace(s[n..])
  }

  /** A non-empty string without white space. */
  predicate IsToken(s: string) {
    |s| > 0 && forall i | 0 <= i < |s| :: !IsWhitespace(s[i])
  }

  predicate AreTokens(ts: seq<string>) {
    forall i | 0 <= i < |ts| :: IsToken(ts[i])
  }

  lemma {:induction false} SplitGivesTokens(s: string)
    ensures AreTokens(SplitWhitespace(s))
    decreases |s|
  {
    if |s| == 0 {
    } else {
      if IsWhitespace(s[0]) {
        SplitGivesTokens(s[1..]);
      } else {
        var n := TokenLength(s);
        SplitGivesTokens(s[n..]);
        assert IsToken(s[..n]);
      }
    }
  }

  lemma TokenThenSpace(t: string, rest: string)
    requires IsToken(t) && (rest == "" || IsWhitespace(rest[0]))
    ensures SplitWhitespace(t + rest) == [t] + SplitWhitespace(rest)
  {
    var s := t + rest;
    var n := TokenLength(s);
    assert forall i | 0 <= i < |t| :: s[i] == t[i];
    assert rest != "" ==> s[|t|] == rest[0];
    assert s[..|t|] == t && s[|t|..] == rest;
  }

  lemma SpaceThenRest(t: string, rest: string)
    requires IsToken(t)
    ensures SplitWhitespace(t + [' '] + rest) == [t] + SplitWhitespace(rest)
  {
    assert IsWhitespace(' ');
    assert t + ([' '] + rest) == t + [' '] + rest;
    assert ([' '] + rest)[1..] == rest;
    TokenThenSpace(t, [' '] + rest);
  }

  lemma SingleToken(t: string)
    requires IsToken(t)
    ensures SplitWhitespace(t) == [t]
  {
    TokenThenSpace(t, "");
    assert t + "" == t;
  }

  lemma {:induction false} SplitWhitespaceOfJoin(ts: seq<string>)
    requires |ts| > 0 && AreTokens(ts)
    ensures SplitWhitespace(Join(ts, ' ')) == ts
  {
    assert IsToken(ts[0]);
    if |ts| == 1 {
      SingleToken(ts[0]);
    } else {
      SplitWhitespaceOfJoin(ts[1..]);
      SpaceThenRest(ts[0], Join(ts[1..], ' '));
      assert [ts[0]] + ts[1..] == ts;
    }
  }

  /** The first and last characters of joined tokens are not white space, so trimming keeps them. */
  lemma {:induction false} TrimOfJoin(ts: seq<string>)
    requires |ts| > 0 && AreTokens(ts)
    ensures Trim(Join(ts, ' ')) == Join(ts, ' ')
    ensures Join(ts, ' ') != "" && Join(ts, ' ')[0] == ts[0][0]
  {
    EndsOfJoin(ts);
  }

  lemma {:induction false} EndsOfJoin(ts: seq<string>)
    requires |ts| > 0 && AreTokens(ts)
    ensures var s := Join(ts, ' '); |s| > 0 && s[0] == ts[0][0] && !IsWhitespace(s[|s| - 1])
  {
    if |ts| <= 1 {
    } else {
      EndsOfJoin(ts[1..]);
    }
  }

  lemma {:induction false} NotInJoin(ts: seq<string>, c: char)
    requires |ts| > 0 && AreTokens(ts) && IsWhitespace(c) && c != ' '
    ensures c !in Join(ts, ' ')
  {
    if |ts| <= 1 {
    } else {
      NotInJoin(ts[1..], c);
    }
  }

  predicate AllBlank(s: string) {
    forall i | 0 <= i < |s| :: IsWhitespace(s[i])
  }

  /** The white space of ASCII: tab, line feed, vertical tab, form feed, carriage return and space. */
  lemma AsciiWhitespace(c: char)
    requires c as int < 0x80
    ensures IsWhitespace(c) <==> c as int in {9, 10, 11, 12, 13, 32}
  {
  }

  lemma {:induction false} TrimStartMeaning(s: string) returns (a: string)
    ensures s == a + TrimStart(s) && AllBlank(a)
    ensures TrimStart(s) == "" || !IsWhitespace(TrimStart(s)[0])
  {
    if |s| == 0 || !IsWhitespace(s[0]) {
      a := "";
      assert a + s == s;
    } else {
      var b := TrimStartMeaning(s[1..]);
      a := [s[0]] + b;
      assert s == [s[0]] + s[1..];
    }
  }

  lemma {:induction false} TrimEndMeaning(s: string) returns (b: string)
    ensures s == TrimEnd(s) + b && AllBlank(b)
    ensures TrimEnd(s) == "" || !IsWhitespace(TrimEnd(s)[|TrimEnd(s)| - 1])
    ensures TrimEnd(s) != "" ==> TrimEnd(s)[0] == s[0]
  {
    if |s| == 0 || !IsWhitespace(s[|s| - 1]) {
      b := "";
      assert s + b == s;
    } else {
      var n := |s| - 1;
      var c := TrimEndMeaning(s[..n]);
      b := c + [s[n]];
      assert s == s[..n] + [s[n]];
      assert TrimEnd(s[..n]) + (c + [s[n]]) == (TrimEnd(s[..n]) + c) + [s[n]];
    }
  }

  /** Trimming takes off white space on both sides, and all of it. */
  lemma TrimMeaning(s: string) returns (a: string, b: string)
    ensures s == a + Trim(s) + b && AllBlank(a) && AllBlank(b)
    ensures var t := Trim(s); t != "" ==> !IsWhitespace(t[0]) && !IsWhitespace(t[|t| - 1])
  {
    a := TrimStartMeaning(s);
    b := TrimEndMeaning(TrimStart(s));
    assert a + (Trim(s) + b) == a + Trim(s) + b;
  }

  /** Every white-space character separates words, wherever it stands. Together with single words
      this determines the words of any text. */
  lemma {:induction false} WhitespaceSeparates(a: string, c: char, b: string)
    requires IsWhitespace(c)
    ensures SplitWhitespace(a + [c] + b) == SplitWhitespace(a) + SplitWhitespace(b)
    decreases |a|
  {
    if |a| == 0 {
      assert (a + [c] + b)[1..] == b;
    } else if IsWhitespace(a[0]) {
      WhitespaceSeparates(a[1..], c, b);
      BlankDropped(a, c, b);
    } else {
      var n := TokenLength(a);
      WhitespaceSeparates(a[n..], c, b);
      FirstWordKept(a[..n], a[n..], c, b);
      assert a == a[..n] + a[n..];
    }
  }

  lemma BlankDropped(a: string, c: char, b: string)
    requires |a| > 0 && IsWhitespace(a[0])
    ensures SplitWhitespace(a) == SplitWhitespace(a[1..])
    ensures SplitWhitespace(a + [c] + b) == SplitWhitespace(a[1..] + [c] + b)
  {
    assert (a + [c] + b)[1..] == a[1..] + [c] + b;
  }

  lemma FirstWordKept(t: string, rest: string, c: char, b: string)
    requires IsToken(t) && IsWhitespace(c) && (rest == "" || IsWhitespace(rest[0]))
    requires SplitWhitespace(rest + [c] + b) == SplitWhitespace(rest) + SplitWhitespace(b)
    ensures SplitWhitespace((t + rest) + [c] + b) == SplitWhitespace(t + rest) + SplitWhitespace(b)
  {
    TokenThenSpace(t, rest);
    TokenThenSpace(t, rest + [c] + b);
    Regroup(t, rest, [c], b);
    ConcatThree([t], SplitWhitespace(rest), SplitWhitespace(b));
  }

  lemma Regroup<T>(t: seq<T>, u: seq<T>, v: seq<T>, w: seq<T>)
    ensures (t + u) + v + w == t + (u + v + w)
  {
  }

  lemma ConcatThree<T>(t: seq<T>, u: seq<T>, v: seq<T>)
    ensures t + (u + v) == (t + u) + v
  {
  }

  // ---------------------------------------------------------------- lines

  /** A line without its terminating carriage return. */
  function StripCarriageReturn(s: string): string {
    if |s| > 0 && s[|s| - 1] == '\r' then s[..|s| - 1] else s
  }

  /** The lines of a text: a final line feed starts no further line, and a carriage return before a
      line feed belongs to the line end. */
  function Lines(s: string): seq<string>
    decreases |s|
  {
    if |s| == 0 then []
    else
      var n := Find(s, '\n');
      if n == |s| then [s] else [StripCarriageReturn(s[..n])] + Lines(s[n + 1..])
  }

  /** Text whose lines are `ls`. */
  function Unlines(ls: seq<string>): string {
    if |ls| == 0 then "" else ls[0] + "\n" + Unlines(ls[1..])
  }

  /** A string that can be one line of a text. */
  predicate IsLine(s: string) {
    '\n' !in s && StripCarriageReturn(s) == s
  }

  lemma LineThenRest(l: string, rest: string)
    requires IsLine(l)
    ensures Lines(l + ['\n'] + rest) == [l] + Lines(rest)
  {
    var s := l + ['\n'] + rest;
    FindPrefix(l, rest, '\n');
    assert s[..|l|] == l && s[|l| + 1..] == rest;
  }

  lemma {:induction false} LinesOfUnlines(ls: seq<string>)
    requires forall i | 0 <= i < |ls| :: IsLine(ls[i])
    ensures Lines(Unlines(ls)) == ls
  {
    if |ls| == 0 {
    } else {
      LinesOfUnlines(ls[1..]);
      LineThenRest(ls[0], Unlines(ls[1..]));
      assert [ls[0]] + ls[1..] == ls;
    }
  }

  /** `l` is `raw` without a carriage return at its end, if it has one. */
  predicate IsStripped(raw: string, l: string) {
    raw == l + ['\r'] || (raw == l && (l == "" || l[|l| - 1] != '\r'))
  }

  lemma StripMeaning(raw: string)
    ensures IsStripped(raw, StripCarriageReturn(raw))
  {
  }

  /** The lines of a text that consists of `raw` pieces between line feeds: a line for each piece but
      the last, without the carriage return before the line feed, and one for the last as it is, unless
      that is empty. */
  predicate AreLinesOf(raw: seq<string>, ls: seq<string>)
    requires |raw| > 0
  {
    var n := |raw| - 1;
    && |ls| == (if raw[n] == "" then n else n + 1)
    && (forall k | 0 <= k < n :: IsStripped(raw[k], ls[k]))
    && (raw[n] != "" ==> ls[n] == raw[n])
  }

  lemma RawLineThenRest(l: string, rest: string)
    requires '\n' !in l
    ensures Lines(l + ['\n'] + rest) == [StripCarriageReturn(l)] + Lines(rest)
  {
    var s := l + ['\n'] + rest;
    FindPrefix(l, rest, '\n');
    assert s[..|l|] == l && s[|l| + 1..] == rest;
  }

  lemma LastLine(l: string)
    requires '\n' !in l
    ensures Lines(l) == if l == "" then [] else [l]
  {
    FindPrefix(l, "", '\n');
    assert l + "" == l;
  }

  lemma OneMoreLine(first: string, rest: seq<string>, l: string, ls: seq<string>)
    requires |rest| > 0 && AreLinesOf(rest, ls) && IsStripped(first, l)
    ensures AreLinesOf([first] + rest, [l] + ls)
  {
    var raw, all := [first] + rest, [l] + ls;
    forall k | 0 <= k < |raw| - 1
      ensures IsStripped(raw[k], all[k])
    {
      if k > 0 {
        assert IsStripped(rest[k - 1], ls[k - 1]);
      }
    }
  }

  /** Every text is made of such pieces in one way, so this says what its lines are. */
  lemma {:induction false} LinesOfJoin(raw: seq<string>)
    requires |raw| > 0 && forall k | 0 <= k < |raw| :: '\n' !in raw[k]
    ensures AreLinesOf(raw, Lines(Join(raw, '\n')))
  {
    if |raw| == 1 {
      LastLine(raw[0]);
    } else {
      var first, rest := raw[0], raw[1..];
      LinesOfJoin(rest);
      RawLineThenRest(first, Join(rest, '\n'));
      StripMeaning(first);
      OneMoreLine(first, rest, StripCarriageReturn(first), Lines(Join(rest, '\n')));
      assert [first] + rest == raw;
    }
  }

  /** The lines of any text. */
  lemma LinesMeaning(s: string) returns (raw: seq<string>)
    ensures |raw| > 0 && Join(raw, '\n') == s && (forall k | 0 <= k < |raw| :: '\n' !in raw[k])
    ensures AreLinesOf(raw, Lines(s))
  {
    raw := Split(s, '\n');
    JoinSplit(s, '\n');
    LinesOfJoin(raw);
  }

  // ---------------------------------------------------------------- numbers

  predicate IsDigit(c: char) {
    '0' <= c <= '9'
  }

  function DigitValue(c: char): (d: nat)
    requires IsDigit(c)
    ensures d < 10
  {
    c as int - '0' as int
  }

  function Digit(d: nat): (c: char)
    requires d < 10
    ensures IsDigit(c) && DigitValue(c) == d
  {
    ('0' as int + d) as char
  }

  /** The ten digits and their values. */
  lemma DigitValues(c: char)
    ensures IsDigit(c) <==> c in "0123456789"
    ensures forall d | 0 <= d < 10 :: "0123456789"[d] == c ==> IsDigit(c) && DigitValue(c) == d
  {
    assert c in "0123456789" ==> exists d :: 0 <= d < 10 && "0123456789"[d] == c;
    if IsDigit(c) {
      assert "0123456789"[DigitValue(c)] == c;
    }
  }

  predicate AllDigits(s: string) {
    |s| > 0 && forall i | 0 <= i < |s| :: IsDigit(s[i])
  }

  /** The number that a string of decimal digits denotes. */
  function DecimalValue(s: string): nat
    requires AllDigits(s)
  {
    var last := |s| - 1;
    if last == 0 then DigitValue(s[0]) else 10 * DecimalValue(s[..last]) + DigitValue(s[last])
  }

  /** The decimal digits of a number, without leading zeros. */
  function PrintNat(n: nat): (s: string)
    ensures AllDigits(s) && DecimalValue(s) == n
    ensures |s| == 1 <==> n < 10
    ensures |s| > 1 ==> s[0] != '0'
  {
    if n < 10 then [Digit(n)]
    else
      var s := PrintNat(n / 10) + [Digit(n % 10)];
      assert s[..|s| - 1] == PrintNat(n / 10);
      s
  }

  /** Parse an unsigned integer of at most `max`: an optional plus sign, then decimal digits. */
  function ParseUint(s: string, max: nat): (r: Option<nat>)
    ensures r.Some? ==> r.value <= max
  {
    var digits := if |s| > 0 && s[0] == '+' then s[1..] else s;
    if AllDigits(digits) && DecimalValue(digits) <= max then Some(DecimalValue(digits)) else None
  }

  lemma ParsePrintUint(n: nat, max: nat)
    ensures ParseUint(PrintNat(n), max) == if n <= max then Some(n) else None
  {
    var s := PrintNat(n);
    assert IsDigit(s[0]);
  }

  /** One more digit behind a number that is not zero. */
  lemma AppendDigit(s: string, c: char)
    requires AllDigits(s) && IsDigit(c) && DecimalValue(s) > 0
    ensures AllDigits(s + [c]) && DecimalValue(s + [c]) >= 10
    ensures PrintNat(DecimalValue(s + [c])) == PrintNat(DecimalValue(s)) + [c]
  {
    var t := s + [c];
    assert t[..|t| - 1] == s;
    PrintAppended(DecimalValue(s), c);
  }

  lemma PrintAppended(n: nat, c: char)
    requires n > 0 && IsDigit(c)
    ensures PrintNat(10 * n + DigitValue(c)) == PrintNat(n) + [c]
  {
    var m, d := 10 * n + DigitValue(c), DigitValue(c);
    assert m / 10 == n && m % 10 == d && m >= 10;
    assert Digit(d) == c;
  }

  /** Printing is the only way to write a number without leading zeros. */
  lemma {:induction false} DecimalCanonical(s: string)
    requires AllDigits(s) && (|s| > 1 ==> s[0] != '0')
    ensures PrintNat(DecimalValue(s)) == s
    ensures s[0] != '0' ==> DecimalValue(s) > 0
  {
    var last := |s| - 1;
    if last == 0 {
    } else {
      DecimalCanonical(s[..last]);
      AppendDigit(s[..last], s[last]);
      assert s == s[..last] + [s[last]];
    }
  }

  function Zeros(k: nat): string {
    seq(k, _ => '0')
  }

  lemma {:induction false} LeadingZero(s: string)
    requires AllDigits(s)
    ensures AllDigits("0" + s) && DecimalValue("0" + s) == DecimalValue(s)
    decreases |s|
  {
    var t := "0" + s;
    assert t[..|t| - 1] == "0" + s[..|s| - 1];
    if |s| <= 1 {
    } else {
      LeadingZero(s[..|s| - 1]);
    }
  }

  lemma OneMoreZero(k: nat, s: string)
    ensures Zeros(k + 1) + s == "0" + (Zeros(k) + s)
  {
  }

  lemma {:induction false} LeadingZeros(k: nat, n: nat)
    ensures AllDigits(Zeros(k) + PrintNat(n)) && DecimalValue(Zeros(k) + PrintNat(n)) == n
    decreases k
  {
    var digits := PrintNat(n);
    if k == 0 {
      assert Zeros(0) + digits == digits;
    } else {
      LeadingZeros(k - 1, n);
      LeadingZero(Zeros(k - 1) + digits);
      OneMoreZero(k - 1, digits);
    }
  }

  lemma {:induction false} DigitsAreZerosAndNumber(s: string) returns (k: nat)
    requires AllDigits(s)
    ensures s == Zeros(k) + PrintNat(DecimalValue(s))
    decreases |s|
  {
    if |s| > 1 && s[0] == '0' {
      var t := s[1..];
      k := DigitsAreZerosAndNumber(t);
      LeadingZero(t);
      assert s == "0" + t;
      OneMoreZero(k, PrintNat(DecimalValue(t)));
      k := k + 1;
    } else {
      DecimalCanonical(s);
      k := 0;
      assert Zeros(0) + s == s;
    }
  }

  /** `s` is the number `n`, possibly with leading zeros and a plus sign. */
  ghost predicate Spells(s: string, n: nat) {
    exists k: nat :: s == Zeros(k) + PrintNat(n) || s == "+" + (Zeros(k) + PrintNat(n))
  }

  /** A number may be spelled with a plus sign and leading zeros, and in no other way. */
  lemma UintIffSpelled(s: string, n: nat, max: nat)
    ensures ParseUint(s, max) == Some(n) <==> n <= max && Spells(s, n)
  {
    if ParseUint(s, max) == Some(n) {
      var digits := if s[0] == '+' then s[1..] else s;
      var k := DigitsAreZerosAndNumber(digits);
      assert s == digits || s == "+" + digits;
    }
    if n <= max && Spells(s, n) {
      var k: nat :| s == Zeros(k) + PrintNat(n) || s == "+" + (Zeros(k) + PrintNat(n));
      LeadingZeros(k, n);
      var digits := Zeros(k) + PrintNat(n);
      assert IsDigit(digits[0]);
      assert ("+" + digits)[1..] == digits;
    }
  }

  lemma ShortDecimal(n: nat)
    requires n < 1000
    ensures |PrintNat(n)| <= 3
  {
    assert |PrintNat(n / 10 / 10)| == 1;
  }

  // ---------------------------------------------------------------- IPv4 addresses

  /** One octet of a dotted-quad address: one to three digits, no leading zero, at most 255. */
  function ParseOctet(s: string): Option<byte> {
    if AllDigits(s) && |s| <= 3 && (|s| > 1 ==> s[0] != '0') && DecimalValue(s) <= 255
    then Some(DecimalValue(s))
    else None
  }

  function ParseIpv4(s: string): Option<Ipv4Addr> {
    var parts := Split(s, '.');
    if |parts| != 4 then None
    else
      match (ParseOctet(parts[0]), ParseOctet(parts[1]), ParseOctet(parts[2]), ParseOctet(parts[3]))
      case (Some(a), Some(b), Some(c), Some(d)) => Some(Ipv4Addr(a, b, c, d))
      case _ => None
  }

  function PrintIpv4(a: Ipv4Addr): string {
    Join([PrintNat(a.o0), PrintNat(a.o1), PrintNat(a.o2), PrintNat(a.o3)], '.')
  }

  lemma PrintedIpv4(a: Ipv4Addr)
    ensures PrintIpv4(a) == PrintNat(a.o0) + "." + PrintNat(a.o1) + "." + PrintNat(a.o2) + "." + PrintNat(a.o3)
  {
    var p, q, r, s := PrintNat(a.o0), PrintNat(a.o1), PrintNat(a.o2), PrintNat(a.o3);
    assert [p, q, r, s][1..] == [q, r, s] && [q, r, s][1..] == [r, s] && [r, s][1..] == [s];
    assert Join([s], '.') == s;
    assert Join([r, s], '.') == r + "." + s;
    assert Join([q, r, s], '.') == q + "." + (r + "." + s);
  }

  lemma OctetIffPrinted(s: string, b: byte)
    ensures ParseOctet(s) == Some(b) <==> s == PrintNat(b)
  {
    if ParseOctet(s) == Some(b) {
      DecimalCanonical(s);
    }
    ShortDecimal(b);
  }

  lemma {:induction false} SplitOfJoin(parts: seq<string>, sep: char)
    requires |parts| > 0 && forall i | 0 <= i < |parts| :: sep !in parts[i]
    ensures Split(Join(parts, sep), sep) == parts
  {
    if |parts| == 1 {
      SplitNone(parts[0], sep);
    } else {
      SplitOfJoin(parts[1..], sep);
      SplitCons(parts[0], Join(parts[1..], sep), sep);
    }
  }

  /** An address has exactly one spelling: the parser accepts what the printer writes and nothing
      else. */
  lemma Ipv4IffPrinted(s: string, a: Ipv4Addr)
    ensures ParseIpv4(s) == Some(a) <==> s == PrintIpv4(a)
  {
    if ParseIpv4(s) == Some(a) {
      var parts := Split(s, '.');
      OctetIffPrinted(parts[0], a.o0);
      OctetIffPrinted(parts[1], a.o1);
      OctetIffPrinted(parts[2], a.o2);
      OctetIffPrinted(parts[3], a.o3);
      assert parts == [PrintNat(a.o0), PrintNat(a.o1), PrintNat(a.o2), PrintNat(a.o3)];
      JoinSplit(s, '.');
    }
    var printed := [PrintNat(a.o0), PrintNat(a.o1), PrintNat(a.o2), PrintNat(a.o3)];
    SplitOfJoin(printed, '.');
    OctetIffPrinted(printed[0], a.o0);
    OctetIffPrinted(printed[1], a.o1);
    OctetIffPrinted(printed[2], a.o2);
    OctetIffPrinted(printed[3], a.o3);
  }
}
