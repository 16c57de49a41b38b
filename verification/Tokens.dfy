/** Joining words into a line and taking a line apart into words (mariia: `mergeTokensToString` and
    the tokeniser of `parsBuffer`), and the small string helpers next to them. */
module Tokens {
  import opened Lists
  import opened Option
  import opened Strings

  /** What `operator>>` skips. */
  predicate IsSpace(c: char) {
    c == ' ' || c == '\t' || c == '\n' || c == '\r' || c == 11 as char || c == 12 as char
  }

  /** No blank, and none of the control characters from tab to carriage return. */
  ghost predicate Spaceless(s: string) {
    forall i :: 0 <= i < |s| ==> s[i] as int !in {9, 10, 11, 12, 13, 32}
  }

  function FirstWord(s: string): (w: string)
    ensures w <= s && Spaceless(w)
    ensures |w| < |s| ==> IsSpace(s[|w|])
  {
    if s == "" || IsSpace(s[0]) then "" else [s[0]] + FirstWord(s[1..])
  }

  /** The words of a line. */
  function Words(s: string): seq<string>
    decreases |s|
  {
    if s == "" then []
    else if IsSpace(s[0]) then Words(s[1..])
    else
      var w := FirstWord(s);
      [w] + Words(s[|w|..])
  }

  /** The tokeniser loop: `at` is where the stream stands. */
  method Tokenise(line: string) returns (tokens: seq<string>)
    ensures tokens == Words(line)
  {
    hide Words, FirstWord;
    tokens := [];
    var at := 0;
    assert line[0..] == line;
    while at < |line|
      invariant at <= |line|
      invariant tokens + Words(line[at..]) == Words(line)
    {
      WordsFrom(line, at);
      if IsSpace(line[at]) {
        at := at + 1;
      } else {
        var token := FirstWord(line[at..]);
        assert tokens + ([token] + Words(line[at + |token|..])) == tokens + [token] + Words(line[at + |token|..]);
        tokens := tokens + [token];
        at := at + |token|;
      }
    }
    NoWords();
    assert line[at..] == "" && tokens + [] == tokens;
  }

  lemma NoWords()
    ensures Words("") == []
  {
  }

  /** The words from a position on. */
  lemma WordsFrom(line: string, at: nat)
    requires at < |line|
    ensures if IsSpace(line[at]) then Words(line[at..]) == Words(line[at + 1..])
            else
              var w := FirstWord(line[at..]);
              0 < |w| <= |line| - at && Words(line[at..]) == [w] + Words(line[at + |w|..])
  {
    var rest := line[at..];
    assert rest[1..] == line[at + 1..];
    if !IsSpace(line[at]) {
      assert rest[|FirstWord(rest)|..] == line[at + |FirstWord(rest)|..];
    }
  }

  /** The words with single blanks between them; empty words leave their blanks behind. */
  function Merged(words: seq<string>): string {
    if words == [] then ""
    else if |words| == 1 then words[0]
    else words[0] + " " + Merged(words[1..])
  }

  lemma {:induction false} MergedSnoc(words: seq<string>, last: string)
    requires words != []
    ensures Merged(words + [last]) == Merged(words) + " " + last
    decreases |words|
  {
    if |words| == 1 {
      assert (words + [last])[1..] == [last];
    } else {
      assert (words + [last])[1..] == words[1..] + [last];
      MergedSnoc(words[1..], last);
    }
  }

  method MergeTokensToString(tokens: seq<string>, removeColon: bool) returns (merged: string)
    ensures !removeColon ==> merged == Merged(tokens)
    ensures removeColon ==> merged == if ":" <= Merged(tokens) then Merged(tokens)[1..] else Merged(tokens)
  {
    merged := "";
    for i := 0 to |tokens|
      invariant merged == if i == 0 || i == |tokens| then Merged(tokens[..i]) else Merged(tokens[..i]) + " "
    {
      assert tokens[..i + 1] == tokens[..i] + [tokens[i]];
      if i > 0 {
        MergedSnoc(tokens[..i], tokens[i]);
      }
      merged := merged + tokens[i];
      if i < |tokens| - 1 {
        merged := merged + " ";
      }
    }
    assert tokens[..|tokens|] == tokens;
    if removeColon && |merged| > 0 && merged[0] == ':' {
      merged := merged[1..];
    }
  }

  /** One word in front of the rest of a line. */
  lemma {:induction false} WordsCons(w: string, s: string)
    requires Spaceless(w)
    ensures Words(w + " " + s) == (if w == "" then [] else [w]) + Words(s)
  {
    var line := w + " " + s;
    if w == "" {
      assert line == " " + s;
      assert line[1..] == s;
    } else {
      FirstWordOf(w, " " + s);
      assert line == w + (" " + s);
      assert line[|w|..] == " " + s;
      assert (" " + s)[1..] == s;
      assert !IsSpace(line[0]) by { assert line[0] == w[0]; }
    }
  }

  lemma {:induction false} FirstWordOf(w: string, tail: string)
    requires Spaceless(w) && (tail == "" || IsSpace(tail[0]))
    ensures FirstWord(w + tail) == w
    decreases |w|
  {
    if w == "" {
      assert w + tail == tail;
    } else {
      assert (w + tail)[1..] == w[1..] + tail;
      FirstWordOf(w[1..], tail);
    }
  }

  lemma WordsOne(w: string)
    requires Spaceless(w)
    ensures Words(w) == if w == "" then [] else [w]
  {
    FirstWordOf(w, "");
    assert w + "" == w;
    assert w[|w|..] == "";
  }

  ghost predicate AllSpaceless(words: seq<string>) {
    forall i :: 0 <= i < |words| ==> Spaceless(words[i])
  }

  /** Merging and tokenising again gives back exactly the non-empty words. */
  lemma {:induction false} WordsOfMerged(words: seq<string>)
    requires AllSpaceless(words)
    ensures Words(Merged(words)) == NonEmpty(words)
    decreases |words|
  {
    if |words| == 1 {
      WordsOne(words[0]);
      assert words[1..] == [];
    } else if words != [] {
      WordsOfMerged(words[1..]);
      WordsCons(words[0], Merged(words[1..]));
    }
  }

  /** There is exactly one blank between each two words, empty ones included. */
  lemma {:induction false} MergedIsJoined(words: seq<string>)
    ensures Merged(words) == JoinWith(words, ' ')
  {
    if |words| > 1 {
      MergedIsJoined(words[1..]);
    }
  }

  /** Splitting at each blank gives back all the words, empty ones included. */
  lemma SplitMerged(words: seq<string>)
    requires words != [] && forall w :: w in words ==> ' ' !in w
    ensures Split(Merged(words), ' ') == words
  {
    MergedIsJoined(words);
    SplitJoined(words, ' ');
  }

  /** Every word of a line is non-empty and free of blanks. */
  lemma {:induction false} WordsClean(s: string)
    ensures AllSpaceless(Words(s)) && "" !in Words(s)
    decreases |s|
  {
    if s != "" {
      if IsSpace(s[0]) {
        WordsClean(s[1..]);
      } else {
        WordsClean(s[|FirstWord(s)|..]);
      }
    }
  }

  // ----- names -----

  method UncapitalizeString(input: string) returns (output: string)
    ensures output == Lower(input)
  {
    output := input;
    for i := 0 to |input|
      invariant |output| == |input|
      invariant forall k :: 0 <= k < |input| ==> output[k] == if k < i then LowerChar(input[k]) else input[k]
    {
      output := output[i := LowerChar(input[i])];
    }
  }

  predicate ForbiddenInName(c: char) {
    c == ' ' || c == 0 as char || c == 7 as char || c == 13 as char || c == 10 as char
  }

  predicate ValidName(name: string) {
    name != "" && forall i :: 0 <= i < |name| ==> !ForbiddenInName(name[i])
  }

  method IsValidName(name: string) returns (valid: bool)
    ensures valid <==> name != "" && forall c :: c in name ==> c as int !in {0, 7, 10, 13, 32}
    ensures valid <==> ValidName(name)
  {
    if |name| == 0 {
      return false;
    }
    for i := 0 to |name|
      invariant forall k :: 0 <= k < i ==> !ForbiddenInName(name[k])
    {
      if ForbiddenInName(name[i]) {
        assert name[i] in name;
        return false;
      }
    }
    return true;
  }

  /** `iss >> limit` into a 32-bit int: an optional sign and digits, whatever follows them;
      nothing without a digit or out of range. */
  function ParseInt(s: string): (n: Option<int>)
    ensures n.Some? ==> Fits(n.value)
  {
    var negative := s != "" && s[0] == '-';
    var digits := if s != "" && (s[0] == '-' || s[0] == '+') then s[1..] else s;
    var count := DigitsAhead(digits);
    var magnitude: int := Value(digits[..count]);
    var value := if negative then -magnitude else magnitude;
    if count > 0 && Fits(value) then Some(value) else None
  }

  /** The range of a 32-bit int. */
  predicate Fits(n: int) {
    -0x8000_0000 <= n < 0x8000_0000
  }

  function DigitsAhead(s: string): (n: nat)
    ensures n <= |s| && forall i :: 0 <= i < n ==> '0' <= s[i] <= '9'
  {
    if s != "" && '0' <= s[0] <= '9' then 1 + DigitsAhead(s[1..]) else 0
  }

  function Value(digits: string): nat
    requires forall i :: 0 <= i < |digits| ==> '0' <= digits[i] <= '9'
  {
    if digits == "" then 0 else 10 * Value(digits[..|digits| - 1]) + (digits[|digits| - 1] - '0') as nat
  }

  predicate AllDigits(s: string) {
    forall i :: 0 <= i < |s| ==> '0' <= s[i] <= '9'
  }

  /** A number as it is written. */
  function Decimal(n: nat): string {
    (if n < 10 then "" else Decimal(n / 10)) + [Digit(n % 10)]
  }

  function Digit(d: nat): char
    requires d < 10
  {
    '0' + d as char
  }

  function Written(n: int): string {
    if n < 0 then "-" + Decimal(-n) else Decimal(n)
  }

  lemma ValueSnoc(digits: string, d: nat)
    requires AllDigits(digits) && d < 10
    ensures AllDigits(digits + [Digit(d)]) && Value(digits + [Digit(d)]) == 10 * Value(digits) + d
  {
    assert (digits + [Digit(d)])[..|digits|] == digits;
  }

  lemma {:induction false} DecimalValue(n: nat)
    ensures Decimal(n) != "" && AllDigits(Decimal(n)) && Value(Decimal(n)) == n
    decreases n
  {
    hide Value, Digit, AllDigits;
    if n < 10 {
      NoDigits();
      ValueSnoc("", n);
    } else {
      DecimalValue(n / 10);
      ValueSnoc(Decimal(n / 10), n % 10);
    }
  }

  lemma NoDigits()
    ensures AllDigits("") && Value("") == 0
  {
  }

  lemma {:induction false} DigitsThenOther(digits: string, tail: string)
    requires AllDigits(digits) && (tail == "" || !('0' <= tail[0] <= '9'))
    ensures DigitsAhead(digits + tail) == |digits|
    decreases |digits|
  {
    if digits == "" {
      assert digits + tail == tail;
    } else {
      assert (digits + tail)[1..] == digits[1..] + tail;
      DigitsThenOther(digits[1..], tail);
    }
  }

  lemma ParsesDigits(digits: string, tail: string)
    requires digits != "" && AllDigits(digits) && (tail == "" || !('0' <= tail[0] <= '9'))
    ensures var n: int := Value(digits);
            && ParseInt(digits + tail) == (if Fits(n) then Some(n) else None)
            && ParseInt("+" + (digits + tail)) == (if Fits(n) then Some(n) else None)
            && ParseInt("-" + (digits + tail)) == if Fits(-n) then Some(-n) else None
  {
    hide Value, DigitsAhead;
    var s := digits + tail;
    DigitsThenOther(digits, tail);
    assert s[0] == digits[0] && s[..|digits|] == digits;
    assert ("-" + s)[1..] == s && ("+" + s)[1..] == s;
  }

  /** Reading a number that is written out, with anything but a digit after it, gives that number if it fits 32
      bits and fails if it does not. */
  lemma ParsesWritten(n: int, tail: string)
    requires tail == "" || !('0' <= tail[0] <= '9')
    ensures ParseInt(Written(n) + tail) == if Fits(n) then Some(n) else None
    ensures n >= 0 ==> ParseInt("+" + (Written(n) + tail)) == if Fits(n) then Some(n) else None
  {
    hide Decimal, Value, ParseInt, AllDigits;
    var d := Decimal(if n < 0 then -n else n);
    DecimalValue(if n < 0 then -n else n);
    ParsesDigits(d, tail);
    assert "-" + d + tail == "-" + (d + tail);
  }

  /** Reading fails where there is no digit behind an optional sign. */
  lemma ParsesNothing(s: string)
    requires var t := if s != "" && Sign(s[0]) then s[1..] else s; t == "" || !('0' <= t[0] <= '9')
    ensures ParseInt(s).None?
  {
  }
}
