/** boris: taking a message apart into prefix and arguments (section 2.3.1 of RFC 2812), printing one,
    and the second scan that only looks for the command name. */
module Message {
  import opened Option
  import opened Strings

  predicate StartsWith(s: string, c: char) {
    s != "" && s[0] == c
  }

  function Crop(s: string): (r: string)
    ensures |r| <= |s| && !StartsWith(r, ' ')
  {
    if StartsWith(s, ' ') then Crop(s[1..]) else s
  }

  /** A first word that starts with a colon is the prefix; it keeps its colon. */
  function PrefixLength(m: string): (n: nat)
    ensures n <= |m|
  {
    if StartsWith(m, ':') then IndexOf(m, ' ') else 0
  }

  /** The arguments of a message without its prefix. */
  function ArgsOf(m: string): seq<string>
    decreases |m|
  {
    var c := Crop(m);
    if c == "" then []
    else if c[0] == ':' then [c[1..]]
    else
      var n := IndexOf(c, ' ');
      [c[..n]] + ArgsOf(c[n..])
  }

  datatype Parsed = Parsed(prefix: string, args: seq<string>)

  function Parse(m: string): Parsed {
    Parsed(m[..PrefixLength(m)], ArgsOf(m[PrefixLength(m)..]))
  }

  class ACommand {
    var message: string
    var prefix: string
    var args: seq<string>
    /** Position among the command names, and the socket of the client. */
    var kind: nat
    var client: Option<int>

    constructor ()
      ensures message == "" && prefix == "" && args == [] && client == None
    {
      message, prefix, args, client := "", "", [], None;
    }

    method GetPrefix() returns (p: string)
      modifies this`message
      ensures p == old(message)[..PrefixLength(old(message))]
      ensures message == old(message)[PrefixLength(old(message))..]
    {
      var length := 0;
      if |message| > 0 && message[0] == ':' {
        while length < |message| && message[length] != ' '
          invariant length <= |message|
          invariant ' ' !in message[..length]
        {
          length := length + 1;
        }
      } else {
        return "";
      }
      IndexOfIs(message, ' ', length);
      p := message[..length];
      message := message[length..];
    }

    method CropSpaces()
      modifies this`message
      ensures message == Crop(old(message))
    {
      var length := 0;
      assert message[0..] == message;
      while length < |message| && message[length] == ' '
        invariant length <= |message|
        invariant Crop(message[length..]) == Crop(message)
      {
        assert message[length..][1..] == message[length + 1..];
        length := length + 1;
      }
      message := message[length..];
    }

    method GetArg()
      requires !StartsWith(message, ' ')
      modifies this`message, this`args
      ensures args + ArgsOf(message) == old(args) + ArgsOf(old(message))
      ensures |message| < |old(message)| || message == ""
    {
      var length := 0;
      assert Crop(message) == message;
      if |message| > 0 && message[0] == ':' {
        args := args + [message[1..]];
        message := "";
      } else {
        while length < |message| && message[length] != ' '
          invariant length <= |message|
          invariant ' ' !in message[..length]
        {
          length := length + 1;
        }
        IndexOfIs(message, ' ', length);
        assert message != "" ==> ArgsOf(message) == [message[..length]] + ArgsOf(message[length..]);
        if length > 0 {
          args := args + [message[..length]];
        }
        message := message[length..];
      }
    }

    method ParseMessage()
      modifies this`message, this`prefix, this`args
      ensures Parsed(prefix, args) == Parsed(Parse(old(message)).prefix, old(args) + Parse(old(message)).args)
      ensures message == ""
    {
      prefix := GetPrefix();
      ghost var body := message;
      while |message| > 0
        invariant prefix == Parse(old(message)).prefix
        invariant args + ArgsOf(message) == old(args) + ArgsOf(body)
        decreases |message|
      {
        CropTwice(message);
        CropSpaces();
        GetArg();
      }
    }

    /** `found` is what looking up the socket at hand gives. */
    method UpdateCommand(text: string, kind: nat, found: Option<int>)
      modifies this
      ensures Parsed(prefix, args) == Parse(text) && this.kind == kind && client == found
    {
      args := [];
      client := None;
      message := text;
      this.kind := kind;
      client := found;
      ParseMessage();
    }
  }

  lemma CropTwice(m: string)
    ensures ArgsOf(Crop(m)) == ArgsOf(m)
  {
  }

  lemma {:induction false} IndexOfIs(s: string, c: char, n: nat)
    requires n <= |s| && c !in s[..n] && (n < |s| ==> s[n] == c)
    ensures IndexOf(s, c) == n
  {
    if n > 0 {
      assert s[0] == s[..n][0] && s[1..][..n - 1] == s[..n][1..];
      IndexOfIs(s[1..], c, n - 1);
    }
  }

  // ----- printing -----

  function Spaces(n: nat): string {
    if n == 0 then "" else " " + Spaces(n - 1)
  }

  /** What may stand between spaces: not empty, no space inside, no colon in front. */
  predicate Middle(word: string) {
    word != "" && word[0] != ':' && ' ' !in word
  }

  function PrintMiddles(gaps: seq<nat>, words: seq<string>): string
    requires |gaps| == |words|
  {
    if words == [] then "" else Spaces(gaps[0]) + words[0] + PrintMiddles(gaps[1..], words[1..])
  }

  function PrintEnd(gap: nat, trailing: Option<string>): string {
    match trailing
    case None => Spaces(gap)
    case Some(text) => Spaces(gap) + ":" + text
  }

  /** A message with any runs of spaces between its parts. */
  function Print(prefix: string, gaps: seq<nat>, words: seq<string>, gap: nat, trailing: Option<string>): string
    requires |gaps| == |words|
  {
    prefix + (PrintMiddles(gaps, words) + PrintEnd(gap, trailing))
  }

  /** The parts can be told apart: spaces before every word but the first, before the first if there is a prefix,
      and before a trailing argument. */
  ghost predicate Printable(prefix: string, gaps: seq<nat>, words: seq<string>, gap: nat, trailing: Option<string>) {
    && |gaps| == |words|
    && (prefix == "" || (StartsWith(prefix, ':') && ' ' !in prefix))
    && (forall i :: 0 <= i < |words| ==> Middle(words[i]))
    && (forall i :: 1 <= i < |gaps| ==> gaps[i] > 0)
    && (prefix != "" && words != [] ==> gaps[0] > 0)
    && (trailing.Some? ==> gap > 0)
  }

  function AllArgs(words: seq<string>, trailing: Option<string>): seq<string> {
    words + if trailing.Some? then [trailing.value] else []
  }

  lemma {:induction false} CropSpacesOff(n: nat, s: string)
    requires !StartsWith(s, ' ')
    ensures Crop(Spaces(n) + s) == s
  {
    if n == 0 {
      assert Spaces(n) + s == s;
    } else {
      assert (Spaces(n) + s)[1..] == Spaces(n - 1) + s;
      CropSpacesOff(n - 1, s);
    }
  }

  lemma EndArgs(gap: nat, trailing: Option<string>)
    ensures ArgsOf(PrintEnd(gap, trailing)) == AllArgs([], trailing)
  {
    match trailing {
      case None =>
        CropSpacesOff(gap, "");
        assert Spaces(gap) + "" == Spaces(gap);
      case Some(text) =>
        CropSpacesOff(gap, ":" + text);
        assert Spaces(gap) + ":" + text == Spaces(gap) + (":" + text);
        assert (":" + text)[1..] == text;
    }
  }

  lemma SpacesStart(n: nat, s: string)
    ensures n > 0 ==> StartsWith(Spaces(n) + s, ' ')
    ensures n == 0 ==> Spaces(n) + s == s
  {
  }

  /** What follows a word is empty or starts with a space. */
  lemma RestStarts(gaps: seq<nat>, words: seq<string>, gap: nat, trailing: Option<string>)
    requires |gaps| == |words| && (words != [] ==> gaps[0] > 0) && (trailing.Some? ==> gap > 0)
    ensures var rest := PrintMiddles(gaps, words) + PrintEnd(gap, trailing);
            rest == "" || StartsWith(rest, ' ')
  {
    if words != [] {
      SpacesStart(gaps[0], words[0] + PrintMiddles(gaps[1..], words[1..]));
    } else {
      assert "" + PrintEnd(gap, trailing) == PrintEnd(gap, trailing);
      SpacesStart(gap, if trailing.Some? then ":" + trailing.value else "");
    }
  }

  /** The first word of a body is its first argument. */
  lemma FirstArg(gap: nat, word: string, rest: string)
    requires Middle(word) && (rest == "" || StartsWith(rest, ' '))
    ensures ArgsOf(Spaces(gap) + (word + rest)) == [word] + ArgsOf(rest)
  {
    hide IndexOf, Spaces;
    var c := word + rest;
    assert c[0] == word[0];
    CropSpacesOff(gap, c);
    assert c[..|word|] == word && c[|word|..] == rest;
    IndexOfIs(c, ' ', |word|);
  }

  lemma PrintFirst(gaps: seq<nat>, words: seq<string>, end: string)
    requires |gaps| == |words| && words != []
    ensures PrintMiddles(gaps, words) + end == Spaces(gaps[0]) + (words[0] + (PrintMiddles(gaps[1..], words[1..]) + end))
  {
    hide Spaces;
  }

  lemma {:induction false} BodyArgs(gaps: seq<nat>, words: seq<string>, gap: nat, trailing: Option<string>)
    requires Printable("", gaps, words, gap, trailing)
    ensures ArgsOf(PrintMiddles(gaps, words) + PrintEnd(gap, trailing)) == AllArgs(words, trailing)
    decreases |words|
  {
    if words == [] {
      assert "" + PrintEnd(gap, trailing) == PrintEnd(gap, trailing);
      EndArgs(gap, trailing);
    } else {
      hide ArgsOf, PrintMiddles, PrintEnd, Middle;
      PrintFirst(gaps, words, PrintEnd(gap, trailing));
      RestStarts(gaps[1..], words[1..], gap, trailing);
      FirstArg(gaps[0], words[0], PrintMiddles(gaps[1..], words[1..]) + PrintEnd(gap, trailing));
      BodyArgs(gaps[1..], words[1..], gap, trailing);
      assert AllArgs(words, trailing) == [words[0]] + AllArgs(words[1..], trailing);
    }
  }

  /** Parsing undoes printing. */
  lemma RoundTrip(prefix: string, gaps: seq<nat>, words: seq<string>, gap: nat, trailing: Option<string>)
    requires Printable(prefix, gaps, words, gap, trailing)
    ensures Parse(Print(prefix, gaps, words, gap, trailing)) == Parsed(prefix, AllArgs(words, trailing))
  {
    hide IndexOf, ArgsOf, PrintMiddles;
    var body := PrintMiddles(gaps, words) + PrintEnd(gap, trailing);
    var m := Print(prefix, gaps, words, gap, trailing);
    BodyArgs(gaps, words, gap, trailing);
    if prefix == "" {
      assert m == body;
      NoColonFirst(gaps, words, gap, trailing);
    } else {
      RestStarts(gaps, words, gap, trailing);
      assert m[..|prefix|] == prefix && m[|prefix|..] == body;
      IndexOfIs(m, ' ', |prefix|);
    }
  }

  lemma NoColonFirst(gaps: seq<nat>, words: seq<string>, gap: nat, trailing: Option<string>)
    requires Printable("", gaps, words, gap, trailing)
    ensures !StartsWith(PrintMiddles(gaps, words) + PrintEnd(gap, trailing), ':')
  {
    if words != [] && gaps[0] == 0 {
      assert Middle(words[0]);
      assert (PrintMiddles(gaps, words) + PrintEnd(gap, trailing))[0] == words[0][0];
    } else if words == [] {
      RestStarts(gaps, words, gap, trailing);
    } else {
      SpacesStart(gaps[0], words[0]);
    }
  }

  // ----- every message has a canonical form -----

  /** All arguments but the last are middles. */
  lemma {:induction false} ArgsShape(m: string)
    ensures forall i :: 0 <= i < |ArgsOf(m)| - 1 ==> Middle(ArgsOf(m)[i])
    decreases |m|
  {
    hide IndexOf;
    var c := Crop(m);
    if c != "" && c[0] != ':' {
      ArgsShape(c[IndexOf(c, ' ')..]);
    }
  }

  /** One space between the parts, and the last argument always as a trailing one. */
  function Canonical(p: Parsed): string {
    var n := |p.args|;
    if n == 0 then p.prefix
    else Print(p.prefix, seq(n - 1, _ => 1), p.args[..n - 1], 1, Some(p.args[n - 1]))
  }

  /** Printing what was parsed, from any message whatever, and parsing it again changes nothing. */
  lemma CanonicalAgain(m: string)
    ensures Parse(Canonical(Parse(m))) == Parse(m)
  {
    hide ArgsOf, IndexOf, Print;
    var p := Parse(m);
    var n := |p.args|;
    ArgsShape(m[PrefixLength(m)..]);
    if n == 0 {
      RoundTrip(p.prefix, [], [], 0, None);
      PrintPrefixOnly(p.prefix);
    } else {
      RoundTrip(p.prefix, seq(n - 1, _ => 1), p.args[..n - 1], 1, Some(p.args[n - 1]));
      assert p.args[..n - 1] + [p.args[n - 1]] == p.args;
    }
  }

  lemma PrintPrefixOnly(prefix: string)
    ensures Print(prefix, [], [], 0, None) == prefix
  {
  }

  // ----- the command name -----

  const COMMAND_NAMES: seq<string> := [
    "PASS", "NICK", "USER", "OPER", "QUIT", "JOIN", "PART", "MODE",
    "TOPIC", "NAMES", "LIST", "INVITE", "KICK", "PRIVMSG", "NOTICE",
    "WHO", "KILL", "PING", "USERHOST", "PONG", "RESTART"]

  const CMD_NONE: nat := 21

  /** Where `getType` starts reading: past a prefix and the spaces after it. */
  function PastPrefix(m: string): string {
    if StartsWith(m, ':') then Crop(m[IndexOf(m, ' ')..]) else m
  }

  /** The word that `getType` compares with the names. */
  function TypeWord(m: string): string {
    PastPrefix(m)[..IndexOf(PastPrefix(m), ' ')]
  }

  method GetType(message: string) returns (i: nat)
    ensures i <= CMD_NONE && |COMMAND_NAMES| == CMD_NONE
    ensures i < CMD_NONE ==> COMMAND_NAMES[i] == TypeWord(message)
    ensures i == CMD_NONE ==> TypeWord(message) !in COMMAND_NAMES
  {
    hide TypeWord;
    var name := ScanTypeWord(message);
    i := 0;
    while i != CMD_NONE && COMMAND_NAMES[i] != name
      invariant i <= CMD_NONE
      invariant forall k :: 0 <= k < i ==> COMMAND_NAMES[k] != name
    {
      i := i + 1;
    }
  }

  /** The scans of `getType` by which it finds the word: first `start` moves, then `length`. */
  method ScanTypeWord(message: string) returns (name: string)
    ensures name == TypeWord(message)
  {
    hide IndexOf, PastPrefix;
    var start := SkipPrefix(message);
    ghost var rest := message[start..];
    var length := 0;
    while start + length < |message| && message[start + length] != ' '
      invariant start + length <= |message| && ' ' !in rest[..length]
    {
      assert rest[..length + 1] == rest[..length] + [message[start + length]];
      length := length + 1;
    }
    IndexOfIs(rest, ' ', length);
    name := message[start..start + length];
    assert name == rest[..length];
  }

  method SkipPrefix(message: string) returns (start: nat)
    ensures start <= |message| && message[start..] == PastPrefix(message)
  {
    hide IndexOf;
    start := 0;
    if |message| > 0 && message[0] == ':' {
      while start < |message| && message[start] != ' '
        invariant start <= |message| && ' ' !in message[..start]
      {
        start := start + 1;
      }
      IndexOfIs(message, ' ', start);
      ghost var rest := message[start..];
      while start < |message| && message[start] == ' '
        invariant start <= |message|
        invariant Crop(message[start..]) == Crop(rest)
      {
        assert message[start..][1..] == message[start + 1..];
        start := start + 1;
      }
    }
  }

  lemma NamesPlain(word: string)
    requires word in COMMAND_NAMES
    ensures Middle(word)
  {
  }

  /** A message whose first argument is a trailing one. */
  predicate TrailingFirst(m: string) {
    StartsWith(Crop(m[PrefixLength(m)..]), ':')
  }

  /** The two scans agree. When `getType` recognises a command, its name is the first argument; and it recognises the
      first argument exactly when that is a command name, unless the message starts with a space or its
      first argument is a trailing one, which `getType` does not see. */
  lemma TypeIsFirstArg(m: string)
    ensures TypeWord(m) in COMMAND_NAMES ==> Parse(m).args != [] && Parse(m).args[0] == TypeWord(m)
    ensures TypeWord(m) in COMMAND_NAMES <==>
            && Parse(m).args != [] && Parse(m).args[0] in COMMAND_NAMES
            && !StartsWith(m, ' ') && !TrailingFirst(m)
  {
    hide IndexOf;
    var rest := Crop(m[PrefixLength(m)..]);
    var word := TypeWord(m);
    if word in COMMAND_NAMES {
      NamesPlain(word);
    }
    if StartsWith(m, ' ') {
      assert IndexOf(m, ' ') == 0 by { IndexOfIs(m, ' ', 0); }
    } else if !StartsWith(m, ':') {
      assert m[0..] == m && Crop(m) == m;
    }
  }
}
