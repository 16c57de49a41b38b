/** A received command (`irc::Command`). Its fields never change after construction, so it is a value;
    `serial` stands for the address of the object, which is how the queue tells commands apart. */
module IrcCommand {
  import opened Strings

  datatype Command = Command(serial: nat, query: string) {
    function Prefix(): string {
      Upper(Split(Head(query), ' ')[0])
    }

    function Parameters(): seq<string> {
      Split(Head(query), ' ')[1..]
    }

    function Trailer(): string {
      var colon := IndexOf(query, ':');
      if colon < |query| then query[colon + 1..] else ""
    }
  }

  /** What stands before the first colon. */
  function Head(query: string): string {
    query[..IndexOf(query, ':')]
  }

  function UpperChar(c: char): char {
    if 'a' <= c <= 'z' then c - 'a' + 'A' else c
  }

  function Upper(s: string): (r: string)
    ensures |r| == |s|
    ensures forall i :: 0 <= i < |s| ==>
              r[i] as int == if 97 <= s[i] as int <= 122 then s[i] as int - 32 else s[i] as int
  {
    seq(|s|, i requires 0 <= i < |s| => UpperChar(s[i]))
  }

  /** A line of words without blanks and colons, with or without a trailer, is read as its first word in upper
      case, the other words, and the trailer. */
  lemma ReadsWords(serial: nat, words: seq<string>, trailer: string)
    requires words != [] && forall w :: w in words ==> ' ' !in w && ':' !in w
    ensures var c := Command(serial, JoinWith(words, ' '));
            c.Prefix() == Upper(words[0]) && c.Parameters() == words[1..] && c.Trailer() == ""
    ensures var c := Command(serial, JoinWith(words, ' ') + ":" + trailer);
            c.Prefix() == Upper(words[0]) && c.Parameters() == words[1..] && c.Trailer() == trailer
  {
    hide Split, Upper;
    var line := JoinWith(words, ' ');
    NoColon(words);
    SplitJoined(words, ' ');
    Absent(line, ':');
    assert line[..|line|] == line;
    FoundAt(line, trailer, ':');
    var whole := line + ":" + trailer;
    assert whole == line + ([':'] + trailer);
    assert whole[..|line|] == line && whole[|line| + 1..] == trailer;
  }

  lemma {:induction false} NoColon(words: seq<string>)
    requires forall w :: w in words ==> ':' !in w
    ensures ':' !in JoinWith(words, ' ')
  {
    if |words| > 1 {
      NoColon(words[1..]);
    }
  }
}
