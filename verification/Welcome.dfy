/** A registration from the bytes on the wire to the names of the user. */
module Welcome {
  import opened CString
  import opened CrLf
  import opened Lists
  import opened Strings
  import opened IrcCommand
  import opened Dispatch
  import opened Registration
  import opened UserSession
  import opened Names

  /** A parameter as a client sends it. */
  predicate Word(s: string) {
    ' ' !in s && ':' !in s && '\r' !in s && '\n' !in s && NUL !in s
  }

  /** What a client sends to register. */
  datatype Form = Form(pass: string, nick: string, user: string, host: string, server: string, fullName: string)

  predicate WellFormed(f: Form) {
    && Word(f.pass) && Word(f.nick) && Word(f.user) && Word(f.host) && Word(f.server)
    && f.nick != "" && f.fullName != "" && '\r' !in f.fullName && '\n' !in f.fullName && NUL !in f.fullName
  }

  function PassLine(f: Form): string {
    "PASS " + f.pass
  }

  function NickLine(f: Form): string {
    "NICK " + f.nick
  }

  function UserLine(f: Form): string {
    "USER " + f.user + " " + f.host + " " + f.server + " :" + f.fullName
  }

  function Lines(f: Form): seq<string> {
    ["CAP LS", PassLine(f), NickLine(f), UserLine(f)]
  }

  function Text(f: Form): string {
    "CAP LS\r\n" + PassLine(f) + "\r\n" + NickLine(f) + "\r\n" + UserLine(f) + "\r\n"
  }

  // ----- the four commands -----

  lemma UpperNames()
    ensures Upper("CAP") == "CAP" && Upper("PASS") == "PASS" && Upper("NICK") == "NICK" && Upper("USER") == "USER"
  {
  }

  lemma CapRead(serial: nat)
    ensures var c := Command(serial, "CAP LS"); c.Prefix() == "CAP" && c.Parameters() == ["LS"]
  {
    hide Command.Prefix, Command.Parameters, Upper;
    UpperNames();
    var words := ["CAP", "LS"];
    assert words[1..] == ["LS"];
    ReadsWords(serial, words, "");
    assert JoinWith(words, ' ') == "CAP LS";
  }

  lemma TwoWords(serial: nat, name: string, parameter: string)
    requires ' ' !in name && ':' !in name && Upper(name) == name && Word(parameter)
    ensures var c := Command(serial, name + " " + parameter); c.Prefix() == name && c.Parameters() == [parameter]
  {
    hide Command.Prefix, Command.Parameters, Upper;
    var words := [name, parameter];
    assert words[1..] == [parameter];
    ReadsWords(serial, words, "");
    assert JoinWith(words, ' ') == name + " " + parameter;
  }

  lemma JoinTwo(word: string, words: seq<string>)
    requires words != []
    ensures JoinWith([word] + words, ' ') == word + " " + JoinWith(words, ' ')
    ensures |words| == 1 ==> JoinWith(words, ' ') == words[0]
  {
    assert ([word] + words)[1..] == words;
  }

  function UserWords(f: Form): seq<string> {
    ["USER", f.user, f.host, f.server, ""]
  }

  lemma UserJoined(f: Form)
    ensures JoinWith(UserWords(f), ' ') + ":" + f.fullName == UserLine(f)
  {
    JoinTwo(f.server, [""]);
    JoinTwo(f.host, [f.server, ""]);
    JoinTwo(f.user, [f.host, f.server, ""]);
    JoinTwo("USER", [f.user, f.host, f.server, ""]);
    hide JoinWith;
    assert [f.server] + [""] == [f.server, ""] && [f.host] + [f.server, ""] == [f.host, f.server, ""];
    assert [f.user] + [f.host, f.server, ""] == [f.user, f.host, f.server, ""];
    assert ["USER"] + [f.user, f.host, f.server, ""] == UserWords(f);
  }

  lemma UserRead(serial: nat, f: Form)
    requires WellFormed(f)
    ensures var c := Command(serial, UserLine(f));
            c.Prefix() == "USER" && c.Parameters() == [f.user, f.host, f.server, ""] && c.Trailer() == f.fullName
  {
    hide Command.Prefix, Command.Parameters, Command.Trailer, Upper, JoinWith, UserLine;
    UpperNames();
    UserJoined(f);
    assert UserWords(f)[1..] == [f.user, f.host, f.server, ""];
    ReadsWords(serial, UserWords(f), f.fullName);
  }

  // ----- from the wire to the queue -----

  lemma NoNewline(s: string)
    requires '\n' !in s
    ensures CrlfFree(s)
  {
    forall i: nat ensures !EndsAt(s, i) {
      if i + 1 < |s| {
        assert s[i + 1] in s;
      }
    }
  }

  lemma LinesArrive(f: Form)
    requires WellFormed(f)
    ensures TakeApart(Text(f)) == Taken(Lines(f), "") && NonEmpty(Lines(f)) == Lines(f)
  {
    hide PassLine, NickLine, UserLine, FindFrom, TakeApart, Text, Lines, CrlfFree;
    FramesOfLines(f);
    LinesPlain(f);
    NoNewline("");
    OneReading(Text(f), Taken(Lines(f), ""));
    AllKept(Lines(f));
  }

  lemma LinesPlain(f: Form)
    requires WellFormed(f)
    ensures forall k :: 0 <= k < |Lines(f)| ==> Lines(f)[k] != "" && CrlfFree(Lines(f)[k])
  {
    hide CrlfFree;
    NoNewline("CAP LS");
    NoNewline(PassLine(f));
    NoNewline(NickLine(f));
    NoNewline(UserLine(f));
  }

  lemma {:induction false} AllKept(parts: seq<string>)
    requires forall k :: 0 <= k < |parts| ==> parts[k] != ""
    ensures NonEmpty(parts) == parts
  {
    if parts != [] {
      AllKept(parts[1..]);
    }
  }

  lemma FrameCons(line: string, lines: seq<string>)
    ensures Frame([line] + lines) == line + CRLF + Frame(lines)
  {
    assert ([line] + lines)[1..] == lines;
  }

  lemma FramesOfLines(f: Form)
    ensures Text(f) == Frame(Lines(f)) + ""
  {
    hide PassLine, NickLine, UserLine;
    var l := Lines(f);
    FrameCons(l[3], []);
    FrameCons(l[2], [l[3]]);
    FrameCons(l[1], [l[2], l[3]]);
    FrameCons(l[0], [l[1], l[2], l[3]]);
    assert [l[3]] + [] == [l[3]] && [l[2]] + [l[3]] == [l[2], l[3]] && [l[1]] + [l[2], l[3]] == [l[1], l[2], l[3]];
    assert l == [l[0]] + [l[1], l[2], l[3]];
    assert Frame(l) == l[0] + CRLF + (l[1] + CRLF + (l[2] + CRLF + (l[3] + CRLF + "")));
  }

  lemma WholeText(f: Form)
    requires WellFormed(f)
    ensures CStr(Text(f)) == Text(f)
  {
    CutAtNul(Text(f));
  }

  function Queue(f: Form): seq<Command> {
    [Command(0, "CAP LS"), Command(1, PassLine(f)), Command(2, NickLine(f)), Command(3, UserLine(f))]
  }

  lemma QueueArrives(f: Form, w: World)
    requires WellFormed(f)
    ensures Added(Accepted(w), Text(f)) == Queue(f)
  {
    hide TakeApart, NonEmpty, PassLine, NickLine, UserLine, CStr;
    WholeText(f);
    LinesArrive(f);
    assert "" + Text(f) == Text(f);
  }

  // ----- what comes of it -----

  lemma QueueSays(f: Form, w: World)
    requires WellFormed(f)
    ensures Includes(Queue(f), Opens)
    ensures Includes(Queue(f), c => RightPass(c, w)) <==> f.pass == w.password
    ensures Includes(Queue(f), c => GivesNick(c, w)) <==> w.succeeds(2)
    ensures !Includes(Queue(f), c => Deletes(c, w)) && LastRealname(Queue(f), "") == f.fullName
    ensures forall c :: c in Queue(f) && GivesNick(c, w) ==> c.Parameters()[0] == f.nick
    ensures forall c :: c in Queue(f) && GivesNames(c) ==> c.Parameters()[0] == f.user && c.Trailer() == f.fullName
  {
    hide Command.Prefix, Command.Parameters, Command.Trailer, Upper, PassLine, NickLine, UserLine;
    var q := Queue(f);
    QueueRead(f);
    assert Opens(q[0]) && q[0] in q && q[1] in q && q[2] in q && q[3] in q;
    assert RightPass(q[1], w) <==> f.pass == w.password;
    assert GivesNick(q[2], w) <==> w.succeeds(2);
    assert GivesNames(q[3]) && q[3].Trailer() == f.fullName;
  }

  lemma QueueRead(f: Form)
    requires WellFormed(f)
    ensures var q := Queue(f);
            && q[0].Prefix() == "CAP" && q[0].Parameters() == ["LS"]
            && q[1].Prefix() == "PASS" && q[1].Parameters() == [f.pass]
            && q[2].Prefix() == "NICK" && q[2].Parameters() == [f.nick]
            && q[3].Prefix() == "USER" && q[3].Parameters() == [f.user, f.host, f.server, ""] && q[3].Trailer() == f.fullName
  {
    hide Command.Prefix, Command.Parameters, Command.Trailer, Upper;
    UpperNames();
    CapRead(0);
    TwoWords(1, "PASS", f.pass);
    TwoWords(2, "NICK", f.nick);
    assert "PASS" + " " + f.pass == PassLine(f) && "NICK" + " " + f.nick == NickLine(f);
    UserRead(3, f);
  }

  lemma RanIsQueued(queue: seq<Command>, a: Account, w: World, r: Ran)
    requires r in Settle(queue, a, w).ran
    ensures r.command in queue
  {
    hide Settle;
    var o := Settle(queue, a, w);
    Conserves(queue, a, w);
    var i :| 0 <= i < |o.ran| && o.ran[i] == r;
    assert Commands(o.ran)[i] == r.command;
    assert r.command in multiset(queue);
  }

  lemma {:induction false} LastNick(ran: seq<Ran>, w: World, n: nat) returns (k: int)
    requires n <= |ran|
    ensures -1 <= k < n && (k >= 0 ==> NickRan(ran, k, w))
    ensures forall j :: k < j < n ==> !NickRan(ran, j, w)
  {
    if n == 0 {
      k := -1;
    } else if NickRan(ran, n - 1, w) {
      k := n - 1;
    } else {
      k := LastNick(ran, w, n - 1);
    }
  }

  lemma {:induction false} LastUser(ran: seq<Ran>, w: World, n: nat) returns (k: int)
    requires n <= |ran|
    ensures -1 <= k < n && (k >= 0 ==> UserRan(ran, k, w))
    ensures forall j :: k < j < n ==> !UserRan(ran, j, w)
  {
    if n == 0 {
      k := -1;
    } else if UserRan(ran, n - 1, w) {
      k := n - 1;
    } else {
      k := LastUser(ran, w, n - 1);
    }
  }

  /** Names that are there after the dispatch can only be those of the form. */
  lemma NamesAsTyped(f: Form, w: World)
    requires WellFormed(f)
    ensures var a := Settle(Queue(f), Account(CAPLS, "", "", ""), w).account;
            && (a.nickname != "" ==> a.nickname == f.nick)
            && (a.realname != "" ==> a.realname == f.fullName && a.username == f.user)
  {
    hide Settle, Queue, GivesNick, GivesNames, StatusAt;
    var o := Settle(Queue(f), Account(CAPLS, "", "", ""), w);
    QueueSays(f, w);
    SettleNames(Queue(f), Account(CAPLS, "", "", ""), w);
    var k := LastNick(o.ran, w, |o.ran|);
    if k >= 0 {
      RanIsQueued(Queue(f), Account(CAPLS, "", "", ""), w, o.ran[k]);
    }
    var j := LastUser(o.ran, w, |o.ran|);
    if j >= 0 {
      RanIsQueued(Queue(f), Account(CAPLS, "", "", ""), w, o.ran[j]);
    }
  }

  /** A client that sends its form to a server with a password, in one portion, is online under the names it typed
      exactly if the password is the right one and its nickname is accepted; with a wrong password it is left in
      PASSWORD. */
  lemma OnlineAsTyped(f: Form, w: World)
    requires WellFormed(f) && w.password != ""
    ensures var u := Life([Bytes(Text(f))], w);
            if f.pass != w.password then u.account.status == PASSWORD
            else if !w.succeeds(2) then u.account.status == REGISTER
            else u.account == Account(ONLINE, f.nick, f.user, f.fullName) && u.queue == []
  {
    hide Settle, Added, TakeApart, Queue, Text, Includes, LastRealname, Guarded;
    var inputs := [Bytes(Text(f))];
    assert inputs[..0] == [] && Life([], w) == Accepted(w);
    QueueArrives(f, w);
    assert [] + Queue(f) == Queue(f);
    var a := Account(CAPLS, "", "", "");
    QueueSays(f, w);
    RegistrationExact(Queue(f), a, w);
    NamesAsTyped(f, w);
    OnlineNamed(Queue(f), a, w);
  }

  lemma OnlineNamed(queue: seq<Command>, a: Account, w: World)
    requires a.status == CAPLS
    ensures var b := Settle(queue, a, w).account; b.status == ONLINE ==> b.nickname != "" && b.realname != ""
  {
    hide Settle;
    SettleGuarded([], queue, a, w);
  }
}
