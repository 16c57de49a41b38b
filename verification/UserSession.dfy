/** Everything one connection of the `alexandre` server does to its user, from the bytes of each `recv` on. */
module UserSession {
  import opened CString
  import opened CrLf
  import opened Lists
  import opened IrcCommand
  import opened Dispatch

  /** What the event loop brings: the outcome of a `recv`, or a KILL or ping timeout from elsewhere. */
  datatype Input = Failed | Closed | Bytes(chunk: string) | Expelled

  /** The state of a user, with the commands that ran and all commands ever queued, in order. */
  datatype Session = Session(buffer: string, queue: seq<Command>, account: Account, history: seq<Ran>, arrived: seq<Command>)

  /** Without a configured password a user starts one step further. */
  function FirstStatus(w: World): UserStatus {
    if w.password == "" then REGISTER else CAPLS
  }

  function Accepted(w: World): Session {
    Session("", [], Account(FirstStatus(w), "", "", ""), [], [])
  }

  function Numbered(from: nat, messages: seq<string>): seq<Command> {
    seq(|messages|, i requires 0 <= i < |messages| => Command(from + i, messages[i]))
  }

  /** The commands that a portion of bytes completes. */
  function Added(u: Session, chunk: string): seq<Command> {
    Numbered(|u.arrived|, NonEmpty(TakeApart(u.buffer + CStr(chunk)).parts))
  }

  function Handle(u: Session, input: Input, w: World): Session {
    match input
    case Failed => u
    case Closed => u.(account := u.account.(status := DELETE))
    case Expelled => u.(account := u.account.(status := DELETE))
    case Bytes(chunk) =>
      var added := Added(u, chunk);
      var o := Settle(u.queue + added, u.account, w);
      Session(TakeApart(u.buffer + CStr(chunk)).rest, o.queue, o.account, u.history + o.ran, u.arrived + added)
  }

  /** The state after a run. */
  function Life(inputs: seq<Input>, w: World): Session {
    if inputs == [] then Accepted(w) else Handle(Life(inputs[..|inputs| - 1], w), inputs[|inputs| - 1], w)
  }

  // ----- re-assembly -----

  /** The bytes the server keeps of those it was sent: of each portion, what stands before a NUL. */
  function Kept(inputs: seq<Input>): string {
    if inputs == [] then ""
    else
      var front, last := Kept(inputs[..|inputs| - 1]), inputs[|inputs| - 1];
      if last.Bytes? then front + CStr(last.chunk) else front
  }

  function Sent(inputs: seq<Input>): string {
    if inputs == [] then ""
    else
      var front, last := Sent(inputs[..|inputs| - 1]), inputs[|inputs| - 1];
      if last.Bytes? then front + last.chunk else front
  }

  /** The commands queued over all reads are the non-empty pieces of the whole stream, in order, numbered as
      they came, and the left-over is the unfinished end of the stream: the portions do not matter. */
  lemma {:induction false} Reassembles(inputs: seq<Input>, w: World)
    ensures var u, t := Life(inputs, w), TakeApart(Kept(inputs));
            u.arrived == Numbered(0, NonEmpty(t.parts)) && u.buffer == t.rest
    ensures CrlfFree(Life(inputs, w).buffer)
    decreases |inputs|
  {
    hide Settle, FindFrom, NonEmpty;
    TakeApartReads(Kept(inputs));
    if inputs == [] {
      assert NonEmpty([]) == [] by { NonEmptyOfNone(); }
      assert TakeApart("") == Taken([], "");
    } else {
      var front, last := inputs[..|inputs| - 1], inputs[|inputs| - 1];
      Reassembles(front, w);
      if last.Bytes? {
        var u := Life(front, w);
        ReadOn(Kept(front), CStr(last.chunk));
        var first, second := TakeApart(Kept(front)), TakeApart(u.buffer + CStr(last.chunk));
        NonEmptyAppend(first.parts, second.parts);
        NumberedAppend(NonEmpty(first.parts), NonEmpty(second.parts));
      }
    }
  }

  lemma NonEmptyOfNone()
    ensures NonEmpty([]) == []
  {
  }

  lemma NumberedAppend(a: seq<string>, b: seq<string>)
    ensures Numbered(0, a + b) == Numbered(0, a) + Numbered(|a|, b)
  {
  }

  /** The same, message by message. */
  lemma ArrivedAre(inputs: seq<Input>, w: World)
    ensures var arrived, messages := Life(inputs, w).arrived, NonEmpty(TakeApart(Kept(inputs)).parts);
            |arrived| == |messages| &&
            forall k :: 0 <= k < |arrived| ==> arrived[k].query == messages[k] && arrived[k].serial == k
  {
    hide Life, TakeApart, NonEmpty;
    Reassembles(inputs, w);
  }

  /** Two runs that bring the same bytes, however cut, queue the same commands and hold back the same rest. */
  lemma PortionsIrrelevant(inputs: seq<Input>, others: seq<Input>, w: World, v: World)
    requires Kept(inputs) == Kept(others)
    ensures Life(inputs, w).arrived == Life(others, v).arrived && Life(inputs, w).buffer == Life(others, v).buffer
  {
    Reassembles(inputs, w);
    Reassembles(others, v);
  }

  /** The bytes kept are the bytes sent exactly when no portion has a NUL in it. */
  lemma {:induction false} KeptIsSent(inputs: seq<Input>)
    ensures Kept(inputs) == Sent(inputs) <==> forall i :: 0 <= i < |inputs| && inputs[i].Bytes? ==> NUL !in inputs[i].chunk
    ensures |Kept(inputs)| <= |Sent(inputs)|
    ensures |Kept(inputs)| == |Sent(inputs)| ==> Kept(inputs) == Sent(inputs)
    decreases |inputs|
  {
    if inputs != [] {
      var front, last := inputs[..|inputs| - 1], inputs[|inputs| - 1];
      KeptIsSent(front);
      if last.Bytes? {
        CutAtNul(last.chunk);
        ShorterParts(Kept(front), Sent(front), CStr(last.chunk), last.chunk);
      }
    }
  }

  lemma CutAtNul(s: string)
    ensures CStr(s) == s <==> NUL !in s
  {
    if CStr(s) != s {
      assert s[|CStr(s)|] in s;
    }
  }

  lemma ShorterParts(a: string, b: string, c: string, d: string)
    requires |a| <= |b| && |c| <= |d| && (|a| == |b| ==> a == b) && (|c| == |d| ==> c == d)
    ensures a + c == b + d <==> a == b && c == d
    ensures |a + c| == |b + d| ==> a + c == b + d
  {
  }

  // ----- conservation, order and authentication over whole runs -----

  /** Every command that ever arrived has run or is queued, and none twice. */
  lemma {:induction false} LifeConserves(inputs: seq<Input>, w: World)
    ensures var u := Life(inputs, w);
            multiset(Commands(u.history)) + multiset(u.queue) == multiset(u.arrived)
    decreases |inputs|
  {
    hide Settle, TakeApart, NonEmpty, Added;
    if inputs != [] {
      var front, last := inputs[..|inputs| - 1], inputs[|inputs| - 1];
      LifeConserves(front, w);
      if last.Bytes? {
        var u := Life(front, w);
        var added := Added(u, last.chunk);
        var o := Settle(u.queue + added, u.account, w);
        Conserves(u.queue + added, u.account, w);
        CommandsAppend(u.history, o.ran);
        Bags(Commands(u.history), u.queue, u.arrived, Commands(o.ran), o.queue, added);
      }
    }
  }

  lemma Bags(ran: seq<Command>, queue: seq<Command>, arrived: seq<Command>,
             more: seq<Command>, left: seq<Command>, added: seq<Command>)
    requires multiset(ran) + multiset(queue) == multiset(arrived)
    requires multiset(more) + multiset(left) == multiset(queue + added)
    ensures multiset(ran + more) + multiset(left) == multiset(arrived + added)
  {
    calc {
      multiset(ran + more) + multiset(left);
      multiset(ran) + (multiset(more) + multiset(left));
      multiset(ran) + (multiset(queue) + multiset(added));
      multiset(arrived) + multiset(added);
      multiset(arrived + added);
    }
  }

  /** Commands of one name run in the order in which they arrived, over the whole life of the connection. */
  lemma {:induction false} LifeInOrder(inputs: seq<Input>, w: World)
    ensures var u := Life(inputs, w);
            InOrder(u.history, u.queue)
    ensures Earlier(Life(inputs, w))
    decreases |inputs|
  {
    hide Settle, TakeApart, Added;
    if inputs != [] {
      var front, last := inputs[..|inputs| - 1], inputs[|inputs| - 1];
      LifeInOrder(front, w);
      if last.Bytes? {
        HandleInOrder(Life(front, w), last.chunk, w);
      }
    }
  }

  ghost predicate Earlier(u: Session) {
    && InOrder(u.history, u.queue)
    && (forall c :: c in u.queue ==> c.serial < |u.arrived|)
    && (forall r :: r in u.history ==> r.command.serial < |u.arrived|)
  }

  lemma HandleInOrder(u: Session, chunk: string, w: World)
    requires Earlier(u)
    ensures Earlier(Handle(u, Bytes(chunk), w))
  {
    hide Settle, TakeApart, Added, Command.Prefix;
    var added := Added(u, chunk);
    var queue := u.queue + added;
    var o := Settle(queue, u.account, w);
    AddedLater(u, chunk);
    SettleInOrder(u.history, queue, u.account, w);
    Conserves(queue, u.account, w);
    forall c | c in o.queue || c in Commands(o.ran) ensures c.serial < |u.arrived + added| {
      assert c in multiset(queue);
    }
    forall r | r in o.ran ensures r.command.serial < |u.arrived + added| {
      var i :| 0 <= i < |o.ran| && o.ran[i] == r;
      assert Commands(o.ran)[i] == r.command;
    }
  }

  lemma AddedLater(u: Session, chunk: string)
    requires Earlier(u)
    ensures forall c :: c in Added(u, chunk) ==> |u.arrived| <= c.serial < |u.arrived + Added(u, chunk)|
    ensures InOrder(u.history, u.queue + Added(u, chunk))
  {
    hide TakeApart, NonEmpty, Command.Prefix;
  }

  /** With a password configured, in every run: a user in REGISTER or ONLINE has given it, a user ONLINE has both
      names, and commands other than CAP, PASS, NICK and USER ran only in passes entered ONLINE, after a right
      PASS. */
  lemma {:induction false} LifeGuarded(inputs: seq<Input>, w: World)
    requires w.password != ""
    ensures Guarded(Life(inputs, w).account, Life(inputs, w).history, w)
    decreases |inputs|
  {
    hide Settle, TakeApart, NonEmpty, Basic, RightPass;
    if inputs != [] {
      var front, last := inputs[..|inputs| - 1], inputs[|inputs| - 1];
      LifeGuarded(front, w);
      if last.Bytes? {
        var u := Life(front, w);
        SettleGuarded(u.history, u.queue + Added(u, last.chunk), u.account, w);
      }
    }
  }

  /** Without a password the guard is not there: a new user is already in REGISTER. */
  lemma NoPasswordNoGuard(w: World)
    ensures Guarded(Accepted(w).account, Accepted(w).history, w) <==> w.password != ""
  {
  }

  /** After every read, nothing that may run is waiting. */
  lemma LifeSettled(inputs: seq<Input>, chunk: string, w: World)
    ensures var u := Life(inputs + [Bytes(chunk)], w);
            u.account.status != DELETE ==> forall c :: c in u.queue ==> !Allowed(u.account.status, c)
  {
    var u := Life(inputs, w);
    hide Settle, TakeApart, NonEmpty;
    assert (inputs + [Bytes(chunk)])[..|inputs|] == inputs;
    NothingLeft(u.queue + Added(u, chunk), u.account, w);
  }

  // ----- the end of a connection -----

  lemma {:induction false} DeletedStays(inputs: seq<Input>, more: seq<Input>, w: World)
    requires Life(inputs, w).account.status == DELETE
    ensures var u, v := Life(inputs, w), Life(inputs + more, w);
            v.account == u.account && v.history == u.history
    decreases |more|
  {
    if more == [] {
      assert inputs + more == inputs;
    } else {
      var front := more[..|more| - 1];
      DeletedStays(inputs, front, w);
      assert (inputs + more)[..|inputs + more| - 1] == inputs + front;
    }
  }

  /** Once a connection is closed or its user expelled, nothing runs any more, whatever bytes still arrive. */
  lemma GoneForGood(inputs: seq<Input>, end: Input, more: seq<Input>, w: World)
    requires end.Closed? || end.Expelled?
    ensures var u, v := Life(inputs, w), Life(inputs + [end] + more, w);
            v.account == u.account.(status := DELETE) && v.history == u.history
  {
    hide Settle, TakeApart;
    assert (inputs + [end])[..|inputs|] == inputs;
    DeletedStays(inputs + [end], more, w);
  }

  /** A failed read changes nothing. */
  lemma FailureIgnored(inputs: seq<Input>, w: World)
    ensures Life(inputs + [Failed], w) == Life(inputs, w)
  {
    assert (inputs + [Failed])[..|inputs|] == inputs;
  }
}
