/** `irc::User`: the receiving and dispatching half of a connected user, with its fields updated in place. */
module User {
  import opened CString
  import opened CrLf
  import opened Lists
  import opened IrcCommand
  import opened Dispatch
  import opened UserSession

  function FindCommand(queue: seq<Command>, c: Command): (k: nat)
    ensures k <= |queue|
    ensures k < |queue| ==> queue[k] == c
    ensures k == |queue| ==> c !in queue
  {
    if queue == [] || queue[0] == c then 0 else 1 + FindCommand(queue[1..], c)
  }

  /** A queue without some of its commands. */
  function Minus(queue: seq<Command>, gone: set<Command>): seq<Command> {
    if queue == [] then []
    else
      var front, c := queue[..|queue| - 1], queue[|queue| - 1];
      Minus(front, gone) + if c in gone then [] else [c]
  }

  lemma {:induction false} MinusIn(queue: seq<Command>, gone: set<Command>, c: Command)
    ensures c in Minus(queue, gone) <==> c in queue && c !in gone
  {
    if queue != [] {
      var front := queue[..|queue| - 1];
      assert queue == front + [queue[|queue| - 1]];
      MinusIn(front, gone, c);
    }
  }

  lemma {:induction false} MinusAbsent(queue: seq<Command>, gone: set<Command>, c: Command)
    requires c !in queue
    ensures Minus(queue, gone + {c}) == Minus(queue, gone)
  {
    if queue != [] {
      var front := queue[..|queue| - 1];
      assert queue == front + [queue[|queue| - 1]];
      MinusAbsent(front, gone, c);
    }
  }

  /** Erasing a command at the place where it is found removes it, and only it. */
  lemma {:induction false} EraseOne(queue: seq<Command>, gone: set<Command>, c: Command, k: nat)
    requires Increasing(queue) && k < |Minus(queue, gone)| && Minus(queue, gone)[k] == c
    ensures Minus(queue, gone)[..k] + Minus(queue, gone)[k + 1..] == Minus(queue, gone + {c})
    decreases |queue|
  {
    var front, last := queue[..|queue| - 1], queue[|queue| - 1];
    assert queue == front + [last];
    var m := Minus(front, gone);
    if c == last {
      assert c !in front;
      MinusIn(front, gone, c);
      assert k == |m|;
      MinusAbsent(front, gone, c);
    } else {
      assert k < |m|;
      EraseOne(front, gone, c, k);
    }
  }

  lemma {:induction false} MinusIsSelect(queue: seq<Command>, gone: set<Command>, entered: UserStatus)
    requires forall c :: c in queue ==> (c in gone <==> Allowed(entered, c))
    ensures Minus(queue, gone) == Select(queue, entered, false)
  {
    if queue != [] {
      var front := queue[..|queue| - 1];
      assert queue == front + [queue[|queue| - 1]];
      MinusIsSelect(front, gone, entered);
    }
  }

  lemma {:induction false} MinusNothing(queue: seq<Command>)
    ensures Minus(queue, {}) == queue
  {
    if queue != [] {
      MinusNothing(queue[..|queue| - 1]);
    }
  }

  class User {
    var buffer: string
    var commands: seq<Command>
    var status: UserStatus
    var nickname: string
    var username: string
    var realname: string
    var mode: string
    /** How many commands have been allocated. */
    var allocatedCommands: nat
    ghost var history: seq<Ran>
    ghost var arrived: seq<Command>

    ghost predicate Valid()
      reads this
    {
      && Increasing(commands)
      && allocatedCommands == |arrived|
      && forall c :: c in commands ==> c.serial < allocatedCommands
    }

    ghost function Acc(): Account
      reads this
    {
      Account(status, nickname, username, realname)
    }

    ghost function State(): Session
      reads this
    {
      Session(buffer, commands, Acc(), history, arrived)
    }

    constructor (w: World)
      ensures Valid() && State() == Accepted(w) && mode == "w"
    {
      buffer, commands, allocatedCommands := "", [], 0;
      nickname, username, realname := "", "", "";
      status := CAPLS;
      mode := "w";
      history, arrived := [], [];
      if |w.password| == 0 {
        status := REGISTER;
      }
    }

    /** The command functions that touch registration: CAP, PASS, NICK, USER, QUIT and KILL. */
    method Call(c: Command, w: World)
      modifies this`status, this`nickname, this`username, this`realname
      ensures Acc() == Execute(c, old(Acc()), w)
    {
      var parameters := c.Parameters();
      match c.Prefix() {
        case "CAP" =>
          if |parameters| > 0 && parameters[0] == "LS" {
            status := PASSWORD;
          }
        case "PASS" =>
          if |parameters| == 0 {
            return;
          }
          if status != PASSWORD {
            return;
          }
          if w.password == parameters[0] {
            status := REGISTER;
          }
        case "NICK" =>
          if |parameters| == 0 || parameters[0] == "" || !w.succeeds(c.serial) {
            return;
          }
          nickname := parameters[0];
        case "USER" =>
          if |parameters| < 3 {
            return;
          }
          if status != REGISTER {
            return;
          }
          username := parameters[0];
          realname := c.Trailer();
        case "QUIT" =>
          status := DELETE;
        case "KILL" =>
          if w.succeeds(c.serial) {
            status := DELETE;
          }
        case _ =>
      }
    }

    /** The first loop of a pass: run what the status at entry allows, remembering what ran. */
    method RunAllowed(entered: UserStatus, w: World) returns (remove: seq<Command>)
      requires entered == status
      modifies this`status, this`nickname, this`username, this`realname, this`history
      ensures remove == Select(commands, entered, true)
      ensures Acc() == ExecuteAll(remove, old(Acc()), w)
      ensures history == old(history) + Recorded(remove, entered)
    {
      RunNothing(history, entered);
      hide Execute, Allowed, ExecuteAll, Recorded, Select;
      remove := [];
      assert commands[..0] == [];
      NoneYet(entered, Acc(), w);
      for i := 0 to |commands|
        invariant remove == Select(commands[..i], entered, true)
        invariant Acc() == ExecuteAll(remove, old(Acc()), w)
        invariant history == old(history) + Recorded(remove, entered)
      {
        var c := commands[i];
        OneMore(commands, i, entered, remove, old(Acc()), w);
        if Allowed(entered, c) {
          Call(c, w);
          history := history + [Ran(c, entered)];
          remove := remove + [c];
        }
      }
      assert commands[..|commands|] == commands;
    }

    /** The second loop of a pass: erase from the queue each command that ran. */
    method EraseAll(remove: seq<Command>)
      requires Valid()
      modifies this`commands
      ensures commands == Minus(old(commands), (set c | c in remove))
    {
      hide Minus;
      ghost var gone := {};
      MinusNothing(commands);
      for j := 0 to |remove|
        invariant gone == set c | c in remove[..j]
        invariant commands == Minus(old(commands), gone)
      {
        var k := FindCommand(commands, remove[j]);
        assert remove[..j + 1] == remove[..j] + [remove[j]];
        if k < |commands| {
          EraseOne(old(commands), gone, remove[j], k);
          commands := commands[..k] + commands[k + 1..];
        } else {
          MinusMissing(old(commands), gone, remove[j]);
        }
        gone := gone + {remove[j]};
      }
      assert remove[..|remove|] == remove;
    }

    method Dispatch(w: World)
      requires Valid()
      modifies this`commands, this`status, this`nickname, this`username, this`realname, this`history
      ensures Valid()
      ensures var o := Settle(old(commands), old(Acc()), w);
              commands == o.queue && Acc() == o.account && history == old(history) + o.ran
      decreases |commands|, if status == REGISTER then 1 else 0
    {
      hide Pass;
      var lastStatus := status;
      if lastStatus == DELETE {
        assert history + [] == history;
        return;
      }
      ghost var pass := Pass(commands, Acc(), w);
      OnePass(w);
      if lastStatus != status {
        PassShrinks(old(commands), old(Acc()), w);
        Dispatch(w);
        Regroup(old(history), pass.ran, Settle(pass.queue, pass.account, w).ran);
      }
    }

    /** What dispatch does between entering and looking at the status again. */
    method OnePass(w: World)
      requires Valid() && status != DELETE
      modifies this`commands, this`status, this`nickname, this`username, this`realname, this`history
      ensures Valid()
      ensures var pass := Pass(old(commands), old(Acc()), w);
              commands == pass.queue && Acc() == pass.account && history == old(history) + pass.ran
    {
      hide Select, ExecuteAll, Recorded, Allowed, Minus, Execute;
      var lastStatus := status;
      var remove := RunAllowed(lastStatus, w);
      EraseAll(remove);
      forall c | c in old(commands) ensures c in remove <==> Allowed(lastStatus, c) {
        SelectIn(old(commands), lastStatus, true, c);
      }
      MinusIsSelect(old(commands), (set c | c in remove), lastStatus);
      SelectIncreasing(old(commands), lastStatus, false);
      forall c | c in commands ensures c in old(commands) {
        SelectIn(old(commands), lastStatus, false, c);
      }
      if lastStatus == REGISTER {
        if |nickname| > 0 && |realname| > 0 {
          status := ONLINE;
        }
      }
    }

    /** KILL by an operator, or a missed ping. */
    method Expel()
      requires Valid()
      modifies this`status
      ensures Valid()
      ensures forall w :: State() == Handle(old(State()), Expelled, w)
    {
      status := DELETE;
    }

    /** One `recv` and what follows it. */
    method Receive(input: Input, w: World)
      requires Valid() && !input.Expelled?
      modifies this
      ensures Valid()
      ensures State() == Handle(old(State()), input, w)
    {
      hide Settle, TakeApart, NonEmpty;
      match input {
        case Failed =>
        case Closed =>
          status := DELETE;
        case Bytes(chunk) =>
          buffer := buffer + CStr(chunk);
          QueueMessages();
          Dispatch(w);
      }
    }

    /** The loop of `receive` over the buffer. */
    method QueueMessages()
      requires Valid()
      modifies this`buffer, this`commands, this`allocatedCommands, this`arrived
      ensures Valid()
      ensures var t := TakeApart(old(buffer));
              var added := Numbered(|old(arrived)|, NonEmpty(t.parts));
              buffer == t.rest && arrived == old(arrived) + added && commands == old(commands) + added
    {
      hide Settle, TakeApart, NonEmpty, FindFrom, Progress;
      ghost var whole := buffer;
      ghost var found := [];
      ProgressStart(whole);
      var position := Find(buffer);
      while position != -1
        invariant position == Find(buffer)
        invariant Progress(whole, found, buffer)
        invariant arrived == old(arrived) + Numbered(|old(arrived)|, found)
        invariant commands == old(commands) + Numbered(|old(arrived)|, found)
        invariant allocatedCommands == |arrived|
        decreases |buffer|
      {
        ProgressStep(whole, found, buffer);
        var message := buffer[..position];
        buffer := buffer[position + 2..];
        position := Find(buffer);
        if |message| == 0 {
          continue;
        }
        var command := Command(allocatedCommands, message);
        allocatedCommands := allocatedCommands + 1;
        commands := commands + [command];
        arrived := arrived + [command];
        found := found + [message];
      }
      ProgressEnd(whole, found, buffer);
    }
  }

  lemma RunNothing(history: seq<Ran>, entered: UserStatus)
    ensures history == history + Recorded([], entered)
  {
  }

  lemma NoneYet(entered: UserStatus, a: Account, w: World)
    ensures Select([], entered, true) == [] && ExecuteAll([], a, w) == a
  {
  }

  /** What one more command adds to a pass. */
  lemma OneMore(queue: seq<Command>, i: nat, entered: UserStatus, ran: seq<Command>, a: Account, w: World)
    requires i < |queue|
    ensures var c := queue[i];
            && Select(queue[..i + 1], entered, true) == (Select(queue[..i], entered, true) + if Allowed(entered, c) then [c] else [])
            && ExecuteAll(ran + [c], a, w) == Execute(c, ExecuteAll(ran, a, w), w)
            && Recorded(ran + [c], entered) == Recorded(ran, entered) + [Ran(c, entered)]
  {
    hide Execute, Allowed;
    assert queue[..i + 1][..i] == queue[..i];
    assert (ran + [queue[i]])[..|ran|] == ran;
  }

  lemma MinusMissing(queue: seq<Command>, gone: set<Command>, c: Command)
    requires c !in Minus(queue, gone)
    ensures Minus(queue, gone + {c}) == Minus(queue, gone)
  {
    MinusIn(queue, gone, c);
    if c in gone {
      assert gone + {c} == gone;
    } else {
      MinusAbsent(queue, gone, c);
    }
  }
}
