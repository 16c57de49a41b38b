/** Registration and deferred dispatch (`irc::User::dispatch`): what each pass over the queue does. */
module Dispatch {
  import opened IrcCommand

  datatype UserStatus = CAPLS | PASSWORD | REGISTER | ONLINE | DELETE

  /** The part of a user that registration depends on. */
  datatype Account = Account(status: UserStatus, nickname: string, username: string, realname: string)

  /** A command that ran, with the status its pass was entered with. */
  datatype Ran = Ran(command: Command, entered: UserStatus)

  /** What the surroundings decide: the configured password, and for each command whether the checks that look
      at other users succeed (NICK: the nickname is well-formed, free and not restricted;
      KILL: an operator names this user). */
  datatype World = World(password: string, succeeds: nat -> bool)

  /** Which commands a pass entered with this status runs. */
  predicate Allowed(entered: UserStatus, c: Command) {
    match entered
    case CAPLS => c.Prefix() == "CAP"
    case PASSWORD => c.Prefix() == "PASS"
    case REGISTER => c.Prefix() == "NICK" || c.Prefix() == "USER"
    case _ => true
  }

  predicate RightPass(c: Command, w: World) {
    c.Prefix() == "PASS" && c.Parameters() != [] && c.Parameters()[0] == w.password
  }

  /** The effect of one command on the account. Commands not named here leave it alone. */
  function Execute(c: Command, a: Account, w: World): Account {
    var name, parameters := c.Prefix(), c.Parameters();
    if name == "CAP" then
      if parameters != [] && parameters[0] == "LS" then a.(status := PASSWORD) else a
    else if name == "PASS" then
      if a.status == PASSWORD && RightPass(c, w) then a.(status := REGISTER) else a
    else if name == "NICK" then
      if parameters != [] && parameters[0] != "" && w.succeeds(c.serial) then a.(nickname := parameters[0]) else a
    else if name == "USER" then
      if |parameters| >= 3 && a.status == REGISTER then a.(username := parameters[0], realname := c.Trailer()) else a
    else if name == "QUIT" || (name == "KILL" && w.succeeds(c.serial)) then a.(status := DELETE)
    else a
  }

  function ExecuteAll(cmds: seq<Command>, a: Account, w: World): Account {
    if cmds == [] then a else Execute(cmds[|cmds| - 1], ExecuteAll(cmds[..|cmds| - 1], a, w), w)
  }

  /** The commands of a queue that a pass runs, or those it leaves, in arrival order. */
  function Select(queue: seq<Command>, entered: UserStatus, allowed: bool): seq<Command> {
    if queue == [] then []
    else
      var front, c := queue[..|queue| - 1], queue[|queue| - 1];
      Select(front, entered, allowed) + if Allowed(entered, c) == allowed then [c] else []
  }

  function Recorded(cmds: seq<Command>, entered: UserStatus): seq<Ran> {
    seq(|cmds|, i requires 0 <= i < |cmds| => Ran(cmds[i], entered))
  }

  /** A nickname and a real name complete the registration. */
  function Promoted(entered: UserStatus, a: Account): Account {
    if entered == REGISTER && a.nickname != "" && a.realname != "" then a.(status := ONLINE) else a
  }

  datatype Outcome = Outcome(queue: seq<Command>, account: Account, ran: seq<Ran>)

  /** One pass. */
  function Pass(queue: seq<Command>, a: Account, w: World): Outcome {
    var runs := Select(queue, a.status, true);
    Outcome(Select(queue, a.status, false), Promoted(a.status, ExecuteAll(runs, a, w)), Recorded(runs, a.status))
  }

  /** Passes until the status settles. Each further pass has fewer commands to look at, or as many
      but is no longer entered with REGISTER. */
  function Settle(queue: seq<Command>, a: Account, w: World): Outcome
    decreases |queue|, if a.status == REGISTER then 1 else 0
  {
    if a.status == DELETE then Outcome(queue, a, [])
    else
      var pass := Pass(queue, a, w);
      if pass.account.status == a.status then pass
      else
        PassShrinks(queue, a, w);
        var later := Settle(pass.queue, pass.account, w);
        later.(ran := pass.ran + later.ran)
  }

  lemma {:induction false} SelectLengths(queue: seq<Command>, entered: UserStatus)
    ensures |Select(queue, entered, true)| + |Select(queue, entered, false)| == |queue|
  {
    if queue != [] {
      SelectLengths(queue[..|queue| - 1], entered);
      SelectLast(queue, entered);
    }
  }

  lemma {:induction false} SelectCounts(queue: seq<Command>, entered: UserStatus)
    ensures |Select(queue, entered, true)| + |Select(queue, entered, false)| == |queue|
    ensures multiset(Select(queue, entered, true)) + multiset(Select(queue, entered, false)) == multiset(queue)
  {
    SelectLengths(queue, entered);
    var runs, left := Select(queue, entered, true), Select(queue, entered, false);
    forall c ensures (multiset(runs) + multiset(left))[c] == multiset(queue)[c] {
      SelectCount(queue, entered, c);
      CountIs(runs, c);
      CountIs(left, c);
      CountIs(queue, c);
    }
  }

  /** How often a command is in a list. */
  function Count(cmds: seq<Command>, c: Command): nat {
    if cmds == [] then 0 else Count(cmds[..|cmds| - 1], c) + if cmds[|cmds| - 1] == c then 1 else 0
  }

  lemma {:induction false} CountIs(cmds: seq<Command>, c: Command)
    ensures Count(cmds, c) == multiset(cmds)[c]
  {
    if cmds != [] {
      CountIs(cmds[..|cmds| - 1], c);
      assert cmds == cmds[..|cmds| - 1] + [cmds[|cmds| - 1]];
    }
  }

  lemma {:induction false} SelectCount(queue: seq<Command>, entered: UserStatus, c: Command)
    ensures Count(Select(queue, entered, true), c) + Count(Select(queue, entered, false), c) == Count(queue, c)
  {
    hide Allowed;
    if queue != [] {
      var front, last := queue[..|queue| - 1], queue[|queue| - 1];
      SelectCount(front, entered, c);
      SelectLast(queue, entered);
      hide Select;
      assert (Select(front, entered, true) + [last])[..|Select(front, entered, true)|] == Select(front, entered, true);
      assert (Select(front, entered, false) + [last])[..|Select(front, entered, false)|] == Select(front, entered, false);
    }
  }

  lemma SelectLast(queue: seq<Command>, entered: UserStatus)
    requires queue != []
    ensures var front, c := queue[..|queue| - 1], queue[|queue| - 1];
            && Select(queue, entered, true) == (if Allowed(entered, c) then Select(front, entered, true) + [c] else Select(front, entered, true))
            && Select(queue, entered, false) == if Allowed(entered, c) then Select(front, entered, false) else Select(front, entered, false) + [c]
  {
    hide Allowed;
  }

  lemma {:induction false} SelectIn(queue: seq<Command>, entered: UserStatus, allowed: bool, c: Command)
    ensures c in Select(queue, entered, allowed) <==> c in queue && Allowed(entered, c) == allowed
  {
    if queue != [] {
      SelectIn(queue[..|queue| - 1], entered, allowed, c);
      assert queue == queue[..|queue| - 1] + [queue[|queue| - 1]];
    }
  }

  lemma PassShrinks(queue: seq<Command>, a: Account, w: World)
    requires Pass(queue, a, w).account.status != a.status
    ensures |Pass(queue, a, w).queue| < |queue| ||
            (|Pass(queue, a, w).queue| == |queue| && a.status == REGISTER && Pass(queue, a, w).account.status == ONLINE)
  {
    SelectCounts(queue, a.status);
  }

  // ----- conservation -----

  function Commands(ran: seq<Ran>): seq<Command> {
    seq(|ran|, i requires 0 <= i < |ran| => ran[i].command)
  }

  lemma CommandsAppend(a: seq<Ran>, b: seq<Ran>)
    ensures Commands(a + b) == Commands(a) + Commands(b)
  {
  }

  /** Dispatch loses and repeats nothing: what ran and what is still queued is what was queued. */
  lemma {:induction false} Conserves(queue: seq<Command>, a: Account, w: World)
    ensures var o := Settle(queue, a, w);
            multiset(Commands(o.ran)) + multiset(o.queue) == multiset(queue)
    decreases |queue|, if a.status == REGISTER then 1 else 0
  {
    hide Select, ExecuteAll;
    if a.status != DELETE {
      var pass := Pass(queue, a, w);
      SelectCounts(queue, a.status);
      assert Commands(pass.ran) == Select(queue, a.status, true);
      if pass.account.status != a.status {
        PassShrinks(queue, a, w);
        Conserves(pass.queue, pass.account, w);
        var later := Settle(pass.queue, pass.account, w);
        CommandsAppend(pass.ran, later.ran);
        BagsJoin(Commands(pass.ran), pass.queue, queue, Commands(later.ran), later.queue);
      }
    }
  }

  lemma BagsJoin(ran: seq<Command>, left: seq<Command>, queue: seq<Command>, more: seq<Command>, end: seq<Command>)
    requires multiset(ran) + multiset(left) == multiset(queue)
    requires multiset(more) + multiset(end) == multiset(left)
    ensures multiset(ran + more) + multiset(end) == multiset(queue)
  {
    calc {
      multiset(ran + more) + multiset(end);
      multiset(ran) + (multiset(more) + multiset(end));
      multiset(queue);
    }
  }

  // ----- nothing that may run is left -----

  /** When dispatch returns, no queued command is one that the status now allows, and a user
      with both names is not left in registration. */
  lemma {:induction false} NothingLeft(queue: seq<Command>, a: Account, w: World)
    ensures var o := Settle(queue, a, w);
            o.account.status != DELETE ==>
              && (forall c :: c in o.queue ==> !Allowed(o.account.status, c))
              && Promoted(o.account.status, o.account) == o.account
    decreases |queue|, if a.status == REGISTER then 1 else 0
  {
    if a.status != DELETE {
      var pass := Pass(queue, a, w);
      if pass.account.status != a.status {
        PassShrinks(queue, a, w);
        NothingLeft(pass.queue, pass.account, w);
      } else {
        forall c | c in pass.queue ensures !Allowed(a.status, c) {
          SelectIn(queue, a.status, false, c);
        }
      }
    }
  }

  lemma {:induction false} SelectNone(queue: seq<Command>, entered: UserStatus)
    requires forall c :: c in queue ==> !Allowed(entered, c)
    ensures Select(queue, entered, true) == [] && Select(queue, entered, false) == queue
  {
    if queue != [] {
      var front := queue[..|queue| - 1];
      assert queue == front + [queue[|queue| - 1]];
      SelectNone(front, entered);
    }
  }

  /** So a second dispatch does nothing: commands run as soon as they may, not one dispatch later. */
  lemma SettleOnce(queue: seq<Command>, a: Account, w: World)
    ensures var o := Settle(queue, a, w);
            Settle(o.queue, o.account, w) == Outcome(o.queue, o.account, [])
  {
    var o := Settle(queue, a, w);
    NothingLeft(queue, a, w);
    if o.account.status != DELETE {
      SelectNone(o.queue, o.account.status);
      assert Recorded([], o.account.status) == [];
    }
  }

  // ----- order -----

  ghost predicate Increasing(queue: seq<Command>) {
    forall i, j :: 0 <= i < j < |queue| ==> queue[i].serial < queue[j].serial
  }

  /** Commands of one name ran in arrival order, and before every one of that name still queued. */
  ghost predicate InOrder(ran: seq<Ran>, queue: seq<Command>) {
    && Increasing(queue)
    && (forall i, j :: 0 <= i < j < |ran| && ran[i].command.Prefix() == ran[j].command.Prefix() ==>
          ran[i].command.serial < ran[j].command.serial)
    && (forall r, c :: r in ran && c in queue && r.command.Prefix() == c.Prefix() ==> r.command.serial < c.serial)
  }

  lemma {:induction false} SelectIncreasing(queue: seq<Command>, entered: UserStatus, allowed: bool)
    requires Increasing(queue)
    ensures Increasing(Select(queue, entered, allowed))
  {
    if queue != [] {
      var front, c := queue[..|queue| - 1], queue[|queue| - 1];
      SelectIncreasing(front, entered, allowed);
      forall d | d in Select(front, entered, allowed) ensures d.serial < c.serial {
        SelectIn(front, entered, allowed, d);
      }
    }
  }

  lemma PassInOrder(history: seq<Ran>, queue: seq<Command>, entered: UserStatus)
    requires InOrder(history, queue)
    ensures InOrder(history + Recorded(Select(queue, entered, true), entered), Select(queue, entered, false))
  {
    hide Command.Prefix, Select, Recorded, Allowed;
    var runs, left := Select(queue, entered, true), Select(queue, entered, false);
    SelectIncreasing(queue, entered, true);
    SelectIncreasing(queue, entered, false);
    forall c ensures (c in runs <==> c in queue && Allowed(entered, c)) && (c in left <==> c in queue && !Allowed(entered, c)) {
      SelectIn(queue, entered, true, c);
      SelectIn(queue, entered, false, c);
    }
    RanLater(history, queue, runs, entered);
    forall r, c | r in history + Recorded(runs, entered) && c in left && r.command.Prefix() == c.Prefix()
      ensures r.command.serial < c.serial
    {
      if r !in history {
        RecordedIn(runs, entered, r);
        NamesDecide(entered, r.command, c);
      }
    }
  }

  lemma RecordedIn(runs: seq<Command>, entered: UserStatus, r: Ran)
    ensures r in Recorded(runs, entered) ==> r.command in runs
  {
  }

  /** Commands of the queue that run in their order keep what ran before in order. */
  lemma RanLater(history: seq<Ran>, queue: seq<Command>, runs: seq<Command>, entered: UserStatus)
    requires InOrder(history, queue) && Increasing(runs) && forall c :: c in runs ==> c in queue
    ensures var ran := history + Recorded(runs, entered);
            forall i, j :: 0 <= i < j < |ran| && ran[i].command.Prefix() == ran[j].command.Prefix() ==>
              ran[i].command.serial < ran[j].command.serial
  {
    hide Command.Prefix;
    var ran := history + Recorded(runs, entered);
    forall i, j | 0 <= i < j < |ran| && ran[i].command.Prefix() == ran[j].command.Prefix()
      ensures ran[i].command.serial < ran[j].command.serial
    {
      if |history| <= j {
        assert ran[j].command == runs[j - |history|];
        assert runs[j - |history|] in runs;
        if i < |history| { assert history[i] in history; }
      }
    }
  }

  /** Whether a pass runs a command depends on its name alone. */
  lemma NamesDecide(entered: UserStatus, c: Command, d: Command)
    requires c.Prefix() == d.Prefix()
    ensures Allowed(entered, c) == Allowed(entered, d)
  {
  }

  /** No command overtakes another of the same name, in a dispatch with any history. */
  lemma {:induction false} SettleInOrder(history: seq<Ran>, queue: seq<Command>, a: Account, w: World)
    requires InOrder(history, queue)
    ensures var o := Settle(queue, a, w); InOrder(history + o.ran, o.queue)
    decreases |queue|, if a.status == REGISTER then 1 else 0
  {
    if a.status == DELETE {
      assert history + [] == history;
    } else {
      var pass := Pass(queue, a, w);
      PassInOrder(history, queue, a.status);
      if pass.account.status != a.status {
        PassShrinks(queue, a, w);
        SettleInOrder(history + pass.ran, pass.queue, pass.account, w);
        Regroup(history, pass.ran, Settle(pass.queue, pass.account, w).ran);
      }
    }
  }

  // ----- authentication -----

  predicate Basic(c: Command) {
    c.Prefix() == "CAP" || c.Prefix() == "PASS" || c.Prefix() == "NICK" || c.Prefix() == "USER"
  }

  ghost predicate Authenticated(ran: seq<Ran>, w: World) {
    exists r :: r in ran && RightPass(r.command, w)
  }

  /** Nobody gets past the password without giving it; nobody is online without names;
      and every command outside registration ran in a pass entered online, after a right PASS. */
  ghost predicate Guarded(a: Account, ran: seq<Ran>, w: World) {
    && (a.status == REGISTER || a.status == ONLINE ==> Authenticated(ran, w))
    && (a.status == ONLINE ==> a.nickname != "" && a.realname != "")
    && (forall i :: 0 <= i < |ran| && !Basic(ran[i].command) ==>
          ran[i].entered == ONLINE && Authenticated(ran[..i], w))
  }

  /** How a single command can move the status: into REGISTER only by the right PASS, never into ONLINE,
      and not at all by NICK and USER. */
  lemma ExecuteMoves(c: Command, a: Account, w: World)
    ensures var b := Execute(c, a, w);
            && (b.status == REGISTER && a.status != REGISTER ==> RightPass(c, w))
            && (b.status == ONLINE ==> a.status == ONLINE && b.realname == a.realname)
            && (a.nickname != "" ==> b.nickname != "")
            && (Allowed(REGISTER, c) ==> b.status == a.status)
  {
    hide Command.Prefix, Command.Parameters, Command.Trailer;
  }

  lemma NotBasicOnlyOnline(entered: UserStatus, c: Command)
    requires Allowed(entered, c) && entered != DELETE && !Basic(c)
    ensures entered == ONLINE
  {
    hide Command.Prefix;
  }

  /** The commands of one pass, in a pass entered with a status that was rightly reached. */
  lemma {:induction false} ExecuteAllGuarded(cmds: seq<Command>, a: Account, w: World, history: seq<Ran>)
    requires forall c :: c in cmds ==> Allowed(a.status, c)
    requires Guarded(a, history, w) && a.status != DELETE
    ensures Guarded(ExecuteAll(cmds, a, w), history + Recorded(cmds, a.status), w)
    ensures a.status == REGISTER ==> ExecuteAll(cmds, a, w).status == REGISTER
    decreases |cmds|
  {
    hide Allowed, Execute, RightPass, Basic;
    if cmds == [] {
      assert history + Recorded(cmds, a.status) == history;
    } else {
      var front, c := cmds[..|cmds| - 1], cmds[|cmds| - 1];
      assert c in cmds && forall d :: d in front ==> d in cmds;
      ExecuteAllGuarded(front, a, w, history);
      var before, r := history + Recorded(front, a.status), Ran(c, a.status);
      assert history + Recorded(cmds, a.status) == before + [r];
      if !Basic(c) {
        NotBasicOnlyOnline(a.status, c);
        StillAuthenticated(history, Recorded(front, a.status), w);
      }
      AfterOne(before, r, w);
      ExecuteMoves(c, ExecuteAll(front, a, w), w);
      if RightPass(c, w) {
        assert r in before + [r];
      }
    }
  }

  lemma StillAuthenticated(before: seq<Ran>, more: seq<Ran>, w: World)
    requires Authenticated(before, w)
    ensures Authenticated(before + more, w)
  {
    var r :| r in before && RightPass(r.command, w);
    assert r in before + more;
  }

  /** Recording one more command keeps what was known about the earlier ones. */
  lemma AfterOne(before: seq<Ran>, r: Ran, w: World)
    requires forall i :: 0 <= i < |before| && !Basic(before[i].command) ==>
               before[i].entered == ONLINE && Authenticated(before[..i], w)
    requires !Basic(r.command) ==> r.entered == ONLINE && Authenticated(before, w)
    ensures var ran := before + [r];
            && (forall i :: 0 <= i < |ran| && !Basic(ran[i].command) ==>
                 ran[i].entered == ONLINE && Authenticated(ran[..i], w))
            && (Authenticated(before, w) ==> Authenticated(ran, w))
  {
    var ran := before + [r];
    forall i | 0 <= i < |ran| && !Basic(ran[i].command)
      ensures ran[i].entered == ONLINE && Authenticated(ran[..i], w)
    {
      assert ran[..i] == before[..i];
      assert before[..|before|] == before;
    }
    if Authenticated(before, w) {
      StillAuthenticated(before, [r], w);
    }
  }

  /** A whole dispatch keeps the guard. */
  lemma {:induction false} SettleGuarded(history: seq<Ran>, queue: seq<Command>, a: Account, w: World)
    requires Guarded(a, history, w)
    ensures var o := Settle(queue, a, w); Guarded(o.account, history + o.ran, w)
    decreases |queue|, if a.status == REGISTER then 1 else 0
  {
    hide Allowed, Execute, ExecuteAll, Select, Recorded, Basic;
    var o := Settle(queue, a, w);
    if a.status == DELETE {
      assert history + [] == history;
    } else {
      var pass := Pass(queue, a, w);
      PassGuarded(history, queue, a, w);
      if pass.account.status != a.status {
        PassShrinks(queue, a, w);
        SettleGuarded(history + pass.ran, pass.queue, pass.account, w);
        Regroup(history, pass.ran, Settle(pass.queue, pass.account, w).ran);
      }
    }
  }

  lemma PassGuarded(history: seq<Ran>, queue: seq<Command>, a: Account, w: World)
    requires Guarded(a, history, w) && a.status != DELETE
    ensures var pass := Pass(queue, a, w); Guarded(pass.account, history + pass.ran, w)
  {
    hide Allowed, Execute, ExecuteAll, Select, Recorded, Basic, Authenticated;
    var runs := Select(queue, a.status, true);
    forall c | c in runs ensures Allowed(a.status, c) { SelectIn(queue, a.status, true, c); }
    ExecuteAllGuarded(runs, a, w, history);
  }

  lemma Regroup(a: seq<Ran>, b: seq<Ran>, c: seq<Ran>)
    ensures a + b + c == a + (b + c)
  {
  }
}
