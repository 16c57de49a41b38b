/** Where one dispatch ends: the status a new user reaches is decided by which commands are queued, in whatever order
    they arrived. */
module Registration {
  import opened CrLf
  import opened IrcCommand
  import opened Dispatch
  import opened UserSession

  /** `CAP LS` */
  predicate Opens(c: Command) {
    c.Prefix() == "CAP" && c.Parameters() != [] && c.Parameters()[0] == "LS"
  }

  /** A NICK that is accepted. */
  predicate GivesNick(c: Command, w: World) {
    c.Prefix() == "NICK" && c.Parameters() != [] && c.Parameters()[0] != "" && w.succeeds(c.serial)
  }

  /** A USER with enough parameters. */
  predicate GivesNames(c: Command) {
    c.Prefix() == "USER" && |c.Parameters()| >= 3
  }

  predicate Deletes(c: Command, w: World) {
    c.Prefix() == "QUIT" || (c.Prefix() == "KILL" && w.succeeds(c.serial))
  }

  /** The real name of the last USER with enough parameters, or the one there was. */
  function LastRealname(cmds: seq<Command>, before: string): string {
    if cmds == [] then before
    else if GivesNames(cmds[|cmds| - 1]) then cmds[|cmds| - 1].Trailer()
    else LastRealname(cmds[..|cmds| - 1], before)
  }

  ghost predicate Includes(cmds: seq<Command>, p: Command -> bool) {
    exists c :: c in cmds && p(c)
  }

  lemma IncludesSnoc(cmds: seq<Command>, p: Command -> bool)
    requires cmds != []
    ensures Includes(cmds, p) <==> Includes(cmds[..|cmds| - 1], p) || p(cmds[|cmds| - 1])
  {
    assert cmds == cmds[..|cmds| - 1] + [cmds[|cmds| - 1]];
  }

  /** A pass sees all commands with a property or none, if it is one of the property's name. */
  lemma IncludesSelected(queue: seq<Command>, entered: UserStatus, allowed: bool, p: Command -> bool)
    requires forall c :: p(c) ==> Allowed(entered, c) == allowed
    ensures Includes(Select(queue, entered, allowed), p) <==> Includes(queue, p)
  {
    forall c ensures c in Select(queue, entered, allowed) && p(c) <==> c in queue && p(c) {
      SelectIn(queue, entered, allowed, c);
    }
  }

  lemma {:induction false} RealnameSelected(queue: seq<Command>, entered: UserStatus, allowed: bool, before: string)
    requires forall c :: GivesNames(c) ==> Allowed(entered, c) == allowed
    ensures LastRealname(Select(queue, entered, allowed), before) == LastRealname(queue, before)
  {
    hide Allowed, GivesNames;
    if queue != [] {
      var front, c := queue[..|queue| - 1], queue[|queue| - 1];
      RealnameSelected(front, entered, allowed, before);
      if Allowed(entered, c) == allowed {
        assert Select(queue, entered, allowed)[..|Select(front, entered, allowed)|] == Select(front, entered, allowed);
      } else {
        assert Select(queue, entered, allowed) == Select(front, entered, allowed);
      }
    }
  }

  // ----- what the commands of each pass do together -----

  lemma {:induction false} CapsTogether(cmds: seq<Command>, a: Account, w: World)
    requires forall c :: c in cmds ==> Allowed(CAPLS, c)
    ensures ExecuteAll(cmds, a, w) == if Includes(cmds, Opens) then a.(status := PASSWORD) else a
  {
    hide Command.Prefix, Command.Parameters, Includes;
    if cmds == [] {
      assert !Includes(cmds, Opens) by { NoneInNone(Opens); }
    } else {
      assert forall c :: c in cmds[..|cmds| - 1] ==> c in cmds;
      CapsTogether(cmds[..|cmds| - 1], a, w);
      IncludesSnoc(cmds, Opens);
      assert cmds[|cmds| - 1] in cmds;
    }
  }

  lemma NoneInNone(p: Command -> bool)
    ensures !Includes([], p)
  {
  }

  lemma {:induction false} PassesTogether(cmds: seq<Command>, a: Account, w: World)
    requires a.status == PASSWORD && forall c :: c in cmds ==> Allowed(PASSWORD, c)
    ensures ExecuteAll(cmds, a, w) == if Includes(cmds, c => RightPass(c, w)) then a.(status := REGISTER) else a
  {
    hide Command.Prefix, Command.Parameters, Includes;
    if cmds == [] {
      NoneInNone(c => RightPass(c, w));
    } else {
      assert forall c :: c in cmds[..|cmds| - 1] ==> c in cmds;
      PassesTogether(cmds[..|cmds| - 1], a, w);
      IncludesSnoc(cmds, c => RightPass(c, w));
      assert cmds[|cmds| - 1] in cmds;
    }
  }

  lemma {:induction false} NamesTogether(cmds: seq<Command>, a: Account, w: World)
    requires a.status == REGISTER && forall c :: c in cmds ==> Allowed(REGISTER, c)
    ensures var b := ExecuteAll(cmds, a, w);
            && b.status == REGISTER
            && (b.nickname != "" <==> a.nickname != "" || Includes(cmds, c => GivesNick(c, w)))
            && b.realname == LastRealname(cmds, a.realname)
  {
    hide Command.Prefix, Command.Parameters, Command.Trailer, Includes;
    if cmds == [] {
      NoneInNone(c => GivesNick(c, w));
    } else {
      assert forall c :: c in cmds[..|cmds| - 1] ==> c in cmds;
      NamesTogether(cmds[..|cmds| - 1], a, w);
      IncludesSnoc(cmds, c => GivesNick(c, w));
      assert cmds[|cmds| - 1] in cmds;
    }
  }

  /** What a list of commands run in one go makes of the status: a `CAP LS` asks for the password again, even of
      an online user; a right PASS answers that; QUIT and KILL delete; nothing else moves it. */
  function StatusAfter(cmds: seq<Command>, s: UserStatus, w: World): UserStatus {
    if cmds == [] then s
    else
      var before, c := StatusAfter(cmds[..|cmds| - 1], s, w), cmds[|cmds| - 1];
      if Opens(c) then PASSWORD
      else if RightPass(c, w) then if before == PASSWORD then REGISTER else before
      else if Deletes(c, w) then DELETE
      else before
  }

  lemma {:induction false} StatusTogether(cmds: seq<Command>, a: Account, w: World)
    ensures ExecuteAll(cmds, a, w).status == StatusAfter(cmds, a.status, w)
  {
    hide Command.Prefix, Command.Parameters, Command.Trailer;
    if cmds != [] {
      StatusTogether(cmds[..|cmds| - 1], a, w);
    }
  }

  lemma {:induction false} StatusSelected(queue: seq<Command>, entered: UserStatus, s: UserStatus, w: World)
    requires forall c :: Allowed(entered, c) ==> !Opens(c) && !RightPass(c, w) && !Deletes(c, w)
    ensures StatusAfter(Select(queue, entered, false), s, w) == StatusAfter(queue, s, w)
  {
    hide Allowed, Opens, RightPass, Deletes;
    if queue != [] {
      var front, c := queue[..|queue| - 1], queue[|queue| - 1];
      StatusSelected(front, entered, s, w);
      if !Allowed(entered, c) {
        assert Select(queue, entered, false)[..|Select(front, entered, false)|] == Select(front, entered, false);
      } else {
        assert Select(queue, entered, false) == Select(front, entered, false);
      }
    }
  }

  lemma {:induction false} OnlyDeletes(cmds: seq<Command>, w: World)
    requires !Includes(cmds, Opens) && !Includes(cmds, c => RightPass(c, w))
    ensures StatusAfter(cmds, ONLINE, w) == if Includes(cmds, c => Deletes(c, w)) then DELETE else ONLINE
  {
    hide Includes, Opens, RightPass, Deletes;
    if cmds == [] {
      NoneInNone(c => Deletes(c, w));
    } else {
      IncludesSnoc(cmds, Opens);
      IncludesSnoc(cmds, c => RightPass(c, w));
      IncludesSnoc(cmds, c => Deletes(c, w));
      OnlyDeletes(cmds[..|cmds| - 1], w);
    }
  }

  /** Names stay as they are without a NICK or USER. */
  lemma {:induction false} NamesKept(cmds: seq<Command>, a: Account, w: World)
    requires forall c :: c in cmds ==> !Allowed(REGISTER, c)
    ensures var b := ExecuteAll(cmds, a, w); b.nickname == a.nickname && b.realname == a.realname
  {
    hide Command.Prefix, Command.Parameters, Command.Trailer;
    if cmds != [] {
      assert forall c :: c in cmds[..|cmds| - 1] ==> c in cmds;
      assert cmds[|cmds| - 1] in cmds;
      NamesKept(cmds[..|cmds| - 1], a, w);
    }
  }

  // ----- dispatch from each status on -----

  /** The queue gives the user, or leaves it, a nickname and a real name. */
  ghost predicate Named(queue: seq<Command>, a: Account, w: World) {
    && (a.nickname != "" || Includes(queue, c => GivesNick(c, w)))
    && LastRealname(queue, a.realname) != ""
  }

  /** A user with both names who is asked for the password and gives it is online again. */
  function Rejoined(s: UserStatus, named: bool): UserStatus {
    if s == REGISTER && named then ONLINE else s
  }

  /** Whether a dispatch comes to a pass entered ONLINE. */
  ghost predicate Reaches(queue: seq<Command>, a: Account, w: World) {
    match a.status
    case CAPLS => Includes(queue, Opens) && Includes(queue, c => RightPass(c, w)) && Named(queue, a, w)
    case PASSWORD => Includes(queue, c => RightPass(c, w)) && Named(queue, a, w)
    case REGISTER => Named(queue, a, w)
    case ONLINE => true
    case DELETE => false
  }

  /** Where a dispatch ends. Short of ONLINE, the status is the first one whose step the queue lacks. From ONLINE on,
      everything else that was queued runs in one go. */
  ghost function EndStatus(queue: seq<Command>, a: Account, w: World): UserStatus {
    if !Reaches(queue, a, w) then
      if a.status == CAPLS && Includes(queue, Opens) then
        if Includes(queue, c => RightPass(c, w)) then REGISTER else PASSWORD
      else if a.status == PASSWORD && Includes(queue, c => RightPass(c, w)) then REGISTER
      else a.status
    else
      match a.status
      case CAPLS => if Includes(queue, c => Deletes(c, w)) then DELETE else ONLINE
      case PASSWORD => Rejoined(StatusAfter(Select(queue, PASSWORD, false), ONLINE, w), true)
      case REGISTER => Rejoined(StatusAfter(queue, ONLINE, w), true)
      case _ =>
        var b := ExecuteAll(queue, a, w);
        Rejoined(StatusAfter(queue, ONLINE, w), b.nickname != "" && b.realname != "")
  }

  ghost predicate EndsThere(queue: seq<Command>, a: Account, w: World) {
    var o := Settle(queue, a, w);
    o.account.status == EndStatus(queue, a, w) && (Reaches(queue, a, w) ==> o.queue == [])
  }

  lemma {:induction false} AllSelected(queue: seq<Command>)
    ensures Select(queue, ONLINE, true) == queue && Select(queue, ONLINE, false) == []
  {
    if queue != [] {
      AllSelected(queue[..|queue| - 1]);
      assert queue == queue[..|queue| - 1] + [queue[|queue| - 1]];
    }
  }

  /** With nothing queued, a dispatch can only complete a registration. */
  lemma SettleNothing(a: Account, w: World)
    ensures Settle([], a, w) == Outcome([], if a.status == DELETE then a else Promoted(a.status, a), [])
  {
    assert Recorded([], a.status) == [] && Recorded([], ONLINE) == [];
    assert forall b: Account :: Pass([], b, w) == Outcome([], Promoted(b.status, b), Recorded([], b.status));
    if a.status == REGISTER && Promoted(REGISTER, a) != a {
      assert Settle([], a.(status := ONLINE), w) == Outcome([], a.(status := ONLINE), []);
    }
  }

  lemma FromOnline(queue: seq<Command>, a: Account, w: World)
    requires a.status == ONLINE
    ensures EndsThere(queue, a, w)
  {
    hide Includes, ExecuteAll, Select, StatusAfter;
    AllSelected(queue);
    StatusTogether(queue, a, w);
    var pass := Pass(queue, a, w);
    assert pass.queue == [] && pass.account == ExecuteAll(queue, a, w);
    SettleNothing(pass.account, w);
  }

  lemma FromRegister(queue: seq<Command>, a: Account, w: World)
    requires a.status == REGISTER
    ensures EndsThere(queue, a, w)
  {
    hide Includes, ExecuteAll, Select, StatusAfter, Command.Prefix, LastRealname;
    var runs, left := Select(queue, REGISTER, true), Select(queue, REGISTER, false);
    forall c | c in runs ensures Allowed(REGISTER, c) { SelectIn(queue, REGISTER, true, c); }
    NamesTogether(runs, a, w);
    IncludesSelected(queue, REGISTER, true, c => GivesNick(c, w));
    RealnameSelected(queue, REGISTER, true, a.realname);
    var pass := Pass(queue, a, w);
    if pass.account.status == ONLINE {
      FromOnline(left, pass.account, w);
      StatusSelected(queue, REGISTER, ONLINE, w);
      forall c | c in left ensures !Allowed(REGISTER, c) { SelectIn(queue, REGISTER, false, c); }
      NamesKept(left, pass.account, w);
    }
  }

  lemma FromPassword(queue: seq<Command>, a: Account, w: World)
    requires a.status == PASSWORD
    ensures EndsThere(queue, a, w)
  {
    hide Includes, ExecuteAll, Select, StatusAfter, Command.Prefix, LastRealname;
    var runs := Select(queue, PASSWORD, true);
    forall c | c in runs ensures Allowed(PASSWORD, c) { SelectIn(queue, PASSWORD, true, c); }
    PassesTogether(runs, a, w);
    IncludesSelected(queue, PASSWORD, true, c => RightPass(c, w));
    IncludesSelected(queue, PASSWORD, false, c => GivesNick(c, w));
    RealnameSelected(queue, PASSWORD, false, a.realname);
    var pass := Pass(queue, a, w);
    if pass.account.status == REGISTER {
      FromRegister(pass.queue, pass.account, w);
    }
  }

  lemma FromCapls(queue: seq<Command>, a: Account, w: World)
    requires a.status == CAPLS
    ensures EndsThere(queue, a, w)
  {
    hide Includes, ExecuteAll, Select, StatusAfter, Command.Prefix, LastRealname;
    var runs, left := Select(queue, CAPLS, true), Select(queue, CAPLS, false);
    forall c | c in runs ensures Allowed(CAPLS, c) { SelectIn(queue, CAPLS, true, c); }
    CapsTogether(runs, a, w);
    IncludesSelected(queue, CAPLS, true, Opens);
    IncludesSelected(queue, CAPLS, false, c => RightPass(c, w));
    IncludesSelected(queue, CAPLS, false, c => GivesNick(c, w));
    RealnameSelected(queue, CAPLS, false, a.realname);
    var pass := Pass(queue, a, w);
    if pass.account.status == PASSWORD {
      FromPassword(left, pass.account, w);
      RestIsOther(queue, w);
    }
  }

  /** Past CAPLS and PASSWORD, of the commands that move the status only those that delete are left. */
  lemma RestIsOther(queue: seq<Command>, w: World)
    ensures StatusAfter(Select(Select(queue, CAPLS, false), PASSWORD, false), ONLINE, w)
         == if Includes(queue, c => Deletes(c, w)) then DELETE else ONLINE
  {
    hide Select, StatusAfter, Command.Prefix, Command.Parameters;
    var once := Select(queue, CAPLS, false);
    var rest := Select(once, PASSWORD, false);
    forall c ensures c in rest <==> c in queue && !Allowed(CAPLS, c) && !Allowed(PASSWORD, c) {
      SelectIn(queue, CAPLS, false, c);
      SelectIn(once, PASSWORD, false, c);
    }
    OnlyDeletes(rest, w);
  }

  /** Every dispatch ends exactly where its queue takes it: past CAPLS if there is a CAP LS, past PASSWORD if
      there is a right PASS, past REGISTER if both names are given, and from then on wherever the other commands
      lead. Up to REGISTER the order of arrival plays no part but for which USER is last. Once past it, no command
      is left waiting. */
  lemma RegistrationExact(queue: seq<Command>, a: Account, w: World)
    ensures EndsThere(queue, a, w)
  {
    match a.status {
      case CAPLS => FromCapls(queue, a, w);
      case PASSWORD => FromPassword(queue, a, w);
      case REGISTER => FromRegister(queue, a, w);
      case ONLINE => FromOnline(queue, a, w);
      case DELETE =>
    }
  }

  // ----- in every run -----

  lemma {:induction false} NeverBack(cmds: seq<Command>, a: Account, w: World)
    requires a.status != CAPLS
    ensures ExecuteAll(cmds, a, w).status != CAPLS
  {
    hide Command.Prefix, Command.Parameters, Command.Trailer;
    if cmds != [] {
      NeverBack(cmds[..|cmds| - 1], a, w);
    }
  }

  lemma {:induction false} SettleNeverBack(queue: seq<Command>, a: Account, w: World)
    requires a.status != CAPLS
    ensures Settle(queue, a, w).account.status != CAPLS
    decreases |queue|, if a.status == REGISTER then 1 else 0
  {
    hide ExecuteAll, Select;
    if a.status != DELETE {
      NeverBack(Select(queue, a.status, true), a, w);
      var pass := Pass(queue, a, w);
      if pass.account.status != a.status {
        PassShrinks(queue, a, w);
        SettleNeverBack(pass.queue, pass.account, w);
      }
    }
  }

  /** A user still in CAPLS has no names, at any point of any run. */
  lemma {:induction false} StillNew(inputs: seq<Input>, w: World)
    ensures Life(inputs, w).account.status == CAPLS ==> Life(inputs, w).account == Account(CAPLS, "", "", "")
    decreases |inputs|
  {
    hide Settle, Added, TakeApart;
    if inputs != [] {
      var front, last := inputs[..|inputs| - 1], inputs[|inputs| - 1];
      StillNew(front, w);
      if last.Bytes? {
        var u := Life(front, w);
        StillNewSettled(u.queue + Added(u, last.chunk), u.account, w);
      }
    }
  }

  lemma StillNewSettled(queue: seq<Command>, a: Account, w: World)
    requires a.status == CAPLS ==> a == Account(CAPLS, "", "", "")
    ensures var b := Settle(queue, a, w).account; b.status == CAPLS ==> b == Account(CAPLS, "", "", "")
  {
    hide ExecuteAll, Select;
    if a.status != CAPLS {
      SettleNeverBack(queue, a, w);
    } else {
      var runs := Select(queue, CAPLS, true);
      forall c | c in runs ensures Allowed(CAPLS, c) { SelectIn(queue, CAPLS, true, c); }
      CapsTogether(runs, a, w);
      var pass := Pass(queue, a, w);
      if pass.account.status != CAPLS {
        PassShrinks(queue, a, w);
        SettleNeverBack(pass.queue, pass.account, w);
      }
    }
  }

  /** In every run each read takes its user exactly as far as its queue then reaches. */
  lemma RegistrationInRuns(inputs: seq<Input>, chunk: string, w: World)
    ensures var before, after := Life(inputs, w), Life(inputs + [Bytes(chunk)], w);
            var queue := before.queue + Added(before, chunk);
            && after.account.status == EndStatus(queue, before.account, w)
            && (Reaches(queue, before.account, w) ==> after.queue == [])
  {
    hide Settle, Added, TakeApart, EndStatus, Reaches;
    var u := Life(inputs, w);
    assert (inputs + [Bytes(chunk)])[..|inputs|] == inputs;
    RegistrationExact(u.queue + Added(u, chunk), u.account, w);
  }
}
