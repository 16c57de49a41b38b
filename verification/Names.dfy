/** Which nickname, username and real name a dispatch leaves: those of the last commands that ran and give them. */
module Names {
  import opened CrLf
  import opened IrcCommand
  import opened Dispatch
  import opened Registration
  import opened UserSession

  /** The commands that ran in passes entered ONLINE. */
  function OnlineOnes(ran: seq<Ran>): seq<Command> {
    if ran == [] then []
    else
      var last := ran[|ran| - 1];
      OnlineOnes(ran[..|ran| - 1]) + if last.entered == ONLINE then [last.command] else []
  }

  /** The status of the user when this command ran. In a pass entered ONLINE earlier commands may have moved it. */
  function StatusAt(ran: seq<Ran>, k: nat, w: World): UserStatus
    requires k < |ran|
  {
    if ran[k].entered == ONLINE then StatusAfter(OnlineOnes(ran[..k]), ONLINE, w) else ran[k].entered
  }

  predicate NickRan(ran: seq<Ran>, k: nat, w: World)
    requires k < |ran|
  {
    GivesNick(ran[k].command, w)
  }

  predicate UserRan(ran: seq<Ran>, k: nat, w: World)
    requires k < |ran|
  {
    GivesNames(ran[k].command) && StatusAt(ran, k, w) == REGISTER
  }

  /** The nickname is the first parameter of the last accepted NICK that ran, or the old one. */
  ghost predicate NickFrom(ran: seq<Ran>, w: World, before: Account, after: Account) {
    && (forall k :: 0 <= k < |ran| && NickRan(ran, k, w) && (forall j :: k < j < |ran| ==> !NickRan(ran, j, w)) ==>
          after.nickname == ran[k].command.Parameters()[0])
    && ((forall k :: 0 <= k < |ran| ==> !NickRan(ran, k, w)) ==> after.nickname == before.nickname)
  }

  /** The username and the real name are the first parameter and the trailer of the last USER with three
      parameters that ran in REGISTER, or the old ones. */
  ghost predicate NamesFrom(ran: seq<Ran>, w: World, before: Account, after: Account) {
    && (forall k :: 0 <= k < |ran| && UserRan(ran, k, w) && (forall j :: k < j < |ran| ==> !UserRan(ran, j, w)) ==>
          after.username == ran[k].command.Parameters()[0] && after.realname == ran[k].command.Trailer())
    && ((forall k :: 0 <= k < |ran| ==> !UserRan(ran, k, w)) ==>
          after.username == before.username && after.realname == before.realname)
  }

  /** One more NICK, or something else. */
  lemma NickSnoc(ran: seq<Ran>, r: Ran, w: World, before: Account, mid: Account, after: Account)
    requires NickFrom(ran, w, before, mid)
    requires after.nickname == if GivesNick(r.command, w) then r.command.Parameters()[0] else mid.nickname
    ensures NickFrom(ran + [r], w, before, after)
  {
    hide GivesNick, Command.Parameters;
    var more := ran + [r];
    assert forall k :: 0 <= k < |ran| ==> (NickRan(more, k, w) <==> NickRan(ran, k, w));
    assert NickRan(more, |ran|, w) <==> GivesNick(r.command, w);
  }

  lemma NamesSnoc(ran: seq<Ran>, r: Ran, w: World, before: Account, mid: Account, after: Account)
    requires NamesFrom(ran, w, before, mid)
    requires if UserRan(ran + [r], |ran|, w) then after.username == r.command.Parameters()[0] && after.realname == r.command.Trailer()
             else after.username == mid.username && after.realname == mid.realname
    ensures NamesFrom(ran + [r], w, before, after)
  {
    hide GivesNames, Command.Parameters, Command.Trailer;
    var more := ran + [r];
    forall k | 0 <= k < |ran| ensures UserRan(more, k, w) <==> UserRan(ran, k, w) {
      assert more[..k] == ran[..k];
    }
  }

  /** What one command does to the names. */
  lemma ExecuteNames(c: Command, a: Account, w: World)
    ensures var b := Execute(c, a, w);
            && b.nickname == (if GivesNick(c, w) then c.Parameters()[0] else a.nickname)
            && if GivesNames(c) && a.status == REGISTER then b.username == c.Parameters()[0] && b.realname == c.Trailer()
               else b.username == a.username && b.realname == a.realname
  {
    hide Command.Prefix, Command.Parameters, Command.Trailer;
  }

  lemma {:induction false} OnlineOnesOf(before: seq<Ran>, cmds: seq<Command>, entered: UserStatus)
    requires OnlineOnes(before) == []
    ensures OnlineOnes(before + Recorded(cmds, entered)) == if entered == ONLINE then cmds else []
  {
    if cmds == [] {
      assert before + Recorded(cmds, entered) == before;
    } else {
      var front := cmds[..|cmds| - 1];
      OnlineOnesOf(before, front, entered);
      var all := before + Recorded(cmds, entered);
      assert all[..|all| - 1] == before + Recorded(front, entered);
    }
  }

  /** The status at which the next command of a pass runs, as far as NICK and USER can tell. */
  lemma StatusInPass(before: seq<Ran>, cmds: seq<Command>, c: Command, a: Account, w: World)
    requires OnlineOnes(before) == [] && a.status != DELETE && Allowed(a.status, c)
    requires forall d :: d in cmds ==> Allowed(a.status, d)
    ensures var ran := before + Recorded(cmds, a.status);
            GivesNames(c) ==>
              (UserRan(ran + [Ran(c, a.status)], |ran|, w) <==> ExecuteAll(cmds, a, w).status == REGISTER)
  {
    hide Command.Prefix, Command.Parameters, StatusAfter;
    var ran := before + Recorded(cmds, a.status);
    assert (ran + [Ran(c, a.status)])[..|ran|] == ran;
    OnlineOnesOf(before, cmds, a.status);
    if a.status == ONLINE {
      StatusTogether(cmds, a, w);
    } else if a.status == REGISTER {
      NamesTogether(cmds, a, w);
    }
  }

  lemma {:induction false} PassNames(before: seq<Ran>, cmds: seq<Command>, a0: Account, a: Account, w: World)
    requires OnlineOnes(before) == [] && a.status != DELETE && forall c :: c in cmds ==> Allowed(a.status, c)
    requires NickFrom(before, w, a0, a) && NamesFrom(before, w, a0, a)
    ensures var ran, b := before + Recorded(cmds, a.status), ExecuteAll(cmds, a, w);
            NickFrom(ran, w, a0, b) && NamesFrom(ran, w, a0, b)
    decreases |cmds|
  {
    hide NickFrom, NamesFrom, Execute, GivesNick, GivesNames, Allowed, UserRan;
    if cmds == [] {
      assert before + Recorded(cmds, a.status) == before;
    } else {
      var front, c := cmds[..|cmds| - 1], cmds[|cmds| - 1];
      assert c in cmds && forall d :: d in front ==> d in cmds;
      PassNames(before, front, a0, a, w);
      var ran, mid, b := before + Recorded(front, a.status), ExecuteAll(front, a, w), ExecuteAll(cmds, a, w);
      var r := Ran(c, a.status);
      assert before + Recorded(cmds, a.status) == ran + [r];
      ExecuteNames(c, mid, w);
      StatusInPass(before, front, c, a, w);
      UserNeedsNames(ran + [r], |ran|, w);
      NickSnoc(ran, r, w, a0, mid, b);
      NamesSnoc(ran, r, w, a0, mid, b);
    }
  }

  lemma UserNeedsNames(ran: seq<Ran>, k: nat, w: World)
    requires k < |ran|
    ensures UserRan(ran, k, w) ==> GivesNames(ran[k].command)
  {
  }

  lemma {:induction false} SettleNamesAfter(before: seq<Ran>, queue: seq<Command>, a0: Account, a: Account, w: World)
    requires OnlineOnes(before) == [] && NickFrom(before, w, a0, a) && NamesFrom(before, w, a0, a)
    ensures var o := Settle(queue, a, w);
            NickFrom(before + o.ran, w, a0, o.account) && NamesFrom(before + o.ran, w, a0, o.account)
    decreases |queue|, if a.status == REGISTER then 1 else 0
  {
    hide Select, ExecuteAll, Allowed, Recorded, OnlineOnes;
    if a.status == DELETE {
      assert before + [] == before;
    } else {
      var runs := Select(queue, a.status, true);
      forall c | c in runs ensures Allowed(a.status, c) { SelectIn(queue, a.status, true, c); }
      var pass := Pass(queue, a, w);
      PassNames(before, runs, a0, a, w);
      NamesOnly(before + pass.ran, w, a0, ExecuteAll(runs, a, w), pass.account);
      if pass.account.status != a.status {
        PassShrinks(queue, a, w);
        var later := Settle(pass.queue, pass.account, w);
        if a.status == ONLINE {
          AllSelected(queue);
          SettleNothing(pass.account, w);
          assert before + (pass.ran + []) == before + pass.ran;
          NamesOnly(before + pass.ran, w, a0, pass.account, later.account);
        } else {
          OnlineOnesOf(before, runs, a.status);
          SettleNamesAfter(before + pass.ran, pass.queue, a0, pass.account, w);
          Regroup(before, pass.ran, later.ran);
        }
      }
    }
  }

  /** A promotion leaves the names. */
  lemma NamesOnly(ran: seq<Ran>, w: World, a0: Account, b: Account, c: Account)
    requires NickFrom(ran, w, a0, b) && NamesFrom(ran, w, a0, b)
    requires c.nickname == b.nickname && c.username == b.username && c.realname == b.realname
    ensures NickFrom(ran, w, a0, c) && NamesFrom(ran, w, a0, c)
  {
  }

  /** The names at the end of a dispatch come from the commands that ran in it. */
  lemma SettleNames(queue: seq<Command>, a: Account, w: World)
    ensures var o := Settle(queue, a, w); NickFrom(o.ran, w, a, o.account) && NamesFrom(o.ran, w, a, o.account)
  {
    hide Settle;
    SettleNamesAfter([], queue, a, a, w);
    assert [] + Settle(queue, a, w).ran == Settle(queue, a, w).ran;
  }

  /** In every run, the names after a read come from the commands that ran in it. */
  lemma NamesInRuns(inputs: seq<Input>, chunk: string, w: World)
    ensures var before, after := Life(inputs, w), Life(inputs + [Bytes(chunk)], w);
            && before.history <= after.history
            && var ran := after.history[|before.history|..];
               NickFrom(ran, w, before.account, after.account) && NamesFrom(ran, w, before.account, after.account)
  {
    hide Settle, Added, TakeApart, NickFrom, NamesFrom;
    var u := Life(inputs, w);
    assert (inputs + [Bytes(chunk)])[..|inputs|] == inputs;
    SettleNames(u.queue + Added(u, chunk), u.account, w);
  }
}
