/** ann: the two sweep functions and the lookups they use, on the server's own fields. */
module AnnServer {
  import opened Option
  import opened Lists
  import opened Sets
  import opened Strings
  import opened AnnClient
  import opened AnnRooms

  ghost function InfoOf(c: Cli): Info
    reads c
  {
    Info(c.nick, c.passOk && c.uName != "", c.bufToSend, c.invits)
  }

  ghost function InfosOf(clis: map<int, Cli>): map<int, Info>
    reads clis.Values
  {
    map fd | fd in clis :: InfoOf(clis[fd])
  }

  lemma {:induction false} WithoutMore(polls: seq<int>, gone: set<int>, fd: int)
    ensures Without(Without(polls, gone), {fd}) == Without(polls, gone + {fd})
  {
    if polls != [] {
      var x, rest := polls[0], Without(polls[1..], gone);
      WithoutMore(polls[1..], gone, fd);
      if x !in gone {
        assert ([x] + rest)[0] == x && ([x] + rest)[1..] == rest;
        assert Without(polls, gone) == [x] + rest;
        assert Without([x] + rest, {fd}) == (if x == fd then [] else [x]) + Without(rest, {fd});
      } else {
        assert Without(polls, gone) == rest;
        assert Without(polls, gone + {fd}) == Without(polls[1..], gone + {fd});
      }
    }
  }

  lemma {:induction false} WithoutNothing(polls: seq<int>)
    ensures Without(polls, {}) == polls
  {
    if polls != [] {
      WithoutNothing(polls[1..]);
    }
  }

  /** Erasing the one place of a descriptor. */
  lemma {:induction false} EraseAt(polls: seq<int>, k: nat)
    requires NoRepeats(polls) && k < |polls|
    ensures polls[..k] + polls[k + 1..] == Without(polls, {polls[k]})
  {
    if k == 0 {
      AbsentPoll(polls[1..], polls[0]);
      assert polls[..0] + polls[1..] == polls[1..];
    } else {
      EraseAt(polls[1..], k - 1);
      assert polls[..k] + polls[k + 1..] == [polls[0]] + (polls[1..][..k - 1] + polls[1..][k..]);
    }
  }

  lemma {:induction false} AbsentPoll(polls: seq<int>, fd: int)
    requires fd !in polls
    ensures Without(polls, {fd}) == polls
  {
    if polls != [] {
      AbsentPoll(polls[1..], fd);
    }
  }

  lemma InfosWithout(clis: map<int, Cli>, fd: int)
    ensures InfosOf(clis - {fd}) == InfosOf(clis) - {fd}
  {
  }

  /** One more expulsion from every channel. */
  lemma RoomsSwept(h: Hall, before: map<string, Room>, gone: set<int>, fd: int, after: map<string, Room>)
    requires fd !in gone && h.chs.Keys == before.Keys == after.Keys
    requires forall a :: a in h.chs ==>
               GoodRoom(h.chs[a], h.clis) && RoomSwept(h.chs[a], gone, before[a]) && Expelled(before[a], fd, after[a])
    ensures forall a :: a in h.chs ==> RoomSwept(h.chs[a], gone + {fd}, after[a])
  {
    forall a | a in h.chs ensures RoomSwept(h.chs[a], gone + {fd}, after[a]) {
      assert GoodRoom(h.chs[a], h.clis);
      SweptOnce(h.chs[a], gone, before[a], fd, after[a]);
    }
  }

  /** Whether a nickname is taken decides a NICK with an allowed one. */
  lemma NickIs(h: Hall, fd: int, nick: string, taken: bool)
    requires fd in h.clis && NickAllowed(nick)
    requires taken <==> exists g :: g in h.clis && Lower(h.clis[g].nick) == Lower(nick)
    ensures Nick(h, fd, nick) == if taken then h else h.(clis := h.clis[fd := h.clis[fd].(nick := nick)])
  {
  }

  class AnnServer {
    const fdForNewClis: int
    var polls: seq<int>
    var clis: map<int, Cli>
    var chs: map<string, Room>
    var fdsToEraseNextIteration: set<int>

    ghost function State(): Hall
      reads this, clis.Values
    {
      Hall(fdForNewClis, InfosOf(clis), chs, polls, fdsToEraseNextIteration)
    }

    constructor (fdForNewClis: int)
      ensures Keyed() && State() == Opened(fdForNewClis)
    {
      this.fdForNewClis := fdForNewClis;
      polls, clis, chs, fdsToEraseNextIteration := [fdForNewClis], map[], map[], {};
    }

    /** The loop by which clients are looked up: one of these whose nickname equals this one up to case. */
    method FindAmong(fds: set<int>, nick: string) returns (found: Option<int>)
      requires fds <= clis.Keys
      ensures match found
              case Some(fd) => fd in fds && Lower(clis[fd].nick) == Lower(nick)
              case None => forall fd :: fd in fds ==> Lower(clis[fd].nick) != Lower(nick)
    {
      var rest := fds;
      while rest != {}
        invariant rest <= fds
        invariant forall fd :: fd in fds && fd !in rest ==> Lower(clis[fd].nick) != Lower(nick)
        decreases rest
      {
        ghost var next := Pick(rest);
        var fd :| fd in rest;
        if Lower(clis[fd].nick) == Lower(nick) {
          return Some(fd);
        }
        rest := rest - {fd};
      }
      return None;
    }

    /** A client whose nickname equals this one up to case. */
    method GetCli(nick: string) returns (found: Option<int>)
      ensures match found
              case Some(fd) => fd in clis && Lower(clis[fd].nick) == Lower(nick)
              case None => forall fd :: fd in clis ==> Lower(clis[fd].nick) != Lower(nick)
    {
      found := FindAmong(clis.Keys, nick);
    }

    /** The channel of this name up to case. */
    method GetCh(chName: string) returns (found: Option<string>)
      ensures match found
              case Some(a) => a in chs && Lower(a) == Lower(chName)
              case None => forall a :: a in chs ==> Lower(a) != Lower(chName)
    {
      var rest := chs.Keys;
      while rest != {}
        invariant rest <= chs.Keys
        invariant forall a :: a in chs && a !in rest ==> Lower(a) != Lower(chName)
        decreases rest
      {
        ghost var next := Pick(rest);
        var a :| a in rest;
        if Lower(a) == Lower(chName) {
          return Some(a);
        }
        rest := rest - {a};
      }
      return None;
    }

    /** Every client is stored under its own descriptor, so that no two entries share an object. */
    ghost predicate Keyed()
      reads this, clis.Values
    {
      forall fd :: fd in clis ==> clis[fd].fd == fd
    }

    // ----- the steps that build the state -----

    /** `fd` is what `accept` returned: a descriptor that is not in use. */
    method AddNewClient(fd: int)
      requires Keyed() && fd !in clis && fd != fdForNewClis
      modifies this`clis, this`polls
      ensures Keyed() && State() == Accepted(old(State()), fd)
      ensures polls == old(polls) + [fd] && InfosOf(clis) == old(InfosOf(clis))[fd := Info("", false, "", {})]
    {
      var cli := new Cli(fd);
      clis := clis[fd := cli];
      polls := polls + [fd];
      assert InfosOf(clis) == old(InfosOf(clis))[fd := Info("", false, "", {})];
    }

    method ExecNick(cli: Cli, ar: seq<string>)
      requires Keyed() && cli.fd in clis && clis[cli.fd] == cli
      modifies cli`nick
      ensures Keyed()
      ensures State() == if |ar| < 2 then old(State()) else Nick(old(State()), cli.fd, ar[1])
      ensures cli.nick == if |ar| >= 2 && 1 <= |ar[1]| <= 9 && (forall i :: 0 <= i < |ar[1]| ==> NickChar(ar[1][i]))
                             && (forall g :: g in clis ==> Lower(old(clis[g].nick)) != Lower(ar[1]))
                          then ar[1] else old(cli.nick)
    {
      if |ar| < 2 || |ar[1]| == 0 {
        return;
      }
      if !NickAllowed(ar[1]) {
        return;
      }
      var taken := GetCli(ar[1]);
      assert taken.None? <==> forall g :: g in clis ==> Lower(clis[g].nick) != Lower(ar[1]);
      hide NickAllowed, Lower;
      ghost var h := State();
      NickIs(h, cli.fd, ar[1], taken.Some?) by {
        assert forall f :: f in clis ==> h.clis[f].nick == clis[f].nick;
        if taken.Some? {
          assert taken.value in h.clis;
        }
      }
      if taken.Some? {
        return;
      }
      hide Nick;
      SetNick(cli, ar[1]);
    }

    method SetNick(cli: Cli, nick: string)
      requires Keyed() && cli.fd in clis && clis[cli.fd] == cli
      modifies cli`nick
      ensures Keyed() && cli.nick == nick
      ensures var h := old(InfosOf(clis)); InfosOf(clis) == h[cli.fd := h[cli.fd].(nick := nick)]
    {
      ghost var h := InfosOf(clis);
      ghost var infos := h[cli.fd := h[cli.fd].(nick := nick)];
      cli.nick := nick;
      forall f | f in clis ensures InfosOf(clis)[f] == infos[f] {
        assert f != cli.fd ==> clis[f] != cli;
      }
      assert InfosOf(clis) == infos;
    }

    /** A member of this channel whose nickname equals this one up to case. A name that differs from a known one
        only in case makes the source follow a null pointer. */
    method GetCliOnCh(nick: string, chName: string) returns (found: Option<int>)
      requires !CaseClash(chs, chName)
      requires chName in chs ==> chs[chName].clis <= clis.Keys
      ensures match found
              case Some(fd) => chName in chs && fd in chs[chName].clis && Lower(clis[fd].nick) == Lower(nick)
              case None => chName in chs ==> forall fd :: fd in chs[chName].clis ==> Lower(clis[fd].nick) != Lower(nick)
    {
      var ch := GetCh(chName);
      if ch.None? {
        return None;
      }
      found := FindAmong(chs[chName].clis, nick);
    }

    /** An admin of this channel whose nickname equals this one up to case. */
    method GetAdmOnCh(nick: string, chName: string) returns (found: Option<int>)
      requires !CaseClash(chs, chName)
      requires chName in chs ==> chs[chName].adms <= clis.Keys
      ensures match found
              case Some(fd) => chName in chs && fd in chs[chName].adms && Lower(clis[fd].nick) == Lower(nick)
              case None => chName in chs ==> forall fd :: fd in chs[chName].adms ==> Lower(clis[fd].nick) != Lower(nick)
    {
      var ch := GetCh(chName);
      if ch.None? {
        return None;
      }
      found := FindAmong(chs[chName].adms, nick);
    }

    lemma RoomKnown(chName: string)
      requires chName in chs && GoodRoom(chs[chName], InfosOf(clis))
      ensures chs[chName].clis <= clis.Keys && chs[chName].adms <= clis.Keys
      ensures forall fd :: fd in chs[chName].clis ==> clis[fd].nick != ""
    {
      var infos := InfosOf(clis);
      forall fd | fd in chs[chName].clis ensures fd in clis && clis[fd].nick != "" {
        assert fd in infos && infos[fd] == InfoOf(clis[fd]);
      }
    }

    /** One name of `execJoin`, past the checks on the name and the number of channels. */
    method ExecJoinOne(cli: Cli, chName: string, pass: string)
      requires Keyed() && cli.fd in clis && clis[cli.fd] == cli
      requires NicksApart(InfosOf(clis)) && NamesApart(chs) && !CaseClash(chs, chName)
      requires chName in chs ==> GoodRoom(chs[chName], InfosOf(clis))
      modifies this`chs, cli`invits
      ensures Keyed()
      ensures State() == Joined(old(State()), cli.fd, chName, pass)
    {
      hide Lower;
      ghost var h := State();
      assert h.clis[cli.fd] == InfoOf(cli);
      if !cli.passOk || cli.nick == "" || cli.uName == "" {
        return;
      }
      if chName in chs {
        RoomKnown(chName);
      }
      var member := GetCliOnCh(cli.nick, chName);
      if member.Some? {
        SameCli(cli.nick, cli.fd, member.value);
        return;
      }
      AdmitOne(cli, chName, pass);
    }

    /** The last branch of `execJoin` for one name. */
    method AdmitOne(cli: Cli, chName: string, pass: string)
      requires Keyed() && cli.fd in clis && clis[cli.fd] == cli
      requires InfoOf(cli).registered && cli.nick != "" && !CaseClash(chs, chName)
      requires chName in chs ==> cli.fd !in chs[chName].clis
      modifies this`chs, cli`invits
      ensures Keyed()
      ensures State() == Joined(old(State()), cli.fd, chName, pass)
    {
      hide Lower, CaseClash, Admits;
      ghost var h := State();
      assert h.clis[cli.fd] == InfoOf(cli);
      hide InfosOf, Keyed;
      assert Admits(Opening(cli.fd), cli.invits, chName, pass) by { OpenToItsOpener(cli.fd, cli.invits, chName, pass); }
      if chName !in chs {
        chs := chs[chName := Opening(cli.fd)];
      }
      var room := chs[chName];
      var admitted := MayJoin(room, cli.invits, chName, pass);
      if admitted {
        SetTwice(h.chs, chName, Opening(cli.fd), room.(clis := room.clis + {cli.fd}));
        chs := chs[chName := room.(clis := room.clis + {cli.fd})];
        Uninvite(cli, chName);
      }
    }

    lemma SetTwice(m: map<string, Room>, name: string, first: Room, second: Room)
      ensures m[name := first][name := second] == m[name := second]
    {
    }

    lemma OpenToItsOpener(fd: int, invits: set<string>, name: string, pass: string)
      ensures Admits(Opening(fd), invits, name, pass)
    {
    }

    /** The chain of refusals in `execJoin`: a wrong key, no room, no invitation. */
    static method MayJoin(room: Room, invits: set<string>, chName: string, pass: string) returns (admitted: bool)
      ensures admitted <==> Admits(room, invits, chName, pass)
    {
      if room.rules.pass != "" && pass != room.rules.pass {
        return false;
      } else if |room.clis| >= room.rules.limit {
        return false;
      } else if room.rules.optI && chName !in invits {
        return false;
      }
      return true;
    }

    method Uninvite(cli: Cli, chName: string)
      requires Keyed() && cli.fd in clis && clis[cli.fd] == cli
      modifies cli`invits
      ensures Keyed()
      ensures var h := old(InfosOf(clis));
              InfosOf(clis) == h[cli.fd := h[cli.fd].(invits := h[cli.fd].invits - {chName})]
    {
      ghost var h := InfosOf(clis);
      ghost var infos := h[cli.fd := h[cli.fd].(invits := h[cli.fd].invits - {chName})];
      cli.invits := cli.invits - {chName};
      forall f | f in clis ensures InfosOf(clis)[f] == infos[f] {
        assert f != cli.fd ==> clis[f] != cli;
      }
      assert InfosOf(clis) == infos;
    }

    /** The options +o and -o of `execModeOneOoption`, for the member that the nickname names. */
    method ExecModeO(plus: bool, chName: string, val: string)
      requires NicksApart(InfosOf(clis)) && NamesApart(chs) && chName in chs && GoodRoom(chs[chName], InfosOf(clis))
      modifies this`chs
      ensures forall fd :: fd in clis && clis[fd].nick != "" && Lower(clis[fd].nick) == Lower(val) ==>
                && State() == Opped(old(State()), chName, fd, plus)
                && var r := old(chs[chName]);
                   chs == if fd !in r.clis then old(chs)
                          else old(chs)[chName := Room(r.clis, if plus then r.adms + {fd} else r.adms - {fd}, r.rules)]
      ensures (forall fd :: fd in clis ==> clis[fd].nick == "" || Lower(clis[fd].nick) != Lower(val)) ==>
                State() == old(State())
    {
      hide Lower;
      RoomKnown(chName);
      var member := GetCliOnCh(val, chName);
      if member.None? {
        return;
      }
      var who := GetCli(val);
      OneOfName(val, member.value);
      assert who == member;
      hide NicksApart, NamesApart, GoodRoom, InfosOf;
      if plus {
        chs := chs[chName := chs[chName].(adms := chs[chName].adms + {who.value})];
      } else {
        var adm := GetAdmOnCh(val, chName);
        if adm.Some? {
          chs := chs[chName := chs[chName].(adms := chs[chName].adms - {who.value})];
        } else {
          assert chs[chName].adms - {who.value} == chs[chName].adms;
          assert chs[chName := chs[chName]] == chs;
        }
      }
    }

    /** There is one client of a nickname up to case, if it is one that somebody has. */
    lemma OneOfName(nick: string, fd: int)
      requires NicksApart(InfosOf(clis)) && fd in clis && clis[fd].nick != "" && Lower(clis[fd].nick) == Lower(nick)
      ensures forall g :: g in clis && Lower(clis[g].nick) == Lower(nick) ==> g == fd
    {
      var infos := InfosOf(clis);
      assert forall f :: f in clis ==> infos[f] == InfoOf(clis[f]);
    }

    // ----- the sweep -----

    /** `fd` is the client meant by the nickname. A client without a nickname is in no channel, so that whichever
        one the lookup finds, nobody leaves. */
    method EraseCliFromCh(nick: string, chName: string, ghost fd: int)
      requires NicksApart(InfosOf(clis)) && NamesApart(chs) && chName in chs
      requires forall f :: f in chs[chName].clis + chs[chName].adms ==> f in clis && clis[f].nick != ""
      requires fd in clis && clis[fd].nick == nick
      modifies this`chs
      ensures chs.Keys == old(chs.Keys)
      ensures Expelled(old(chs[chName]), fd, chs[chName])
      ensures forall a :: a in chs && a != chName ==> chs[a] == old(chs[a])
    {
      var ch := GetCh(chName);
      var cli := GetCli(nick);
      assert ch == Some(chName);
      ghost var room := chs[chName];
      SameCli(nick, fd, cli.value);
      assert room.clis - {cli.value} == room.clis - {fd} && room.adms - {cli.value} == room.adms - {fd};
      chs := chs[ch.value := chs[ch.value].(clis := chs[ch.value].clis - {cli.value})];
      chs := chs[ch.value := chs[ch.value].(adms := chs[ch.value].adms - {cli.value})];
      if chs[ch.value].adms == {} && chs[ch.value].clis != {} {
        ghost var next := Pick(chs[ch.value].clis);
        var oldest :| oldest in chs[ch.value].clis;
        chs := chs[ch.value := chs[ch.value].(adms := {oldest})];
      }
    }

    lemma SameCli(nick: string, fd: int, found: int)
      requires NicksApart(InfosOf(clis)) && fd in clis && clis[fd].nick == nick
      requires found in clis && Lower(clis[found].nick) == Lower(nick)
      ensures found == fd || (nick == "" && clis[found].nick == "")
    {
      var infos := InfosOf(clis);
      assert infos[fd] == InfoOf(clis[fd]) && infos[found] == InfoOf(clis[found]);
      assert |Lower(clis[found].nick)| == |clis[found].nick|;
    }

    /** The client leaves every channel. */
    method EraseFromAll(fd: int)
      requires NicksApart(InfosOf(clis)) && NamesApart(chs) && fd in clis
      requires forall a, f :: a in chs && f in chs[a].clis + chs[a].adms ==> f in clis && clis[f].nick != ""
      modifies this`chs
      ensures chs.Keys == old(chs.Keys)
      ensures forall a :: a in chs ==> Expelled(old(chs[a]), fd, chs[a])
    {
      var rest := chs.Keys;
      while rest != {}
        invariant rest <= chs.Keys == old(chs.Keys)
        invariant forall a :: a in rest ==> chs[a] == old(chs[a])
        invariant forall a :: a in chs && a !in rest ==> Expelled(old(chs[a]), fd, chs[a])
        decreases rest
      {
        ghost var next := Pick(rest);
        var a :| a in rest;
        EraseCliFromCh(clis[fd].nick, a, fd);
        rest := rest - {a};
      }
    }

    method ErasePoll(fd: int)
      requires NoRepeats(polls)
      modifies this`polls
      ensures polls == Without(old(polls), {fd})
    {
      for k := 0 to |polls|
        invariant fd !in polls[..k] && polls == old(polls)
      {
        if polls[k] == fd {
          EraseAt(polls, k);
          polls := polls[..k] + polls[k + 1..];
          return;
        }
      }
      assert polls[..|polls|] == polls;
      AbsentPoll(polls, fd);
    }

    /** What the sweep of clients needs; the marks may be for anybody. */
    ghost predicate Ready(h: Hall) {
      NicksApart(h.clis) && NamesApart(h.chs) && NoRepeats(h.polls) && forall a :: a in h.chs ==> GoodRoom(h.chs[a], h.clis)
    }

    /** Half way through the sweep of clients, when those in `done` have been looked at. */
    ghost predicate Sweeping(h: Hall, done: set<int>, gone: set<int>, removed: set<int>)
      reads this, clis.Values
    {
      && gone == (set f | f in done && f in h.clis && h.clis[f].toSend == "")
      && removed == (set f | f in done && (f in h.clis ==> h.clis[f].toSend == ""))
      && InfosOf(clis) == h.clis - gone
      && polls == Without(h.polls, removed)
      && chs.Keys == h.chs.Keys
      && (forall a :: a in h.chs ==> RoomSwept(h.chs[a], gone, chs[a]))
      && fdsToEraseNextIteration == h.marked
    }

    lemma MembersConnected(h: Hall, done: set<int>, gone: set<int>, removed: set<int>)
      requires Ready(h) && Sweeping(h, done, gone, removed)
      ensures forall a, f :: a in chs && f in chs[a].clis + chs[a].adms ==> f in clis && clis[f].nick != ""
      ensures NicksApart(InfosOf(clis)) && NamesApart(chs) && NoRepeats(polls)
    {
      forall a, f | a in chs && f in chs[a].clis + chs[a].adms ensures f in clis && clis[f].nick != "" {
        SweptGood(h.chs[a], gone, chs[a], h.clis);
        assert f in InfosOf(clis) && InfosOf(clis)[f] == h.clis[f];
      }
      WithoutRepeats(h.polls, removed);
    }

    /** One turn of the loop over the marks. */
    method SweepOne(fd: int, ghost h: Hall, ghost done: set<int>, ghost gone: set<int>, ghost removed: set<int>)
      returns (reallyRemoved: bool, ghost alsoGone: set<int>)
      requires Ready(h) && Sweeping(h, done, gone, removed) && fd !in done
      modifies this`chs, this`clis, this`polls
      ensures reallyRemoved <==> fd in h.clis ==> h.clis[fd].toSend == ""
      ensures Sweeping(h, done + {fd}, alsoGone, removed + if reallyRemoved then {fd} else {})
      ensures old(Keyed()) ==> Keyed()
    {
      MembersConnected(h, done, gone, removed);
      assert fd in clis <==> fd in h.clis by { assert fd in InfosOf(clis) <==> fd in clis; }
      assert removed + {} == removed;
      alsoGone := gone;
      reallyRemoved := false;
      if fd in clis {
        assert InfosOf(clis)[fd] == h.clis[fd];
      }
      if fd in clis && clis[fd].bufToSend == "" {
        RemoveFinished(fd, h, done, gone, removed);
        reallyRemoved := true;
        alsoGone := gone + {fd};
      } else if fd !in clis {
        ErasePoll(fd);
        reallyRemoved := true;
        WithoutMore(h.polls, removed, fd);
      }
    }

    /** The branch for a marked client without unsent output. */
    method RemoveFinished(fd: int, ghost h: Hall, ghost done: set<int>, ghost gone: set<int>, ghost removed: set<int>)
      requires Ready(h) && Sweeping(h, done, gone, removed) && fd !in done
      requires fd in clis && fd in h.clis && h.clis[fd].toSend == ""
      modifies this`chs, this`clis, this`polls
      ensures Sweeping(h, done + {fd}, gone + {fd}, removed + {fd})
      ensures old(Keyed()) ==> Keyed()
    {
      hide RoomSwept, Expelled, GoodRoom, Lower;
      MembersConnected(h, done, gone, removed);
      ghost var before, connected := chs, clis;
      EraseFromAll(fd);
      RoomsSwept(h, before, gone, fd, chs);
      hide InfosOf, Keyed;
      DropClient(fd);
      WithoutMore(h.polls, removed, fd);
      assert h.clis - gone - {fd} == h.clis - (gone + {fd});
    }

    method DropClient(fd: int)
      requires NoRepeats(polls)
      modifies this`clis, this`polls
      ensures InfosOf(clis) == old(InfosOf(clis)) - {fd} && polls == Without(old(polls), {fd})
      ensures old(Keyed()) ==> Keyed()
    {
      InfosWithout(clis, fd);
      clis := clis - {fd};
      ErasePoll(fd);
    }

    method EraseUnusedClis()
      requires Ready(State())
      modifies this
      ensures ClisSwept(old(State()), State())
      ensures old(Keyed()) ==> Keyed()
    {
      hide Ready, Sweeping;
      var reallyRemoved: set<int> := {};
      var todo := fdsToEraseNextIteration;
      ghost var h := State();
      ghost var gone: set<int> := {};
      SweepStarts();
      assert h.marked - todo == {};
      while todo != {}
        invariant todo <= h.marked
        invariant Ready(h) && Sweeping(h, h.marked - todo, gone, reallyRemoved)
        invariant old(Keyed()) ==> Keyed()
        decreases todo
      {
        ghost var next := Pick(todo);
        var fd :| fd in todo;
        var really;
        ghost var done := h.marked - todo;
        really, gone := SweepOne(fd, h, done, gone, reallyRemoved);
        if really {
          reallyRemoved := reallyRemoved + {fd};
        }
        assert reallyRemoved + {} == reallyRemoved;
        todo := todo - {fd};
        assert done + {fd} == h.marked - todo;
      }
      assert h.marked - todo == h.marked;
      SweepEnds(h, gone, reallyRemoved);
      fdsToEraseNextIteration := fdsToEraseNextIteration - reallyRemoved;
    }

    lemma SweepStarts()
      ensures Sweeping(State(), {}, {}, {})
    {
      WithoutNothing(polls);
      assert InfosOf(clis) - {} == InfosOf(clis);
      forall a | a in chs ensures RoomSwept(chs[a], {}, chs[a]) {
        assert chs[a].clis - {} == chs[a].clis;
      }
    }

    lemma SweepEnds(h: Hall, gone: set<int>, removed: set<int>)
      requires Sweeping(h, h.marked, gone, removed) && h.listener == fdForNewClis
      ensures ClisSwept(h, State().(marked := h.marked - removed))
      ensures fdsToEraseNextIteration == h.marked
    {
      assert h.marked - (h.marked - removed) == removed;
    }

    /** `eraseUnusedChs` */
    method EraseUnusedChs()
      modifies this`chs
      ensures State() == ChsSwept(old(State()))
    {
      var rest := chs.Keys;
      var toErases: set<string> := {};
      while rest != {}
        invariant rest <= chs.Keys && chs == old(chs)
        invariant toErases == set a | a in chs && a !in rest && chs[a].clis == {}
        decreases rest
      {
        ghost var next := Pick(rest);
        var a :| a in rest;
        if |chs[a].clis| == 0 {
          toErases := toErases + {a};
        }
        rest := rest - {a};
      }
      chs := chs - toErases;
    }

    /** What the event loop does first in every round. */
    method SweepUnused()
      requires Inv(State()) && Keyed()
      modifies this
      ensures Keyed() && Inv(State())
      ensures Next(old(State()), Sweep, State())
    {
      hide Inv;
      assert Ready(State()) by { InvReady(State()); }
      ghost var h := State();
      EraseUnusedClis();
      SweepExact(h, State());
      EraseUnusedChs();
    }

    lemma InvReady(h: Hall)
      requires Inv(h)
      ensures Ready(h)
    {
    }
  }
}
