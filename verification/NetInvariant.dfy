/** mariia: what holds in every state that any run of requests can reach. */
module NetInvariant {
  import opened Strings
  import opened Tokens
  import opened Channel
  import opened ModeLog
  import opened Net

  predicate IsLower(s: string) {
    Lower(s) == s
  }

  ghost predicate GoodChan(c: Chan, connected: set<int>) {
    && IsLower(c.name)
    && c.members != {}
    && c.operators <= c.members
    && c.invited !! c.members
    && c.members <= connected && c.invited <= connected
    && KeyAgrees(c)
    && (LimitSet in c.flags ==> |c.members| <= c.limit)
    && View(c) == c
  }

  /** A channel without this client: not a member, not an operator, not invited; everything else as it was. */
  function Less(c: Chan, fd: int): Chan {
    Chan(c.name, c.flags, c.key, c.limit, c.members - {fd}, c.operators - {fd}, c.invited - {fd})
  }

  /** A channel with this client as one more member, whose invitation is used up; everything else as it was. */
  function More(c: Chan, fd: int): Chan {
    Chan(c.name, c.flags, c.key, c.limit, c.members + {fd}, c.operators, c.invited - {fd})
  }

  ghost predicate UniqueNames(chans: seq<Chan>) {
    forall i, j :: 0 <= i < j < |chans| ==> chans[i].name != chans[j].name
  }

  /** The names of the channels a descriptor is a member of. */
  ghost function Memberships(chans: seq<Chan>, fd: int): set<string> {
    set i | 0 <= i < |chans| && fd in chans[i].members :: chans[i].name
  }

  /** How a client's own list relates to its memberships, whatever the case of the names in it: the lower-case
      names on it are memberships, without repeats, and every membership is named on it up to case. */
  ghost predicate GoodList(list: seq<string>, memberships: set<string>) {
    && |list| <= MAXCHANNELS
    && (forall i, j :: 0 <= i < j < |list| && IsLower(list[i]) ==> list[i] != list[j])
    && (forall e :: e in list && IsLower(e) ==> e in memberships)
    && (forall m :: m in memberships ==> exists e :: e in list && Lower(e) == m)
  }

  ghost predicate Inv(n: Net) {
    && UniqueNames(n.chans)
    && (forall i :: 0 <= i < |n.chans| ==> GoodChan(n.chans[i], n.clients.Keys))
    && (forall fd :: fd in n.clients ==> GoodList(n.clients[fd].channels, Memberships(n.chans, fd)))
  }

  // ----- a client's own list -----

  lemma ListAdd(list: seq<string>, memberships: set<string>, name: string)
    requires GoodList(list, memberships) && |list| < MAXCHANNELS && Lower(name) !in memberships
    ensures GoodList(list + [name], memberships + {Lower(name)})
  {
    var longer := list + [name];
    forall m | m in memberships + {Lower(name)} ensures exists e :: e in longer && Lower(e) == m {
      if m == Lower(name) {
        assert name in longer;
      } else {
        var e :| e in list && Lower(e) == m;
        assert e in longer;
      }
    }
  }

  lemma {:induction false} RemoveFirstIn(list: seq<string>, s: string)
    ensures forall e :: e in RemoveFirst(list, s) ==> e in list
    ensures forall e :: e in list && e != s ==> e in RemoveFirst(list, s)
    ensures |RemoveFirst(list, s)| <= |list|
  {
    if list != [] {
      RemoveFirstIn(list[1..], s);
      assert list == [list[0]] + list[1..];
    }
  }

  ghost predicate LowerDistinct(list: seq<string>) {
    forall i, j :: 0 <= i < j < |list| && IsLower(list[i]) ==> list[i] != list[j]
  }

  lemma {:induction false} RemoveFirstDistinct(list: seq<string>, s: string)
    requires LowerDistinct(list)
    ensures LowerDistinct(RemoveFirst(list, s))
    ensures IsLower(s) ==> s !in RemoveFirst(list, s)
  {
    hide IsLower;
    if list != [] {
      var rest := list[1..];
      assert LowerDistinct(rest);
      RemoveFirstDistinct(rest, s);
      RemoveFirstIn(rest, s);
      var r := RemoveFirst(list, s);
      if list[0] == s {
        assert forall j :: 0 <= j < |rest| ==> rest[j] == list[j + 1];
      } else {
        assert r == [list[0]] + RemoveFirst(rest, s);
        forall j | 0 < j < |r| && IsLower(r[0]) ensures r[0] != r[j] {
          assert r[j] in rest;
          var k :| 0 <= k < |rest| && rest[k] == r[j];
          assert list[k + 1] == r[j];
        }
      }
    }
  }

  lemma ListRemove(list: seq<string>, memberships: set<string>, name: string)
    requires GoodList(list, memberships) && IsLower(name)
    ensures GoodList(RemoveFirst(list, name), memberships - {name})
  {
    RemoveFirstIn(list, name);
    RemoveFirstDistinct(list, name);
    var shorter := RemoveFirst(list, name);
    forall m | m in memberships - {name} ensures exists e :: e in shorter && Lower(e) == m {
      var e :| e in list && Lower(e) == m;
      assert e in shorter;
    }
  }

  // ----- memberships under changes of one channel -----

  lemma FindByName(chans: seq<Chan>, i: nat)
    requires UniqueNames(chans) && i < |chans| && IsLower(chans[i].name)
    ensures Find(chans, chans[i].name) == i
  {
  }

  lemma MembershipsSet(chans: seq<Chan>, i: nat, c: Chan, fd: int)
    requires UniqueNames(chans) && i < |chans| && c.name == chans[i].name
    ensures UniqueNames(chans[i := c])
    ensures Memberships(chans[i := c], fd)
         == if fd in c.members then Memberships(chans, fd) + {c.name} else Memberships(chans, fd) - {c.name}
  {
    var after := chans[i := c];
    forall j | 0 <= j < |chans| ensures after[j].name == chans[j].name {}
    forall m ensures m in Memberships(after, fd) <==>
                     if m == c.name then fd in c.members else m in Memberships(chans, fd)
    {
      if m == c.name {
        assert after[i].name == m;
      } else if m in Memberships(chans, fd) {
        var j :| 0 <= j < |chans| && fd in chans[j].members && chans[j].name == m;
        assert after[j] == chans[j];
      }
    }
  }

  lemma MembershipsSnoc(chans: seq<Chan>, c: Chan, fd: int)
    ensures Memberships(chans + [c], fd)
         == if fd in c.members then Memberships(chans, fd) + {c.name} else Memberships(chans, fd)
  {
    var after := chans + [c];
    forall m | m in Memberships(chans, fd) ensures m in Memberships(after, fd) {
      var j :| 0 <= j < |chans| && fd in chans[j].members && chans[j].name == m;
      assert after[j] == chans[j];
    }
    if fd in c.members {
      assert after[|chans|] == c;
    }
  }

  /** Dropping a channel without members changes nobody's memberships. */
  lemma MembershipsRemove(chans: seq<Chan>, i: nat, fd: int)
    requires UniqueNames(chans) && i < |chans| && chans[i].members == {}
    ensures UniqueNames(chans[..i] + chans[i + 1..])
    ensures Memberships(chans[..i] + chans[i + 1..], fd) == Memberships(chans, fd)
  {
    var after := chans[..i] + chans[i + 1..];
    forall j | 0 <= j < |after| ensures after[j] == chans[if j < i then j else j + 1] {}
    forall m | m in Memberships(chans, fd) ensures m in Memberships(after, fd) {
      var j :| 0 <= j < |chans| && fd in chans[j].members && chans[j].name == m;
      assert after[if j < i then j else j - 1] == chans[j];
    }
  }

  // ----- each change keeps the invariant -----

  /** Replacing a channel by one of the same name and members. */
  lemma SetKeeps(n: Net, i: nat, c: Chan)
    requires Inv(n) && i < |n.chans|
    requires c.name == n.chans[i].name && c.members == n.chans[i].members && GoodChan(c, n.clients.Keys)
    ensures Inv(SetChan(n, i, c))
  {
    hide GoodList;
    var m := SetChan(n, i, c);
    forall fd ensures Memberships(m.chans, fd) == Memberships(n.chans, fd) {
      MembershipsSet(n.chans, i, c, fd);
      MembershipIs(n.chans, i, fd);
    }
    MembershipsSet(n.chans, i, c, 0);
  }

  lemma MembershipIs(chans: seq<Chan>, i: nat, fd: int)
    requires UniqueNames(chans) && i < |chans|
    ensures chans[i].name in Memberships(chans, fd) <==> fd in chans[i].members
  {
  }

  lemma EnterKeeps(n: Net, fd: int, i: nat, key: string)
    requires Inv(n) && fd in n.clients && |n.clients[fd].channels| < MAXCHANNELS
    requires i < |n.chans| && MayEnter(n.chans[i], fd, key)
    ensures Inv(Listed(SetChan(n, i, n.chans[i].Enter(fd)), fd, n.chans[i].name))
  {
    hide GoodList;
    var c := n.chans[i].Enter(fd);
    var m := Listed(SetChan(n, i, c), fd, c.name);
    assert |c.members| == |n.chans[i].members| + 1;
    assert GoodChan(c, m.clients.Keys);
    forall g | g in m.clients ensures GoodList(m.clients[g].channels, Memberships(m.chans, g)) {
      MembershipsSet(n.chans, i, c, g);
      MembershipIs(n.chans, i, g);
      if g == fd {
        ListAdd(n.clients[fd].channels, Memberships(n.chans, fd), c.name);
      } else {
        assert Memberships(m.chans, g) == Memberships(n.chans, g);
      }
    }
    MembershipsSet(n.chans, i, c, fd);
  }

  lemma CreateKeeps(n: Net, fd: int, name: string, key: string)
    requires Inv(n) && fd in n.clients && |n.clients[fd].channels| < MAXCHANNELS
    requires Find(n.chans, name) == |n.chans|
    ensures Inv(Listed(n.(chans := n.chans + [Created(name, key, fd)]), fd, name))
  {
    hide GoodList;
    var c := Created(name, key, fd);
    var m := Listed(n.(chans := n.chans + [c]), fd, name);
    LowerTwice(name);
    assert GoodChan(c, m.clients.Keys);
    forall g | g in m.clients ensures GoodList(m.clients[g].channels, Memberships(m.chans, g)) {
      MembershipsSnoc(n.chans, c, g);
      if g == fd {
        ListAdd(n.clients[fd].channels, Memberships(n.chans, fd), name);
      }
    }
  }

  lemma LeaveKeeps(n: Net, fd: int, i: nat)
    requires Inv(n) && fd in n.clients && i < |n.chans|
    ensures Inv(Left(n, fd, i))
  {
    hide GoodList;
    var c := n.chans[i].Leave(fd);
    var m := Unlisted(SetChan(n, i, c), fd, c.name);
    LeaveGood(n.chans[i], n.clients.Keys, fd);
    MembershipsSet(n.chans, i, c, fd);
    forall g | g in n.clients ensures GoodList(m.clients[g].channels, Memberships(m.chans, g)) {
      MembershipsSet(n.chans, i, c, g);
      MembershipIs(n.chans, i, g);
      if g == fd {
        ListRemove(n.clients[fd].channels, Memberships(n.chans, fd), c.name);
      } else {
        assert Memberships(m.chans, g) == Memberships(n.chans, g);
      }
    }
    assert m.clients.Keys == n.clients.Keys;
    if c.members == {} {
      RemoveEmptyKeeps(m, i);
    }
  }

  /** A channel that has become empty goes; everything else was good and stays so. */
  lemma RemoveEmptyKeeps(m: Net, i: nat)
    requires UniqueNames(m.chans) && i < |m.chans| && IsLower(m.chans[i].name) && m.chans[i].members == {}
    requires forall j :: 0 <= j < |m.chans| && j != i ==> GoodChan(m.chans[j], m.clients.Keys)
    requires forall g :: g in m.clients ==> GoodList(m.clients[g].channels, Memberships(m.chans, g))
    ensures Inv(Unchannelled(m, m.chans[i].name))
  {
    hide GoodList, GoodChan;
    var r := Unchannelled(m, m.chans[i].name);
    FindByName(m.chans, i);
    forall g | g in m.clients ensures GoodList(r.clients[g].channels, Memberships(r.chans, g)) {
      MembershipsRemove(m.chans, i, g);
    }
    MembershipsRemove(m.chans, i, 0);
    forall j | 0 <= j < |r.chans| ensures GoodChan(r.chans[j], r.clients.Keys) {
      assert r.chans[j] == m.chans[if j < i then j else j + 1];
    }
  }

  /** A channel that somebody leaves stays good, unless it is empty. */
  lemma LeaveGood(c: Chan, connected: set<int>, fd: int)
    requires GoodChan(c, connected)
    ensures c.Leave(fd).members != {} ==> GoodChan(c.Leave(fd), connected) && GoodChan(c.Leave(fd), connected - {fd})
    ensures IsLower(c.Leave(fd).name) && c.Leave(fd).name == c.name
  {
    if fd !in c.members {
      assert c.members - {fd} == c.members;
    }
  }

  /** A client's entry may change in anything but its list. */
  lemma ClientKeeps(n: Net, fd: int, client: Cli)
    requires Inv(n)
    requires if fd in n.clients then client.channels == n.clients[fd].channels
             else client.channels == []
    ensures Inv(n.(clients := n.clients[fd := client]))
  {
    var m := n.(clients := n.clients[fd := client]);
    if fd !in n.clients {
      if x :| x in Memberships(n.chans, fd) {
        var j :| 0 <= j < |n.chans| && fd in n.chans[j].members && n.chans[j].name == x;
        assert GoodChan(n.chans[j], n.clients.Keys);
      }
    }
  }

  // ----- the end of a connection -----

  lemma {:induction false} SweptIn(chans: seq<Chan>, fd: int, c: Chan)
    ensures c in Swept(chans, fd) <==> c.members != {} && exists i :: 0 <= i < |chans| && chans[i].Leave(fd) == c
  {
    if chans != [] {
      var front := chans[..|chans| - 1];
      SweptIn(front, fd, c);
      if i :| 0 <= i < |front| && front[i].Leave(fd) == c {
        assert chans[i].Leave(fd) == c;
      }
    }
  }

  lemma {:induction false} SweptUnique(chans: seq<Chan>, fd: int)
    requires UniqueNames(chans)
    ensures UniqueNames(Swept(chans, fd))
  {
    if chans != [] {
      var front, last := chans[..|chans| - 1], chans[|chans| - 1];
      SweptUnique(front, fd);
      forall c | c in Swept(front, fd) ensures c.name != last.name {
        SweptIn(front, fd, c);
      }
    }
  }

  lemma SweptMemberships(chans: seq<Chan>, fd: int, g: int)
    requires g != fd
    ensures Memberships(Swept(chans, fd), g) == Memberships(chans, g)
  {
    var after := Swept(chans, fd);
    forall m | m in Memberships(after, g) ensures m in Memberships(chans, g) {
      var j :| 0 <= j < |after| && g in after[j].members && after[j].name == m;
      SweptIn(chans, fd, after[j]);
    }
    forall m | m in Memberships(chans, g) ensures m in Memberships(after, g) {
      var j :| 0 <= j < |chans| && g in chans[j].members && chans[j].name == m;
      var c := chans[j].Leave(fd);
      assert g in c.members;
      SweptIn(chans, fd, c);
      var k :| 0 <= k < |after| && after[k] == c;
    }
  }

  lemma DisconnectKeeps(n: Net, fd: int)
    requires Inv(n)
    ensures Inv(Disconnect(n, fd))
  {
    hide GoodList;
    var m := Disconnect(n, fd);
    SweptUnique(n.chans, fd);
    forall i | 0 <= i < |m.chans| ensures GoodChan(m.chans[i], m.clients.Keys) {
      assert m.chans[i] in m.chans;
      SweptIn(n.chans, fd, m.chans[i]);
      var j :| 0 <= j < |n.chans| && n.chans[j].Leave(fd) == m.chans[i];
      LeaveGood(n.chans[j], n.clients.Keys, fd);
      assert m.clients.Keys == n.clients.Keys - {fd};
    }
    forall g | g in m.clients ensures GoodList(m.clients[g].channels, Memberships(m.chans, g)) {
      SweptMemberships(n.chans, fd, g);
    }
  }

  /** After a disconnect no channel mentions the client; a channel is gone exactly if the client was its only member;
      the others have lost the client and nothing else; and the other clients are as they were. */
  lemma DisconnectExact(n: Net, fd: int)
    requires Inv(n)
    ensures var m := Disconnect(n, fd);
            && m.clients.Keys == n.clients.Keys - {fd} && (forall g :: g in m.clients ==> m.clients[g] == n.clients[g])
            && (forall c :: c in m.chans ==> fd !in c.members && fd !in c.operators && fd !in c.invited)
            && (forall c :: c in n.chans ==>
                 ((c.members != {fd} <==> Less(c, fd) in m.chans) && (c.members == {fd} ==> forall d :: d in m.chans ==> d.name != c.name)))
            && (forall d :: d in m.chans ==> exists c :: c in n.chans && Less(c, fd) == d)
  {
    assert forall c: Chan :: Less(c, fd) == c.Leave(fd);
    hide GoodChan, GoodList, Swept;
    var m := Disconnect(n, fd);
    forall d | d in m.chans ensures exists c :: c in n.chans && Less(c, fd) == d {
      SweptIn(n.chans, fd, d);
      var j :| 0 <= j < |n.chans| && n.chans[j].Leave(fd) == d;
      assert n.chans[j] in n.chans && Less(n.chans[j], fd) == d;
    }
    forall c | c in n.chans
      ensures c.members != {fd} <==> Less(c, fd) in m.chans
      ensures c.members == {fd} ==> forall d :: d in m.chans ==> d.name != c.name
    {
      var i :| 0 <= i < |n.chans| && n.chans[i] == c;
      SweptOut(n, fd, i);
    }
  }

  /** What a disconnection does to one channel. */
  lemma SweptOut(n: Net, fd: int, i: nat)
    requires Inv(n) && i < |n.chans|
    ensures var c := n.chans[i];
            var after := Swept(n.chans, fd);
            && (c.members != {fd} <==> c.Leave(fd) in after)
            && (c.members == {fd} ==> forall d :: d in after ==> d.name != c.name)
  {
    hide Swept, GoodList, KeyAgrees;
    var c := n.chans[i];
    assert GoodChan(c, n.clients.Keys);
    SweptIn(n.chans, fd, c.Leave(fd));
    assert c.members == {fd} <==> c.members - {fd} == {};
    forall d | d in Swept(n.chans, fd) && d.name == c.name ensures c.members != {fd} {
      SweptIn(n.chans, fd, d);
      var j :| 0 <= j < |n.chans| && n.chans[j].Leave(fd) == d;
      assert i == j;
    }
  }

  // ----- MODE -----

  /** A mode letter keeps the name and the members, and a good channel good. */
  lemma HandleGood(c: Chan, sign: char, mode: char, parameter: string, nicks: Nicks, connected: set<int>)
    requires GoodChan(View(c), connected) && Sign(sign)
    ensures var d := Handle(c, sign, mode, parameter, nicks).chan;
            GoodChan(View(d), connected) && d.name == c.name && d.members == c.members
  {
    hide ValidName, ParseInt, FindNick, IsLower;
    NothingNamed();
  }

  lemma {:induction false} TurnsGood(l: Loop, modes: string, nicks: Nicks, connected: set<int>)
    requires GoodChan(View(l.chan), connected) && Sign(l.settingMode)
    ensures var d := Turns(l, modes, nicks).chan;
            GoodChan(View(d), connected) && d.name == l.chan.name && d.members == l.chan.members
    decreases |modes|
  {
    hide Handle, GoodChan, View;
    if modes != "" {
      var m := modes[0];
      var parameter := if Needed(l.settingMode, m) && l.rest != [] then l.rest[0] else "";
      HandleGood(l.chan, l.settingMode, m, parameter, nicks, connected);
      TurnsGood(Turn(l, m, nicks), modes[1..], nicks, connected);
    }
  }

  lemma ModeKeeps(n: Net, fd: int, tokens: seq<string>)
    requires Inv(n)
    ensures Inv(Mode(n, fd, tokens))
  {
    hide GoodList, Turns;
    if ModeAllowed(n, fd, tokens) {
      var i := Find(n.chans, tokens[1]);
      var l := Start(n.chans[i], tokens[3..]);
      TurnsGood(l, tokens[2], NicksOf(n.clients), n.clients.Keys);
      SetKeeps(n, i, View(ModeLoop(n, i, tokens).chan));
    }
  }

  // ----- every request -----

  lemma JoinOneKeeps(n: Net, fd: int, name: string, key: string)
    requires Inv(n) && fd in n.clients && |n.clients[fd].channels| < MAXCHANNELS
    ensures Inv(JoinOne(n, fd, name, key)) && fd in JoinOne(n, fd, name, key).clients
  {
    hide Inv;
    var i := Find(n.chans, name);
    if i < |n.chans| {
      if MayEnter(n.chans[i], fd, key) {
        EnterKeeps(n, fd, i, key);
      }
    } else if ValidChannelName(name) {
      CreateKeeps(n, fd, name, key);
    }
  }

  lemma {:induction false} JoinAllKeeps(n: Net, fd: int, names: seq<string>, keys: seq<string>)
    requires Inv(n) && fd in n.clients
    ensures Inv(JoinAll(n, fd, names, keys))
    decreases |names|
  {
    hide JoinOne;
    if names != [] && |n.clients[fd].channels| != MAXCHANNELS {
      assert GoodList(n.clients[fd].channels, Memberships(n.chans, fd));
      var key := if keys == [] then "" else keys[0];
      JoinOneKeeps(n, fd, names[0], key);
      JoinAllKeeps(JoinOne(n, fd, names[0], key), fd, names[1..], if keys == [] then [] else keys[1..]);
    }
  }

  lemma {:induction false} PartAllKeeps(n: Net, fd: int, names: seq<string>)
    requires Inv(n) && fd in n.clients
    ensures Inv(PartAll(n, fd, names))
    decreases |names|
  {
    hide Inv;
    if names != [] {
      var i := Find(n.chans, names[0]);
      if i < |n.chans| && fd in n.chans[i].members {
        LeaveKeeps(n, fd, i);
      }
      PartAllKeeps(PartOne(n, fd, names[0]), fd, names[1..]);
    }
  }

  lemma KickKeeps(n: Net, fd: int, tokens: seq<string>)
    requires Inv(n)
    ensures Inv(Kick(n, fd, tokens))
  {
    hide Inv, Left;
    if |tokens| >= 3 {
      var i := Find(n.chans, tokens[1]);
      var target := FindNick(NicksOf(n.clients), tokens[2]);
      if target.Some? && i < |n.chans| {
        LeaveKeeps(n, target.value, i);
      }
    }
  }

  lemma InviteKeeps(n: Net, fd: int, tokens: seq<string>)
    requires Inv(n)
    ensures Inv(Invite(n, fd, tokens))
  {
    hide GoodList;
    if |tokens| >= 3 {
      var guest := FindNick(NicksOf(n.clients), tokens[1]);
      var i := Find(n.chans, tokens[2]);
      if guest.Some? && i < |n.chans| && guest.value !in n.chans[i].members {
        SetKeeps(n, i, n.chans[i].(invited := n.chans[i].invited + {guest.value}));
      }
    }
  }

  lemma StepKeeps(n: Net, r: Request)
    requires Inv(n)
    ensures Inv(Step(n, r))
  {
    hide Inv, Join, Part, Kick, Invite, Mode;
    match r {
      case Accept(fd) =>
        if fd !in n.clients { ClientKeeps(n, fd, NEWCOMER); }
      case Nick(fd, nick) =>
        if fd in n.clients { ClientKeeps(n, fd, n.clients[fd].(nick := Lower(nick))); }
      case Register(fd) =>
        if fd in n.clients { ClientKeeps(n, fd, n.clients[fd].(registered := true)); }
      case Drop(fd) => DisconnectKeeps(n, fd);
      case Line(fd, tokens) =>
        if fd in n.clients && tokens != [] {
          LineKeeps(n, fd, tokens);
        }
    }
  }

  lemma LineKeeps(n: Net, fd: int, tokens: seq<string>)
    requires Inv(n) && fd in n.clients && tokens != []
    ensures Inv(Perform(n, fd, tokens))
  {
    hide Inv, JoinAll, PartAll, Kick, Invite, Mode;
    if |tokens| >= 2 {
      JoinAllKeeps(n, fd, UniqueSorted(Pieces(tokens[1])), if |tokens| > 2 then Pieces(tokens[2]) else []);
      PartAllKeeps(n, fd, UniqueSorted(Pieces(tokens[1])));
    }
    KickKeeps(n, fd, tokens);
    InviteKeeps(n, fd, tokens);
    ModeKeeps(n, fd, tokens);
    ClientKeeps(n, fd, n.clients[fd].(quitting := true));
  }

  /** The invariant holds after every run. */
  lemma {:induction false} Reachable(requests: seq<Request>)
    ensures Inv(Run(requests))
    decreases |requests|
  {
    if requests == [] {
      assert Memberships([], 0) == {};
    } else {
      Reachable(requests[..|requests| - 1]);
      StepKeeps(Run(requests[..|requests| - 1]), requests[|requests| - 1]);
    }
  }
}
