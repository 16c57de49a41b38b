/** mariia: who may change what, in one request; and what requests undo. */
module NetAuthority {
  import opened Option
  import opened Strings
  import opened Tokens
  import opened Channel
  import opened ModeLog
  import opened Net
  import opened NetInvariant

  /** The channel of a name, if there is one. */
  function Lookup(chans: seq<Chan>, name: string): Option<Chan> {
    var i := Find(chans, name);
    if i < |chans| then Some(chans[i]) else None
  }

  /** What a client can bring about for itself in a channel: it can enter or leave, and give up what it had there.
      The settings stay, and all others stay members, operators and invited, or not, as they were. */
  predicate OwnDoing(c: Chan, d: Chan, actor: int) {
    && d.name == c.name && d.flags == c.flags && d.key == c.key && d.limit == c.limit
    && c.operators - {actor} <= d.operators <= c.operators
    && c.invited - {actor} <= d.invited <= c.invited
    && c.members - {actor} <= d.members <= c.members + {actor}
  }

  /** The same, the end of the channel included: it goes only if there was nobody else in it. */
  predicate OwnOutcome(before: Option<Chan>, after: Option<Chan>, actor: int) {
    match before
    case None => true
    case Some(c) => if after.Some? then OwnDoing(c, after.value, actor) else c.members <= {actor}
  }

  lemma OwnOutcomeTwice(a: Option<Chan>, b: Option<Chan>, c: Option<Chan>, actor: int)
    requires OwnOutcome(a, b, actor) && OwnOutcome(b, c, actor) && (b.None? ==> c.None?)
    ensures OwnOutcome(a, c, actor)
  {
  }

  lemma OwnDoingTwice(c: Chan, d: Chan, e: Chan, actor: int)
    requires OwnDoing(c, d, actor) && OwnDoing(d, e, actor)
    ensures OwnDoing(c, e, actor)
  {
  }

  lemma {:induction false} FindSet(chans: seq<Chan>, i: nat, c: Chan, name: string)
    requires i < |chans| && c.name == chans[i].name
    ensures Find(chans[i := c], name) == Find(chans, name)
    decreases |chans|
  {
    if i == 0 {
      assert chans[i := c][1..] == chans[1..];
    } else {
      assert chans[i := c][1..] == chans[1..][i - 1 := c];
      FindSet(chans[1..], i - 1, c, name);
    }
  }

  lemma {:induction false} FindSnoc(chans: seq<Chan>, c: Chan, name: string)
    ensures Find(chans + [c], name) == if Find(chans, name) < |chans| then Find(chans, name)
                                      else if c.name == Lower(name) then |chans| else |chans| + 1
    decreases |chans|
  {
    if chans == [] {
      assert [] + [c] == [c];
    } else {
      assert (chans + [c])[1..] == chans[1..] + [c];
      FindSnoc(chans[1..], c, name);
    }
  }

  lemma LookupCons(chans: seq<Chan>, name: string)
    requires chans != []
    ensures Lookup(chans, name) == if chans[0].name == Lower(name) then Some(chans[0]) else Lookup(chans[1..], name)
  {
  }

  lemma {:induction false} LookupRemoved(chans: seq<Chan>, i: nat, name: string)
    requires UniqueNames(chans) && i < |chans|
    ensures Lookup(chans[..i] + chans[i + 1..], name)
         == if chans[i].name == Lower(name) then None else Lookup(chans, name)
    decreases |chans|
  {
    var rest := chans[..i] + chans[i + 1..];
    if i == 0 {
      assert rest == chans[1..];
      if chans[0].name == Lower(name) {
        var j := Find(chans[1..], name);
        assert j < |chans[1..]| ==> chans[1..][j] == chans[j + 1];
      }
    } else {
      assert rest[1..] == chans[1..][..i - 1] + chans[1..][i..];
      assert rest[0] == chans[0];
      LookupRemoved(chans[1..], i - 1, name);
      LookupCons(chans, name);
      LookupCons(rest, name);
      hide Find, Lookup;
    }
  }

  // ----- one channel at a time -----

  lemma JoinOneOwn(n: Net, fd: int, name: string, key: string, x: string)
    requires fd in n.clients
    ensures var before, after := Lookup(n.chans, x), Lookup(JoinOne(n, fd, name, key).chans, x);
            before.Some? ==> after.Some? && OwnDoing(before.value, after.value, fd)
  {
    var i := Find(n.chans, name);
    if i < |n.chans| {
      FindSet(n.chans, i, n.chans[i].Enter(fd), x);
    } else {
      FindSnoc(n.chans, Created(name, key, fd), x);
    }
  }

  /** What one JOIN changes: nothing in the channels of other names; the client is in a known channel exactly if
      it was or may enter, and otherwise nothing about that channel changes; an unknown valid name opens a channel
      whose creator is its one member and operator. */
  lemma JoinOneLookup(n: Net, fd: int, name: string, key: string, x: string)
    requires fd in n.clients
    ensures var before, after := Lookup(n.chans, x), Lookup(JoinOne(n, fd, name, key).chans, x);
            if Lower(x) != Lower(name) then after == before
            else match before
                 case Some(c) =>
                   && after == Some(if MayEnter(c, fd, key) then c.Enter(fd) else c)
                   && (fd in after.value.members <==> fd in c.members || MayEnter(c, fd, key))
                 case None =>
                   if ValidChannelName(name) then
                     after.Some? && after.value.members == {fd} == after.value.operators && after.value.key == key
                   else after.None?
  {
    hide ValidName;
    var i := Find(n.chans, name);
    if Lower(x) == Lower(name) {
      SameName(n.chans, x, name);
    }
    if i < |n.chans| {
      FindSet(n.chans, i, n.chans[i].Enter(fd), x);
    } else {
      FindSnoc(n.chans, Created(name, key, fd), x);
    }
  }

  lemma {:induction false} JoinAllOwn(n: Net, fd: int, names: seq<string>, keys: seq<string>, x: string)
    requires fd in n.clients
    ensures var before, after := Lookup(n.chans, x), Lookup(JoinAll(n, fd, names, keys).chans, x);
            before.Some? ==> after.Some? && OwnDoing(before.value, after.value, fd)
    decreases |names|
  {
    hide JoinOne, Lookup, OwnDoing;
    var before := Lookup(n.chans, x);
    if before.Some? {
      NothingOwn(before.value, fd);
      if names != [] && |n.clients[fd].channels| != MAXCHANNELS {
        var key := if keys == [] then "" else keys[0];
        var m := JoinOne(n, fd, names[0], key);
        var rest := if keys == [] then [] else keys[1..];
        JoinOneOwn(n, fd, names[0], key, x);
        JoinOneClient(n, fd, names[0], key);
        JoinAllOwn(m, fd, names[1..], rest, x);
        OwnDoingTwice(before.value, Lookup(m.chans, x).value, Lookup(JoinAll(m, fd, names[1..], rest).chans, x).value, fd);
      }
    }
  }

  lemma NothingOwn(c: Chan, fd: int)
    ensures OwnDoing(c, c, fd)
  {
  }

  lemma JoinOneClient(n: Net, fd: int, name: string, key: string)
    requires fd in n.clients
    ensures fd in JoinOne(n, fd, name, key).clients
  {
  }

  /** Leaving a channel: the client is gone from it and from nowhere else, and the channel is gone if it was the
      last member. */
  lemma LeftLookup(n: Net, fd: int, i: nat, x: string)
    requires Inv(n) && fd in n.clients && i < |n.chans|
    ensures var before, after := Lookup(n.chans, x), Lookup(Left(n, fd, i).chans, x);
            if n.chans[i].name != Lower(x) then after == before
            else
              && before == Some(n.chans[i])
              && after == if n.chans[i].members <= {fd} then None else Some(Less(n.chans[i], fd))
  {
    hide GoodList, KeyAgrees;
    var c := n.chans[i].Leave(fd);
    var chans := n.chans[i := c];
    assert GoodChan(n.chans[i], n.clients.Keys);
    FindSet(n.chans, i, c, x);
    FindByName(n.chans, i);
    assert c.members == {} <==> n.chans[i].members <= {fd} by {
      forall g | g in n.chans[i].members ensures g == fd || g in c.members {}
    }
    if n.chans[i].name == Lower(x) {
      SameName(n.chans, n.chans[i].name, x);
    }
    if c.members == {} {
      MembershipsSet(n.chans, i, c, fd);
      FindByName(chans, i);
      LookupRemoved(chans, i, x);
    }
  }

  lemma {:induction false} SameName(chans: seq<Chan>, a: string, b: string)
    requires Lower(a) == Lower(b)
    ensures Find(chans, a) == Find(chans, b)
  {
    if chans != [] {
      SameName(chans[1..], a, b);
    }
  }

  lemma {:induction false} PartAllOwn(n: Net, fd: int, names: seq<string>, x: string)
    requires Inv(n) && fd in n.clients
    ensures var before, after := Lookup(n.chans, x), Lookup(PartAll(n, fd, names).chans, x);
            OwnOutcome(before, after, fd) && (before.None? ==> after.None?)
    decreases |names|
  {
    hide Lookup, OwnDoing, Inv, Left, PartOne;
    if names == [] {
      if Lookup(n.chans, x).Some? { NothingOwn(Lookup(n.chans, x).value, fd); }
    } else {
      var i := Find(n.chans, names[0]);
      var m := PartOne(n, fd, names[0]);
      PartAllKeeps(n, fd, [names[0]]);
      assert [names[0]][1..] == [] && PartAll(n, fd, [names[0]]) == m;
      PartOneOwn(n, fd, names[0], x);
      PartAllOwn(m, fd, names[1..], x);
      OwnOutcomeTwice(Lookup(n.chans, x), Lookup(m.chans, x), Lookup(PartAll(m, fd, names[1..]).chans, x), fd);
    }
  }

  lemma PartOneOwn(n: Net, fd: int, name: string, x: string)
    requires Inv(n) && fd in n.clients
    ensures fd in PartOne(n, fd, name).clients
    ensures var before, after := Lookup(n.chans, x), Lookup(PartOne(n, fd, name).chans, x);
            OwnOutcome(before, after, fd) && (before.None? ==> after.None?)
  {
    hide Inv, Left;
    var i := Find(n.chans, name);
    if i < |n.chans| && fd in n.chans[i].members {
      LeftLookup(n, fd, i, x);
      LeftClients(n, fd, i);
    }
  }

  lemma LeftClients(n: Net, fd: int, i: nat)
    requires fd in n.clients && i < |n.chans|
    ensures Left(n, fd, i).clients.Keys == n.clients.Keys
  {
  }

  // ----- one request -----

  /** Authority. In every reachable state, whatever one request of a client does to a channel of which it is not an
      operator before the request, concerns itself alone: it can bring itself in or out, and only the last member can
      make the channel go. Settings, operators, the invitations and the membership of others are left as they were. */
  lemma Authority(requests: seq<Request>, actor: int, tokens: seq<string>, name: string)
    ensures var n := Run(requests);
            var before, after := Lookup(n.chans, name), Lookup(Step(n, Line(actor, tokens)).chans, name);
            before.Some? && actor !in before.value.operators ==>
              && OwnOutcome(before, after, actor)
              && (after.Some? ==> after.value.operators == before.value.operators)
  {
    hide Lookup, Step, OwnOutcome;
    Reachable(requests);
    LineAuthority(Run(requests), actor, tokens, name);
  }

  lemma LineAuthority(n: Net, actor: int, tokens: seq<string>, name: string)
    requires Inv(n)
    ensures var before, after := Lookup(n.chans, name), Lookup(Step(n, Line(actor, tokens)).chans, name);
            before.Some? && actor !in before.value.operators ==>
              && OwnOutcome(before, after, actor)
              && (after.Some? ==> after.value.operators == before.value.operators)
  {
    hide Inv, Left, JoinAll, PartAll, Turns, Kick, Invite, Mode, Lookup, OwnDoing;
    var before := Lookup(n.chans, name);
    if before.Some? && actor !in before.value.operators {
      OperatorsStay(before, Lookup(Step(n, Line(actor, tokens)).chans, name), actor);
      NothingOwn(before.value, actor);
      if actor in n.clients && |tokens| >= 2 {
        JoinAllOwn(n, actor, UniqueSorted(Pieces(tokens[1])), if |tokens| > 2 then Pieces(tokens[2]) else [], name);
        PartAllOwn(n, actor, UniqueSorted(Pieces(tokens[1])), name);
      }
      KickByOperator(n, actor, tokens, name);
      InviteByOperator(n, actor, tokens, name);
      ModeByOperator(n, actor, tokens, name);
    }
  }

  lemma OperatorsStay(before: Option<Chan>, after: Option<Chan>, actor: int)
    requires before.Some? && actor !in before.value.operators
    ensures OwnOutcome(before, after, actor) && after.Some? ==> after.value.operators == before.value.operators
  {
  }

  lemma KickByOperator(n: Net, actor: int, tokens: seq<string>, name: string)
    requires Inv(n)
    ensures var before := Lookup(n.chans, name);
            before.Some? && actor !in before.value.operators ==> Lookup(Kick(n, actor, tokens).chans, name) == before
  {
    hide Inv, Left;
    if |tokens| >= 3 && Lookup(n.chans, name).Some? {
      var i := Find(n.chans, tokens[1]);
      var target := FindNick(NicksOf(n.clients), tokens[2]);
      if target.Some? && i < |n.chans| {
        LeftLookup(n, target.value, i, name);
      }
    }
  }

  lemma InviteByOperator(n: Net, actor: int, tokens: seq<string>, name: string)
    requires Inv(n)
    ensures var before := Lookup(n.chans, name);
            before.Some? && actor !in before.value.operators ==> Lookup(Invite(n, actor, tokens).chans, name) == before
  {
    if |tokens| >= 3 && Lookup(n.chans, name).Some? {
      var i := Find(n.chans, tokens[2]);
      var guest := FindNick(NicksOf(n.clients), tokens[1]);
      if guest.Some? && i < |n.chans| {
        FindSet(n.chans, i, n.chans[i].(invited := n.chans[i].invited + {guest.value}), name);
      }
    }
  }

  lemma ModeByOperator(n: Net, actor: int, tokens: seq<string>, name: string)
    requires Inv(n)
    ensures var before := Lookup(n.chans, name);
            before.Some? && actor !in before.value.operators ==> Lookup(Mode(n, actor, tokens).chans, name) == before
  {
    hide Turns, GoodList;
    if ModeAllowed(n, actor, tokens) {
      var i := Find(n.chans, tokens[1]);
      TurnsGood(Start(n.chans[i], tokens[3..]), tokens[2], NicksOf(n.clients), n.clients.Keys);
      FindSet(n.chans, i, View(ModeLoop(n, i, tokens).chan), name);
    }
  }

  // ----- requests that undo one another -----

  lemma {:induction false} RemoveLast(list: seq<string>, s: string)
    requires s !in list
    ensures RemoveFirst(list + [s], s) == list
  {
    if list == [] {
      assert [] + [s] == [s] && [s][1..] == [];
    } else {
      assert (list + [s])[1..] == list[1..] + [s];
      RemoveLast(list[1..], s);
    }
  }

  /** PART undoes JOIN: entering a channel under a lower-case name and leaving it again restores everything but an
      invitation, which has been used up. */
  lemma JoinThenPart(n: Net, fd: int, name: string, key: string)
    requires Inv(n) && fd in n.clients && |n.clients[fd].channels| < MAXCHANNELS
    requires IsLower(name) && name !in Memberships(n.chans, fd)
    ensures var back := PartOne(JoinOne(n, fd, name, key), fd, name);
            var i := Find(n.chans, name);
            back == if i < |n.chans| && MayEnter(n.chans[i], fd, key)
                    then SetChan(n, i, n.chans[i].(invited := n.chans[i].invited - {fd})) else n
  {
    var i := Find(n.chans, name);
    var m := JoinOne(n, fd, name, key);
    assert name !in n.clients[fd].channels by {
      assert GoodList(n.clients[fd].channels, Memberships(n.chans, fd));
    }
    RemoveLast(n.clients[fd].channels, name);
    if i < |n.chans| {
      assert fd !in n.chans[i].members;
      if MayEnter(n.chans[i], fd, key) {
        JoinThenPartOld(n, fd, i);
      }
    } else if ValidChannelName(name) {
      JoinThenPartNew(n, fd, name, key);
    }
  }

  lemma JoinThenPartOld(n: Net, fd: int, i: nat)
    requires Inv(n) && fd in n.clients && i < |n.chans| && fd !in n.chans[i].members
    requires RemoveFirst(n.clients[fd].channels + [n.chans[i].name], n.chans[i].name) == n.clients[fd].channels
    ensures var name := n.chans[i].name;
            var m := Listed(SetChan(n, i, n.chans[i].Enter(fd)), fd, name);
            PartOne(m, fd, name) == SetChan(n, i, n.chans[i].(invited := n.chans[i].invited - {fd}))
  {
    var c := n.chans[i];
    var m := Listed(SetChan(n, i, c.Enter(fd)), fd, c.name);
    assert GoodChan(c, n.clients.Keys);
    FindByName(n.chans, i);
    FindSet(n.chans, i, c.Enter(fd), c.name);
    var d := c.Enter(fd).Leave(fd);
    assert d.members == c.members && d.operators == c.operators && d.invited == c.invited - {fd};
    assert m.chans[i := d] == n.chans[i := d];
    assert Unlisted(SetChan(m, i, d), fd, c.name).clients == n.clients;
  }

  lemma JoinThenPartNew(n: Net, fd: int, name: string, key: string)
    requires Inv(n) && fd in n.clients && IsLower(name) && Find(n.chans, name) == |n.chans|
    requires RemoveFirst(n.clients[fd].channels + [name], name) == n.clients[fd].channels
    ensures PartOne(Listed(n.(chans := n.chans + [Created(name, key, fd)]), fd, name), fd, name) == n
  {
    var c := Created(name, key, fd);
    var k := |n.chans|;
    var m := Listed(n.(chans := n.chans + [c]), fd, name);
    var d := c.Leave(fd);
    FindSnoc(n.chans, c, name);
    FindSnoc(n.chans, d, name);
    assert d.members == {};
    assert m.chans[k := d] == n.chans + [d];
    assert (n.chans + [d])[..k] + (n.chans + [d])[k + 1..] == n.chans;
    assert Unlisted(SetChan(m, k, d), fd, name).clients == n.clients;
  }

  /** An operator invites `guest`, who is not in the channel. */
  ghost predicate Invites(n: Net, actor: int, tokens: seq<string>, guest: int) {
    && |tokens| >= 3 && FindNick(NicksOf(n.clients), tokens[1]) == Some(guest)
    && var c := Lookup(n.chans, tokens[2]);
       c.Some? && actor in c.value.operators && guest !in c.value.members
  }

  /** An invitation opens a closed channel once. Uninvited, the guest's JOIN changes nothing; after an operator's
      INVITE it lets the guest in exactly if the key is right and there is room; and once the guest has entered
      and left with PART, no JOIN of that channel changes anything again. */
  lemma InvitedOnce(n: Net, actor: int, tokens: seq<string>, guest: int, key: string)
    requires Inv(n) && Invites(n, actor, tokens, guest) && InviteOnly in Lookup(n.chans, tokens[2]).value.flags
    ensures guest in n.clients && guest in Invite(n, actor, tokens).clients
    ensures var name := tokens[2];
            var c := Lookup(n.chans, name).value;
            var inside := JoinOne(Invite(n, actor, tokens), guest, name, key);
            && (guest !in c.invited ==> JoinOne(n, guest, name, key) == n)
            && Lookup(inside.chans, name).Some?
            && (guest in Lookup(inside.chans, name).value.members <==>
                  key == c.key && !(LimitSet in c.flags && |c.members| == c.limit))
    ensures var name := tokens[2];
            var inside := JoinOne(Invite(n, actor, tokens), guest, name, key);
            && guest in inside.clients
            && (guest in Lookup(inside.chans, name).value.members ==>
                  var outside := PartOne(inside, guest, name);
                  guest in outside.clients && forall again :: JoinOne(outside, guest, name, again) == outside)
  {
    hide Left, GoodList;
    var name := tokens[2];
    var i := Find(n.chans, name);
    var c := n.chans[i];
    assert GoodChan(c, n.clients.Keys);
    var invited := Invite(n, actor, tokens);
    FindSet(n.chans, i, c.(invited := c.invited + {guest}), name);
    InviteKeeps(n, actor, tokens);
    JoinOneLookup(invited, guest, name, key, name);
    var inside := JoinOne(invited, guest, name, key);
    if guest in Lookup(inside.chans, name).value.members {
      OutForGood(invited, guest, name, key, actor);
    }
  }

  /** Who enters a closed channel and leaves it does not enter again. */
  lemma OutForGood(n: Net, guest: int, name: string, key: string, other: int)
    requires Inv(n) && guest in n.clients && Find(n.chans, name) < |n.chans|
    requires MayEnter(n.chans[Find(n.chans, name)], guest, key) && InviteOnly in n.chans[Find(n.chans, name)].flags
    requires other in n.chans[Find(n.chans, name)].members
    ensures var outside := PartOne(JoinOne(n, guest, name, key), guest, name);
            guest in outside.clients && forall again :: JoinOne(outside, guest, name, again) == outside
  {
    hide GoodList;
    var i := Find(n.chans, name);
    var c := n.chans[i];
    var inside := JoinOne(n, guest, name, key);
    FindSet(n.chans, i, c.Enter(guest), name);
    var d := c.Enter(guest).Leave(guest);
    assert other in d.members;
    var outside := PartOne(inside, guest, name);
    assert outside == Unlisted(SetChan(inside, i, d), guest, d.name);
    FindSet(inside.chans, i, d, name);
  }
}
