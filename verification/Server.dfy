/** mariia: the server with its channels and clients as objects, each request method proved against `Net`. */
module Server {
  import opened Option
  import opened Sets
  import opened Strings
  import opened Tokens
  import opened Channel
  import opened ModeLog
  import opened ModeWire
  import opened Net

  class Client {
    const socketFd: int
    var nickname: string
    var channels: seq<string>
    var registered: bool
    var quit: bool

    constructor (socketFd: int)
      ensures this.socketFd == socketFd && State() == NEWCOMER
    {
      this.socketFd := socketFd;
      nickname, channels, registered, quit := "", [], false, false;
    }

    ghost function State(): Cli
      reads this
    {
      Cli(nickname, channels, registered, quit)
    }

    method SetNickname(nick: string)
      modifies this`nickname
      ensures State() == old(State()).(nick := Lower(nick))
    {
      nickname := UncapitalizeString(nick);
    }

    method AddChannel(name: string)
      modifies this`channels
      ensures State() == old(State()).(channels := old(channels) + [name])
    {
      channels := channels + [name];
    }

    method RemoveChannel(name: string)
      modifies this`channels
      ensures State() == old(State()).(channels := RemoveFirst(old(channels), name))
      ensures name !in old(channels) ==> channels == old(channels)
      ensures name in old(channels) ==>
                exists k :: 0 <= k < |old(channels)| && old(channels)[k] == name && name !in old(channels)[..k]
                            && channels == old(channels)[..k] + old(channels)[k + 1..]
    {
      var k := 0;
      while k < |channels| && channels[k] != name
        invariant k <= |channels| && channels == old(channels) && name !in channels[..k]
      {
        k := k + 1;
      }
      FirstRemoved(channels, name, k);
      if k < |channels| {
        channels := channels[..k] + channels[k + 1..];
      } else {
        assert channels[..k] == channels;
      }
    }
  }

  lemma {:induction false} FirstRemoved(list: seq<string>, name: string, k: nat)
    requires k <= |list| && name !in list[..k] && (k < |list| ==> list[k] == name)
    ensures RemoveFirst(list, name) == if k < |list| then list[..k] + list[k + 1..] else list
    decreases k
  {
    if k == 0 {
      assert list != [] ==> list[..0] + list[1..] == list[1..];
    } else {
      assert list[0] == list[..k][0] && list[1..][..k - 1] == list[..k][1..];
      FirstRemoved(list[1..], name, k - 1);
      assert k < |list| ==> list[..k] + list[k + 1..] == [list[0]] + (list[1..][..k - 1] + list[1..][k..]);
    }
  }

  /** Notification of a change of modes: who gets it, and its text. */
  datatype Broadcast = Broadcast(recipients: set<int>, text: string)

  method SplitAtCommas(src: string) returns (pieces: seq<string>)
    ensures pieces == Pieces(src)
  {
    hide IndexOf;
    pieces := [];
    var rest := src;
    while rest != ""
      invariant pieces + Pieces(rest) == Pieces(src)
      decreases |rest|
    {
      var comma := IndexOf(rest, ',');
      assert rest[..|rest|] == rest;
      ghost var later := Pieces(if comma < |rest| then rest[comma + 1..] else "");
      assert Pieces(rest) == [rest[..comma]] + later;
      assert pieces + ([rest[..comma]] + later) == pieces + [rest[..comma]] + later;
      pieces := pieces + [rest[..comma]];
      rest := if comma < |rest| then rest[comma + 1..] else "";
    }
  }

  method SplitUnique(src: string) returns (names: seq<string>)
    ensures names == UniqueSorted(Pieces(src))
  {
    var pieces := SplitAtCommas(src);
    names := [];
    for i := 0 to |pieces|
      invariant names == UniqueSorted(pieces[..i])
    {
      assert pieces[..i + 1][..i] == pieces[..i];
      names := Insert(names, pieces[i]);
    }
    assert pieces[..|pieces|] == pieces;
  }

  class Server {
    var channels: seq<Channel>
    var clients: map<int, Client>
    /** The channels and clients as values. */
    ghost var net: Net

    ghost predicate Valid()
      reads this, channels, clients.Values
    {
      ChannelsShown() && ClientsShown()
    }

    ghost predicate ChannelsShown()
      reads this, channels
    {
      && (forall i, j :: 0 <= i < j < |channels| ==> channels[i] != channels[j])
      && |net.chans| == |channels|
      && (forall i :: 0 <= i < |channels| ==> net.chans[i] == View(channels[i].State()))
    }

    ghost predicate ClientsShown()
      reads this, clients.Values
    {
      && net.clients.Keys == clients.Keys
      && (forall fd :: fd in clients ==> clients[fd].socketFd == fd && net.clients[fd] == clients[fd].State())
    }

    constructor ()
      ensures Valid() && net == EMPTY
    {
      channels, clients := [], map[];
      net := EMPTY;
    }

    // ----- reading and restoring the correspondence, one object at a time -----

    lemma ChannelAt(i: nat)
      requires ChannelsShown() && i < |channels|
      ensures |net.chans| == |channels| && net.chans[i] == View(channels[i].State())
    {
    }

    lemma ClientAt(fd: int)
      requires ClientsShown() && fd in clients
      ensures fd in net.clients && net.clients[fd] == clients[fd].State() && clients[fd].socketFd == fd
    {
    }

    twostate lemma ChannelsKept()
      requires old(ChannelsShown()) && channels == old(channels) && net.chans == old(net.chans)
      requires forall c :: c in channels ==> unchanged(c)
      ensures ChannelsShown()
    {
      assert forall c :: c in channels ==> c.State() == old(c.State());
    }

    twostate lemma ClientsKept()
      requires old(ClientsShown()) && clients == old(clients) && net.clients == old(net.clients)
      requires forall c :: c in clients.Values ==> unchanged(c)
      ensures ClientsShown()
    {
      assert forall fd :: fd in clients ==> clients[fd] in clients.Values;
    }

    twostate lemma ChannelChanged(i: nat)
      requires old(ChannelsShown()) && channels == old(channels) && i < |channels| && i < |old(net.chans)|
      requires forall c :: c in channels && c != channels[i] ==> unchanged(c)
      requires net.chans == old(net.chans)[i := View(channels[i].State())]
      ensures ChannelsShown()
    {
      assert forall c :: c in channels && c != channels[i] ==> c.State() == old(c.State());
    }

    twostate lemma ClientChanged(fd: int)
      requires old(ClientsShown()) && clients == old(clients) && fd in clients
      requires forall c :: c in clients.Values && c != clients[fd] ==> unchanged(c)
      requires net.clients == old(net.clients)[fd := clients[fd].State()]
      ensures ClientsShown()
    {
      assert forall g :: g in clients ==> clients[g] in clients.Values;
    }

    twostate lemma ChannelRemoved(k: nat)
      requires old(ChannelsShown()) && k < |old(channels)| && k < |old(net.chans)|
      requires channels == old(channels)[..k] + old(channels)[k + 1..]
      requires net.chans == old(net.chans)[..k] + old(net.chans)[k + 1..]
      requires forall c :: c in old(channels) ==> unchanged(c)
      ensures ChannelsShown()
    {
      assert forall c :: c in old(channels) ==> c.State() == old(c.State());
      assert forall j :: 0 <= j < |channels| ==>
          channels[j] == old(channels)[if j < k then j else j + 1] && net.chans[j] == old(net.chans)[if j < k then j else j + 1];
    }

    twostate lemma ChannelAdded(new c: Channel)
      requires old(ChannelsShown()) && channels == old(channels) + [c] && c !in old(channels)
      requires net.chans == old(net.chans) + [View(c.State())]
      requires forall d :: d in old(channels) ==> unchanged(d)
      ensures ChannelsShown()
    {
      assert forall d :: d in old(channels) ==> d.State() == old(d.State());
    }

    method FindChannel(name: string) returns (channel: Channel?)
      requires ChannelsShown()
      ensures |net.chans| == |channels|
      ensures var i := Find(net.chans, name);
              if i < |channels| then channel == channels[i] && channel in channels && net.chans[i] == View(channel.State())
              else channel == null
    {
      var k := FindPosition(name);
      channel := if k < |channels| then channels[k] else null;
    }

    /** The clients are visited in the order of their descriptors. */
    method FindClient(nick: string) returns (client: Client?)
      requires ClientsShown()
      ensures match FindNick(NicksOf(net.clients), nick)
              case None => client == null
              case Some(fd) => fd in clients && client == clients[fd] && client.socketFd == fd
    {
      var lowerNickname := UncapitalizeString(nick);
      ghost var nicks := NicksOf(net.clients);
      var rest := clients.Keys;
      while rest != {}
        invariant rest <= clients.Keys
        invariant forall fd, g :: fd in clients && fd !in rest && g in rest ==> fd < g
        invariant forall fd :: fd in clients && fd !in rest ==> nicks[fd] != lowerNickname
        decreases rest
      {
        ghost var some := Pick(rest);
        HasLeast(rest, some);
        var fd :| fd in rest && forall g :: g in rest ==> fd <= g;
        if clients[fd].nickname == lowerNickname {
          assert IsFirst(nicks, lowerNickname, Some(fd));
          FirstUnique(nicks, lowerNickname, Some(fd), FindNick(nicks, nick));
          return clients[fd];
        }
        rest := rest - {fd};
      }
      assert IsFirst(nicks, lowerNickname, None);
      FirstUnique(nicks, lowerNickname, None, FindNick(nicks, nick));
      return null;
    }

    method AddClient(fd: int)
      requires Valid()
      modifies this`clients, this`net
      ensures Valid()
      ensures net == Connect(old(net), fd)
    {
      if fd !in clients {
        var client := new Client(fd);
        clients := clients[fd := client];
        net := Connect(net, fd);
      }
    }

    /** A successful NICK. */
    method RenameClient(fd: int, nick: string)
      requires Valid() && fd in clients
      modifies clients[fd], this`net
      ensures Valid() && clients == old(clients)
      ensures net == Rename(old(net), fd, nick)
    {
      hide ChannelsShown, ClientsShown;
      ClientAt(fd);
      clients[fd].SetNickname(nick);
      net := Rename(net, fd, nick);
      ChannelsKept();
      ClientChanged(fd);
    }

    /** The end of `checkRegistration`, past the checks on the password, the username and the uniqueness of the
        nickname. */
    method SetRegistration(fd: int)
      requires Valid() && fd in clients
      modifies clients[fd], this`net
      ensures Valid() && clients == old(clients)
      ensures net == Registered(old(net), fd)
    {
      hide ChannelsShown, ClientsShown;
      ClientAt(fd);
      if clients[fd].nickname == "" {
        return;
      }
      clients[fd].registered := true;
      net := Registered(net, fd);
      ChannelsKept();
      ClientChanged(fd);
    }

    method RemoveChannel(channelName: string)
      requires Valid()
      modifies this`channels, this`net
      ensures Valid()
      ensures net == Unchannelled(old(net), channelName)
      ensures forall c :: c in channels ==> c in old(channels)
    {
      var k := FindPosition(channelName);
      if k < |channels| {
        hide ChannelsShown, ClientsShown;
        ChannelAt(k);
        channels := channels[..k] + channels[k + 1..];
        net := net.(chans := net.chans[..k] + net.chans[k + 1..]);
        ChannelRemoved(k);
        ClientsKept();
      } else {
        assert |net.chans| == |channels|;
      }
    }

    /** The loop over the channels by which `findChannel` and `removeChannel` look for a name. */
    method FindPosition(name: string) returns (k: nat)
      requires ChannelsShown()
      ensures k == Find(net.chans, name) && k <= |channels|
    {
      var lowerName := UncapitalizeString(name);
      assert net.chans[0..] == net.chans;
      k := 0;
      while k < |channels|
        invariant k <= |channels|
        invariant Find(net.chans, name) == k + Find(net.chans[k..], name)
      {
        assert net.chans[k..][0].name == channels[k].name;
        assert net.chans[k..][1..] == net.chans[k + 1..];
        if channels[k].name == lowerName {
          return;
        }
        k := k + 1;
      }
    }

    method RemoveClientFromChannel(fd: int, channel: Channel, ghost i: nat)
      requires Valid() && fd in clients && i < |channels| && channels[i] == channel
      modifies this`channels, this`net, channel, clients[fd]
      ensures Valid() && clients == old(clients)
      ensures net == Left(old(net), fd, i)
      ensures forall c :: c in channels ==> c in old(channels)
    {
      hide ChannelsShown, ClientsShown;
      ChannelAt(i);
      ClientAt(fd);
      channel.RemoveMember(fd);
      clients[fd].RemoveChannel(channel.name);
      net := Unlisted(SetChan(net, i, net.chans[i].Leave(fd)), fd, channel.name);
      ChannelChanged(i);
      ClientChanged(fd);
      if channel.memberFds == {} {
        RemoveChannel(channel.name);
      }
    }

    // ----- JOIN -----

    method JoinExistingChannel(fd: int, channel: Channel, password: string, ghost i: nat)
      requires Valid() && fd in clients && i < |channels| && channels[i] == channel
      modifies channel, clients[fd], this`net
      ensures Valid()
      ensures net ==
              if MayEnter(old(net).chans[i], fd, password) then
                Listed(SetChan(old(net), i, old(net).chans[i].Enter(fd)), fd, old(net).chans[i].name)
              else old(net)
    {
      hide ChannelsShown, ClientsShown;
      ChannelAt(i);
      ClientAt(fd);
      if fd in channel.memberFds {
        return;
      }
      var inviteOnly := channel.IsModeSet(InviteOnly);
      if inviteOnly && fd !in channel.invitedFds {
        return;
      }
      var limited := channel.IsModeSet(LimitSet);
      if limited && |channel.memberFds| == channel.limitMembers {
        return;
      }
      var ok := channel.AuthMember(fd, password);
      if ok {
        clients[fd].AddChannel(channel.name);
        net := Listed(SetChan(net, i, net.chans[i].Enter(fd)), fd, channel.name);
        ChannelChanged(i);
        ClientChanged(fd);
      } else {
        ChannelChanged(i);
        ClientsKept();
      }
    }

    method CreateAndJoinNewChannel(fd: int, channelName: string, password: string)
      requires Valid() && fd in clients
      modifies this`channels, this`net, clients[fd]
      ensures Valid() && clients == old(clients)
      ensures net ==
              if ValidChannelName(channelName) then
                Listed(old(net).(chans := old(net).chans + [Created(channelName, password, fd)]), fd, channelName)
              else old(net)
      ensures forall c :: c in channels ==> c in old(channels) || fresh(c)
    {
      hide ChannelsShown, ClientsShown;
      var valid := false;
      if |channelName| > 0 && (channelName[0] == '#' || channelName[0] == '&') {
        valid := IsValidName(channelName[1..]);
      }
      if valid {
        ClientAt(fd);
        var newChannel := NewChannelFor(channelName, password, fd);
        clients[fd].AddChannel(channelName);
        channels := channels + [newChannel];
        net := Listed(net.(chans := net.chans + [Created(channelName, password, fd)]), fd, channelName);
        ChannelAdded(newChannel);
        ClientChanged(fd);
      }
    }

    /** A new channel with its creator as member and operator. */
    static method NewChannelFor(channelName: string, password: string, fd: int) returns (newChannel: Channel)
      ensures fresh(newChannel) && View(newChannel.State()) == Created(channelName, password, fd)
    {
      newChannel := new Channel(channelName, password);
      newChannel.AddMember(fd);
      var added := newChannel.AddOperator(fd);
      assert newChannel.operatorFds == {fd} && newChannel.memberFds == {fd};
    }

    method ProcessJoin(fd: int, tokens: seq<string>)
      requires Valid() && fd in clients
      modifies this`channels, this`net, channels, clients[fd]
      ensures Valid() && clients == old(clients)
      ensures net == Join(old(net), fd, tokens)
    {
      hide ChannelsShown, ClientsShown, JoinOne;
      ClientAt(fd);
      if |tokens| < 2 {
        return;
      }
      var names := SplitUnique(tokens[1]);
      if |names| > MAXTARGETS {
        return;
      }
      var passwords := [];
      if |tokens| > 2 {
        passwords := SplitAtCommas(tokens[2]);
      }
      while names != []
        invariant Valid() && clients == old(clients) && fd in net.clients
        invariant JoinAll(net, fd, names, passwords) == Join(old(net), fd, tokens)
        invariant forall c :: c in channels ==> c in old(channels) || fresh(c)
        decreases |names|
      {
        var channelName := names[0];
        names := names[1..];
        var password := if passwords != [] then passwords[0] else "";
        if passwords != [] {
          passwords := passwords[1..];
        }
        ClientAt(fd);
        if |clients[fd].channels| == MAXCHANNELS {
          return;
        }
        assert forall i :: 0 <= i < |channels| ==> channels[i] in old(channels) || fresh(channels[i]);
        JoinChannel(fd, channelName, password);
        ClientAt(fd);
      }
    }

    /** The body of the loop in `processJoin`, past the check on the number of channels. */
    method JoinChannel(fd: int, channelName: string, password: string)
      requires Valid() && fd in clients
      modifies this`channels, this`net, channels, clients[fd]
      ensures Valid() && clients == old(clients)
      ensures net == JoinOne(old(net), fd, channelName, password)
      ensures forall c :: c in channels ==> c in old(channels) || fresh(c)
    {
      hide ChannelsShown, ClientsShown;
      var channel := FindChannel(channelName);
      if channel != null {
        JoinExistingChannel(fd, channel, password, Find(net.chans, channelName));
      } else {
        CreateAndJoinNewChannel(fd, channelName, password);
      }
    }

    // ----- PART, KICK, INVITE -----

    method ProcessPart(fd: int, tokens: seq<string>)
      requires Valid() && fd in clients
      modifies this`channels, this`net, channels, clients[fd]
      ensures Valid() && clients == old(clients)
      ensures net == Part(old(net), fd, tokens)
    {
      hide ChannelsShown, ClientsShown, Left;
      ClientAt(fd);
      if |tokens| < 2 {
        return;
      }
      var names := SplitUnique(tokens[1]);
      if |names| > MAXTARGETS {
        return;
      }
      while names != []
        invariant Valid() && clients == old(clients) && fd in net.clients
        invariant PartAll(net, fd, names) == Part(old(net), fd, tokens)
        invariant forall c :: c in channels ==> c in old(channels)
        decreases |names|
      {
        var channelName := names[0];
        names := names[1..];
        var channel := FindChannel(channelName);
        if channel != null && fd in channel.memberFds {
          RemoveClientFromChannel(fd, channel, Find(net.chans, channelName));
          ClientAt(fd);
        }
      }
    }

    method ProcessKick(fd: int, tokens: seq<string>)
      requires Valid() && fd in clients
      modifies this`channels, this`net, channels, clients.Values
      ensures Valid() && clients == old(clients)
      ensures net == Kick(old(net), fd, tokens)
    {
      hide ChannelsShown, ClientsShown, Left;
      if |tokens| < 3 {
        return;
      }
      var channel := FindChannel(tokens[1]);
      if channel != null && fd in channel.memberFds && fd in channel.operatorFds {
        var target := FindClient(tokens[2]);
        if target != null && target.socketFd in channel.memberFds {
          RemoveClientFromChannel(target.socketFd, channel, Find(net.chans, tokens[1]));
        }
      }
    }

    method ProcessInvite(fd: int, tokens: seq<string>)
      requires Valid() && fd in clients
      modifies channels, this`net
      ensures Valid()
      ensures net == Invite(old(net), fd, tokens)
    {
      hide ChannelsShown, ClientsShown;
      if |tokens| < 3 {
        return;
      }
      var invitedClient := FindClient(tokens[1]);
      var channel := FindChannel(tokens[2]);
      if invitedClient == null || channel == null || fd !in channel.memberFds || invitedClient.socketFd in channel.memberFds {
        return;
      }
      var inviteOnly := channel.IsModeSet(InviteOnly);
      if inviteOnly {
        if fd !in channel.operatorFds {
          return;
        }
        AddInvitedTo(channel, invitedClient.socketFd, Find(net.chans, tokens[2]));
      }
    }

    method AddInvitedTo(channel: Channel, guest: int, ghost i: nat)
      requires Valid() && i < |channels| && channels[i] == channel
      modifies channel`invitedFds, this`net
      ensures Valid() && i < |old(net).chans|
      ensures net == SetChan(old(net), i, old(net).chans[i].(invited := old(net).chans[i].invited + {guest}))
    {
      hide ChannelsShown, ClientsShown;
      ChannelAt(i);
      channel.AddInvited(guest);
      net := SetChan(net, i, net.chans[i].(invited := net.chans[i].invited + {guest}));
      ChannelChanged(i);
      ClientsKept();
    }

    // ----- MODE -----

    method HandleFlag(sign: char, f: Flag, channel: Channel) returns (applied: bool)
      modifies channel`mode
      ensures Handled(applied, channel.State()) == Toggle(old(channel.State()), sign, f)
    {
      if sign == '+' {
        applied := channel.SetMode(f);
      } else {
        applied := channel.UnsetMode(f);
      }
    }

    method HandleModeK(sign: char, parameter: string, channel: Channel) returns (applied: bool)
      modifies channel`mode, channel`password
      ensures forall nicks :: Handled(applied, channel.State()) == Handle(old(channel.State()), sign, 'k', parameter, nicks)
      ensures var c := old(channel.State());
              if sign != '+' then
                channel.State() == c.(key := "", flags := c.flags - {KeySet}) && (applied <==> KeySet in c.flags)
              else if ValidName(parameter) then channel.State() == c.(key := parameter, flags := c.flags + {KeySet}) && applied
              else channel.State() == c && !applied
    {
      if sign == '+' {
        var valid := IsValidName(parameter);
        if !valid {
          return false;
        }
        channel.password := parameter;
        var changed := channel.SetMode(KeySet);
        return true;
      } else {
        channel.password := "";
        applied := channel.UnsetMode(KeySet);
      }
    }

    method HandleModeL(sign: char, parameter: string, channel: Channel) returns (applied: bool)
      modifies channel`mode, channel`limitMembers
      ensures forall nicks :: Handled(applied, channel.State()) == Handle(old(channel.State()), sign, 'l', parameter, nicks)
      ensures var c, n := old(channel.State()), ParseInt(parameter);
              if sign != '+' then
                channel.State() == c.(limit := -1, flags := c.flags - {LimitSet}) && (applied <==> LimitSet in c.flags)
              else if n.Some? && n.value >= |c.members| then
                channel.State() == c.(limit := n.value, flags := c.flags + {LimitSet}) && applied
              else channel.State() == c && !applied
    {
      if sign == '+' {
        var limit := ParseInt(parameter);
        if limit.None? || limit.value < |channel.memberFds| {
          return false;
        }
        channel.limitMembers := limit.value;
        var changed := channel.SetMode(LimitSet);
        return true;
      } else {
        channel.limitMembers := -1;
        applied := channel.UnsetMode(LimitSet);
      }
    }

    method HandleModeO(sign: char, parameter: string, channel: Channel) returns (applied: bool)
      requires ClientsShown()
      modifies channel`operatorFds
      ensures Handled(applied, channel.State())
           == Handle(old(channel.State()), sign, 'o', parameter, NicksOf(net.clients))
      ensures var c, who := old(channel.State()), FindNick(NicksOf(net.clients), parameter);
              if parameter == "" || who.None? || (sign == '+' && who.value !in c.members) then channel.State() == c && !applied
              else if sign == '+' then
                channel.State() == c.(operators := c.operators + {who.value}) && (applied <==> who.value !in c.operators)
              else channel.State() == c.(operators := c.operators - {who.value}) && (applied <==> who.value in c.operators)
    {
      if parameter == "" {
        return false;
      }
      var client := FindClient(parameter);
      if client == null {
        return false;
      }
      if sign == '+' {
        if client.socketFd !in channel.memberFds {
          return false;
        }
        applied := channel.AddOperator(client.socketFd);
      } else {
        applied := channel.RemoveOperator(client.socketFd);
      }
    }

    /** The handler that the table has for a letter; `b` and unknown letters are refused. */
    method CallHandler(sign: char, mode: char, parameter: string, channel: Channel) returns (applied: bool)
      requires ClientsShown()
      modifies channel`mode, channel`password, channel`limitMembers, channel`operatorFds
      ensures Handled(applied, channel.State())
           == Handle(old(channel.State()), sign, mode, parameter, NicksOf(net.clients))
    {
      match mode {
        case 'i' => applied := HandleFlag(sign, InviteOnly, channel);
        case 't' => applied := HandleFlag(sign, TopicSet, channel);
        case 'k' => applied := HandleModeK(sign, parameter, channel);
        case 'l' => applied := HandleModeL(sign, parameter, channel);
        case 'o' => applied := HandleModeO(sign, parameter, channel);
        case _ => applied := false;
      }
    }

    /** The loop over the mode string, on one channel. */
    method ChangeModes(channel: Channel, tokens: seq<string>) returns (changedModes: string, parametersSet: seq<string>)
      requires ClientsShown() && |tokens| >= 3
      modifies channel`mode, channel`password, channel`limitMembers, channel`operatorFds
      ensures var l := Turns(Start(old(channel.State()), tokens[3..]), tokens[2], NicksOf(net.clients));
              channel.State() == l.chan && changedModes == l.changedModes && parametersSet == l.parametersSet
    {
      hide Handle;
      var modes := tokens[2];
      changedModes, parametersSet := "", [];
      var settingMode, lastSettingMode := '+', '+';
      var paramIndex := 3;
      ghost var nicks := NicksOf(net.clients);
      ghost var start := Start(channel.State(), tokens[3..]);
      for i := 0 to |modes|
        invariant 3 <= paramIndex <= |tokens|
        invariant ClientsShown()
        invariant Loop(channel.State(), settingMode, lastSettingMode, tokens[paramIndex..], changedModes, parametersSet)
               == Turns(start, modes[..i], nicks)
      {
        TurnsSnoc(start, modes[..i], modes[i], nicks);
        assert modes[..i + 1] == modes[..i] + [modes[i]];
        var mode := modes[i];
        if mode == '+' || mode == '-' {
          settingMode := mode;
          continue;
        }
        var parameter := "";
        assert tokens[paramIndex..] != [] <==> paramIndex < |tokens|;
        if Needed(settingMode, mode) && paramIndex < |tokens| {
          assert tokens[paramIndex..][1..] == tokens[paramIndex + 1..];
          parameter := tokens[paramIndex];
          paramIndex := paramIndex + 1;
        }
        var applied := CallHandler(settingMode, mode, parameter, channel);
        if applied {
          parametersSet := parametersSet + [parameter];
          if lastSettingMode != settingMode {
            changedModes := changedModes + [settingMode];
            lastSettingMode := settingMode;
          }
          changedModes := changedModes + [mode];
        }
      }
      assert modes[..|modes|] == modes;
    }

    method ProcessMode(fd: int, tokens: seq<string>) returns (broadcast: Option<Broadcast>)
      requires Valid() && fd in clients
      modifies channels, this`net
      ensures Valid()
      ensures net == Mode(old(net), fd, tokens)
      ensures if ModeAllowed(old(net), fd, tokens) then
                var i := Find(old(net).chans, tokens[1]);
                var l := ModeLoop(old(net), i, tokens);
                broadcast == if l.changedModes == "" then None
                             else Some(Broadcast(old(net).chans[i].members, BroadcastText(tokens[1], l.changedModes, l.parametersSet)))
              else broadcast == None
    {
      hide Handle, Turns, FlagsOf, ChannelsShown, ClientsShown, Merged;
      if |tokens| < 3 || |tokens[1]| == 0 || (tokens[1][0] != '#' && tokens[1][0] != '&') {
        return None;
      }
      var channel := FindChannel(tokens[1]);
      if channel == null || fd !in channel.memberFds || fd !in channel.operatorFds {
        return None;
      }
      ghost var i := Find(net.chans, tokens[1]);
      var changedModes, parametersSet := ChangeModesOf(channel, tokens, i);
      if changedModes == "" {
        return None;
      }
      var parameters := MergeTokensToString(parametersSet, false);
      return Some(Broadcast(channel.memberFds, tokens[1] + " " + changedModes + " " + parameters));
    }

    /** The loop over the mode string, on a channel of this server. */
    method ChangeModesOf(channel: Channel, tokens: seq<string>, ghost i: nat)
      returns (changedModes: string, parametersSet: seq<string>)
      requires Valid() && |tokens| >= 3 && i < |channels| && channels[i] == channel
      modifies channel`mode, channel`password, channel`limitMembers, channel`operatorFds, this`net
      ensures Valid() && i < |old(net).chans|
      ensures var l := ModeLoop(old(net), i, tokens);
              net == SetChan(old(net), i, View(l.chan)) && changedModes == l.changedModes && parametersSet == l.parametersSet
    {
      hide Handle, Turns, FlagsOf, ChannelsShown, ClientsShown;
      ChannelAt(i);
      ghost var l := ModeLoop(net, i, tokens);
      TurnsOnView(channel.State(), tokens[3..], tokens[2], NicksOf(net.clients));
      changedModes, parametersSet := ChangeModes(channel, tokens);
      net := SetChan(net, i, View(l.chan));
      ChannelChanged(i);
      ClientsKept();
    }

    // ----- any command -----

    /** `processCmd`: the request of a client, already split into words. */
    method ProcessCmd(fd: int, tokens: seq<string>)
      requires Valid() && fd in clients
      modifies this`channels, this`net, channels, clients.Values
      ensures Valid() && clients == old(clients)
      ensures net == Perform(old(net), fd, tokens)
    {
      hide ChannelsShown, ClientsShown, Join, Part, Kick, Invite, Mode;
      ClientAt(fd);
      if |tokens| == 0 {
        return;
      }
      match tokens[0] {
        case "JOIN" => ProcessJoin(fd, tokens);
        case "PART" => ProcessPart(fd, tokens);
        case "KICK" => ProcessKick(fd, tokens);
        case "INVITE" => ProcessInvite(fd, tokens);
        case "MODE" => var broadcast := ProcessMode(fd, tokens);
        case "QUIT" => var told := ProcessQuit(fd);
        case _ =>
      }
    }

    /** A line of words, once the connection is registered; the registration commands are not modelled. */
    method ProcessLine(fd: int, tokens: seq<string>)
      requires Valid() && fd in clients
      modifies this`channels, this`net, channels, clients.Values
      ensures Valid() && clients == old(clients)
      ensures net == Step(old(net), Line(fd, tokens))
    {
      hide ChannelsShown, ClientsShown, Perform;
      ClientAt(fd);
      if clients[fd].registered {
        ProcessCmd(fd, tokens);
      }
    }

    // ----- QUIT and the end of a connection -----

    method ProcessQuit(fd: int) returns (sharingChannelsFds: set<int>)
      requires Valid() && fd in clients
      modifies clients[fd], this`net
      ensures Valid()
      ensures net == Quit(old(net), fd)
      ensures sharingChannelsFds == Audience(old(net), fd)
    {
      hide ChannelsShown, ClientsShown;
      ClientAt(fd);
      sharingChannelsFds := MembersOfAll(clients[fd].channels);
      sharingChannelsFds := sharingChannelsFds - {fd};
      clients[fd].quit := true;
      net := Quit(net, fd);
      ChannelsKept();
      ClientChanged(fd);
    }

    /** The loop of `processQuit` over the channel names of the quitter. */
    method MembersOfAll(names: seq<string>) returns (fds: set<int>)
      requires ChannelsShown()
      ensures fds == Gathered(net.chans, names)
    {
      hide ChannelsShown;
      fds := {};
      for k := 0 to |names|
        invariant fds == Gathered(net.chans, names[..k])
      {
        assert names[..k + 1][..k] == names[..k];
        var channel := FindChannel(names[k]);
        if channel != null {
          fds := fds + channel.memberFds;
        }
      }
      assert names[..|names|] == names;
    }

    /** The channels are visited in order and emptied ones erased on the way. */
    method RemoveClient(fd: int)
      requires Valid()
      modifies this, channels
      ensures Valid()
      ensures net == Disconnect(old(net), fd)
    {
      hide Swept;
      EraseFromChannels(fd);
      hide ChannelsShown;
      label Erased:
      clients := clients - {fd};
      net := net.(clients := net.clients - {fd});
      ChannelsKept@Erased();
    }

    method EraseFromChannels(fd: int)
      requires Valid()
      modifies this`channels, this`net, channels
      ensures Valid() && clients == old(clients)
      ensures net == old(net).(chans := Swept(old(net).chans, fd))
    {
      hide HalfSwept, ClientsShown, Swept;
      ghost var chans, all := net.chans, channels;
      SweepStarts(fd);
      hide ChannelsShown;
      ghost var k, seen := EraseFromEach(all, chans, fd);
      SweepEnds(all, chans, fd, k, seen);
      net := net.(chans := Swept(chans, fd));
      SweptShown(all, chans, fd, k, seen);
      ClientsKept();
    }

    /** The loop of `removeClient` over the channels. */
    method EraseFromEach(ghost all: seq<Channel>, ghost chans: seq<Chan>, fd: int) returns (ghost last: nat, ghost seen: nat)
      requires channels == all && HalfSwept(all, chans, fd, 0, 0)
      modifies this`channels, channels
      ensures HalfSwept(all, chans, fd, last, seen) && last == |channels|
    {
      hide HalfSwept;
      var k: nat := 0;
      seen := 0;
      while k < |channels|
        invariant HalfSwept(all, chans, fd, k, seen) && k <= |channels|
        invariant forall c :: c in channels ==> c in all
        decreases |channels| - k
      {
        assert channels[k] in all;
        k := EraseFromOne(all, chans, fd, k, seen);
        seen := seen + 1;
      }
      last := k;
    }

    /** One turn of the loop: the next position to look at is the same one if its channel was erased. */
    method EraseFromOne(ghost all: seq<Channel>, ghost chans: seq<Chan>, fd: int, k: nat, ghost seen: nat) returns (next: nat)
      requires k < |channels| && HalfSwept(all, chans, fd, k, seen)
      requires forall c :: c in channels ==> c in all
      modifies this`channels, channels[k]
      ensures HalfSwept(all, chans, fd, next, seen + 1)
      ensures forall c :: c in channels ==> c in all
      ensures |channels| - next < |old(channels)| - k && next <= |channels|
    {
      hide HalfSwept;
      var channel := channels[k];
      channel.RemoveMember(fd);
      if channel.memberFds == {} {
        channels := channels[..k] + channels[k + 1..];
        next := k;
        SweepErased(all, chans, fd, k, seen, channel);
      } else {
        next := k + 1;
        SweepKept(all, chans, fd, k, seen, channel);
      }
    }

    /** The channels before `k` are those that remain of the first `seen`; those from `k` on are still to be
        visited. */
    ghost predicate HalfSwept(all: seq<Channel>, chans: seq<Chan>, fd: int, k: nat, seen: nat)
      reads this`channels, all, channels
    {
      && |all| == |chans| && k <= |channels| && seen <= |all| && |channels| - k == |all| - seen
      && (forall j :: k <= j < |channels| ==> channels[j] == all[j - k + seen])
      && (forall i, j :: 0 <= i < j < |channels| ==> channels[i] != channels[j])
      && (forall j :: seen <= j < |all| ==> View(all[j].State()) == chans[j])
      && k == |Swept(chans[..seen], fd)|
      && (forall j :: 0 <= j < k ==> View(channels[j].State()) == Swept(chans[..seen], fd)[j])
    }

    lemma SweepStarts(fd: int)
      requires ChannelsShown()
      ensures HalfSwept(channels, net.chans, fd, 0, 0)
    {
    }

    /** The channel at `k` has lost the client and keeps its place. */
    twostate lemma SweepKept(all: seq<Channel>, new chans: seq<Chan>, new fd: int, new k: nat, new seen: nat,
                             new channel: Channel)
      requires old(HalfSwept(all, chans, fd, k, seen)) && k < |old(channels)| && channel == old(channels)[k]
      requires forall c :: c in old(channels) ==> c in all
      requires forall c :: c in all && c != channel ==> unchanged(c)
      requires channel.State() == old(channel.State()).Leave(fd) && channel.memberFds != {}
      requires channels == old(channels)
      ensures HalfSwept(all, chans, fd, k + 1, seen + 1)
    {
      hide Swept;
      assert forall c :: c in all && c != channel ==> c.State() == old(c.State());
      assert channel == all[seen];
      forall j | seen < j < |all| ensures all[j] != channel {
        assert old(channels)[j - seen + k] == all[j];
      }
      SweptSnoc(chans, seen, fd);
      assert View(channel.State()) == chans[seen].Leave(fd);
    }

    /** The channel at `k` has lost its last member and is erased. */
    twostate lemma SweepErased(all: seq<Channel>, new chans: seq<Chan>, new fd: int, new k: nat, new seen: nat,
                               new channel: Channel)
      requires old(HalfSwept(all, chans, fd, k, seen)) && k < |old(channels)| && channel == old(channels)[k]
      requires forall c :: c in old(channels) ==> c in all
      requires forall c :: c in all && c != channel ==> unchanged(c)
      requires channel.State() == old(channel.State()).Leave(fd) && channel.memberFds == {}
      requires channels == old(channels)[..k] + old(channels)[k + 1..]
      ensures HalfSwept(all, chans, fd, k, seen + 1)
    {
      hide Swept;
      assert forall c :: c in all && c != channel ==> c.State() == old(c.State());
      assert channel == all[seen];
      forall j | seen < j < |all| ensures all[j] != channel {
        assert old(channels)[j - seen + k] == all[j];
      }
      SweptSnoc(chans, seen, fd);
      assert View(channel.State()) == chans[seen].Leave(fd);
      assert forall j :: 0 <= j < |channels| ==> channels[j] == old(channels)[if j < k then j else j + 1];
    }

    lemma SweepEnds(all: seq<Channel>, chans: seq<Chan>, fd: int, k: nat, seen: nat)
      requires HalfSwept(all, chans, fd, k, seen) && k == |channels|
      ensures seen == |chans|
    {
    }

    lemma SweptShown(all: seq<Channel>, chans: seq<Chan>, fd: int, k: nat, seen: nat)
      requires HalfSwept(all, chans, fd, k, seen) && k == |channels| && net.chans == Swept(chans, fd)
      ensures ChannelsShown()
    {
      assert chans[..seen] == chans;
    }
  }

  lemma SweptSnoc(chans: seq<Chan>, seen: nat, fd: int)
    requires seen < |chans|
    ensures var c := chans[seen].Leave(fd);
            Swept(chans[..seen + 1], fd) == Swept(chans[..seen], fd) + if c.members == {} then [] else [c]
  {
    assert chans[..seen + 1][..seen] == chans[..seen];
  }
}
