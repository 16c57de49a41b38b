/** mariia: all channels and clients of a server, and what each request does to them. */
module Net {
  import opened Strings
  import opened Tokens
  import opened Channel
  import opened ModeLog

  const MAXCHANNELS: nat := 9
  const MAXTARGETS: nat := 10

  /** A client: nickname, the list of channel names it keeps for itself, whether it is registered and whether
      quitting. */
  datatype Cli = Cli(nick: string, channels: seq<string>, registered: bool, quitting: bool)

  /** A client just connected. */
  const NEWCOMER: Cli := Cli("", [], false, false)

  datatype Net = Net(chans: seq<Chan>, clients: map<int, Cli>)

  const EMPTY: Net := Net([], map[])

  function NicksOf(clients: map<int, Cli>): Nicks {
    map fd | fd in clients :: clients[fd].nick
  }

  /** Position of the channel with this name, or the number of channels. */
  function Find(chans: seq<Chan>, name: string): (i: nat)
    ensures i <= |chans|
    ensures i < |chans| ==> chans[i].name == Lower(name)
    ensures forall j :: 0 <= j < i ==> chans[j].name != Lower(name)
  {
    if chans == [] || chans[0].name == Lower(name) then 0 else 1 + Find(chans[1..], name)
  }

  function RemoveFirst(list: seq<string>, s: string): seq<string> {
    if list == [] then []
    else if list[0] == s then list[1..]
    else [list[0]] + RemoveFirst(list[1..], s)
  }

  function SetChan(n: Net, i: nat, c: Chan): Net
    requires i < |n.chans|
  {
    n.(chans := n.chans[i := c])
  }

  function Listed(n: Net, fd: int, name: string): Net
    requires fd in n.clients
  {
    n.(clients := n.clients[fd := n.clients[fd].(channels := n.clients[fd].channels + [name])])
  }

  function Unlisted(n: Net, fd: int, name: string): Net
    requires fd in n.clients
  {
    n.(clients := n.clients[fd := n.clients[fd].(channels := RemoveFirst(n.clients[fd].channels, name))])
  }

  /** `removeChannel` */
  function Unchannelled(n: Net, name: string): Net {
    var i := Find(n.chans, name);
    if i == |n.chans| then n else n.(chans := n.chans[..i] + n.chans[i + 1..])
  }

  /** `removeClientFromChannel` */
  function Left(n: Net, fd: int, i: nat): Net
    requires fd in n.clients && i < |n.chans|
  {
    var c := n.chans[i].Leave(fd);
    var m := Unlisted(SetChan(n, i, c), fd, c.name);
    if c.members == {} then Unchannelled(m, c.name) else m
  }

  // ----- JOIN -----

  predicate MayEnter(c: Chan, fd: int, key: string) {
    && fd !in c.members
    && !(InviteOnly in c.flags && fd !in c.invited)
    && !(LimitSet in c.flags && |c.members| == c.limit)
    && key == c.key
  }

  predicate ValidChannelName(name: string) {
    name != "" && (name[0] == '#' || name[0] == '&') && ValidName(name[1..])
  }

  function Created(name: string, key: string, fd: int): Chan {
    NewChan(name, key, 0).(members := {fd}, operators := {fd})
  }

  function JoinOne(n: Net, fd: int, name: string, key: string): Net
    requires fd in n.clients
  {
    var i := Find(n.chans, name);
    if i < |n.chans| then
      if MayEnter(n.chans[i], fd, key) then Listed(SetChan(n, i, n.chans[i].Enter(fd)), fd, n.chans[i].name) else n
    else if ValidChannelName(name) then
      Listed(n.(chans := n.chans + [Created(name, key, fd)]), fd, name)
    else n
  }

  function JoinAll(n: Net, fd: int, names: seq<string>, keys: seq<string>): Net
    requires fd in n.clients
    decreases |names|
  {
    if names == [] || |n.clients[fd].channels| == MAXCHANNELS then n
    else
      JoinAll(JoinOne(n, fd, names[0], if keys == [] then "" else keys[0]), fd, names[1..],
              if keys == [] then [] else keys[1..])
  }

  /** `getline` on commas: no piece after a last comma. */
  function Pieces(s: string): seq<string>
    decreases |s|
  {
    var i := IndexOf(s, ',');
    if s == "" then [] else if i == |s| then [s] else [s[..i]] + Pieces(s[i + 1..])
  }

  predicate Before(a: string, b: string) {
    if a == "" then b != ""
    else if b == "" then false
    else a[0] < b[0] || (a[0] == b[0] && Before(a[1..], b[1..]))
  }

  /** Insertion into a `std::set` of strings. */
  function Insert(sorted: seq<string>, s: string): seq<string> {
    if sorted == [] then [s]
    else if sorted[0] == s then sorted
    else if Before(s, sorted[0]) then [s] + sorted
    else [sorted[0]] + Insert(sorted[1..], s)
  }

  function UniqueSorted(pieces: seq<string>): seq<string> {
    if pieces == [] then [] else Insert(UniqueSorted(pieces[..|pieces| - 1]), pieces[|pieces| - 1])
  }

  function Join(n: Net, fd: int, tokens: seq<string>): Net
    requires fd in n.clients
  {
    if |tokens| < 2 then n
    else
      var names := UniqueSorted(Pieces(tokens[1]));
      if |names| > MAXTARGETS then n
      else JoinAll(n, fd, names, if |tokens| > 2 then Pieces(tokens[2]) else [])
  }

  // ----- PART, KICK, INVITE, MODE, QUIT -----

  function PartOne(n: Net, fd: int, name: string): Net
    requires fd in n.clients
  {
    var i := Find(n.chans, name);
    if i < |n.chans| && fd in n.chans[i].members then Left(n, fd, i) else n
  }

  function PartAll(n: Net, fd: int, names: seq<string>): Net
    requires fd in n.clients
    decreases |names|
  {
    if names == [] then n else PartAll(PartOne(n, fd, names[0]), fd, names[1..])
  }

  function Part(n: Net, fd: int, tokens: seq<string>): Net
    requires fd in n.clients
  {
    if |tokens| < 2 then n
    else
      var names := UniqueSorted(Pieces(tokens[1]));
      if |names| > MAXTARGETS then n else PartAll(n, fd, names)
  }

  ghost function Kick(n: Net, fd: int, tokens: seq<string>): Net {
    if |tokens| < 3 then n
    else
      var i := Find(n.chans, tokens[1]);
      if i == |n.chans| || fd !in n.chans[i].members || fd !in n.chans[i].operators then n
      else
        var target := FindNick(NicksOf(n.clients), tokens[2]);
        if target.None? || target.value !in n.chans[i].members then n else Left(n, target.value, i)
  }

  ghost function Invite(n: Net, fd: int, tokens: seq<string>): Net {
    if |tokens| < 3 then n
    else
      var guest := FindNick(NicksOf(n.clients), tokens[1]);
      var i := Find(n.chans, tokens[2]);
      if guest.None? || i == |n.chans| || fd !in n.chans[i].members || guest.value in n.chans[i].members then n
      else if InviteOnly in n.chans[i].flags && fd in n.chans[i].operators then
        SetChan(n, i, n.chans[i].(invited := n.chans[i].invited + {guest.value}))
      else n
  }

  /** The loop of a MODE request on a channel. */
  ghost function ModeLoop(n: Net, i: nat, tokens: seq<string>): Loop
    requires i < |n.chans| && |tokens| >= 3
  {
    Turns(Start(n.chans[i], tokens[3..]), tokens[2], NicksOf(n.clients))
  }

  /** Whether a MODE request gets as far as the loop, and on which channel. */
  predicate ModeAllowed(n: Net, fd: int, tokens: seq<string>) {
    |tokens| >= 3 && tokens[1] != "" && (tokens[1][0] == '#' || tokens[1][0] == '&') &&
    var i := Find(n.chans, tokens[1]);
    i < |n.chans| && fd in n.chans[i].members && fd in n.chans[i].operators
  }

  ghost function Mode(n: Net, fd: int, tokens: seq<string>): Net {
    if ModeAllowed(n, fd, tokens) then
      var i := Find(n.chans, tokens[1]);
      SetChan(n, i, View(ModeLoop(n, i, tokens).chan))
    else n
  }

  /** Who hears that a client quits: the members of every channel on its own list. */
  function Audience(n: Net, fd: int): set<int>
    requires fd in n.clients
  {
    Gathered(n.chans, n.clients[fd].channels) - {fd}
  }

  function Gathered(chans: seq<Chan>, list: seq<string>): set<int> {
    if list == [] then {}
    else
      var i := Find(chans, list[|list| - 1]);
      Gathered(chans, list[..|list| - 1]) + if i < |chans| then chans[i].members else {}
  }

  function Quit(n: Net, fd: int): Net
    requires fd in n.clients
  {
    n.(clients := n.clients[fd := n.clients[fd].(quitting := true)])
  }

  // ----- connections -----

  function Connect(n: Net, fd: int): Net {
    if fd in n.clients then n else n.(clients := n.clients[fd := NEWCOMER])
  }

  function Rename(n: Net, fd: int, nick: string): Net
    requires fd in n.clients
  {
    n.(clients := n.clients[fd := n.clients[fd].(nick := Lower(nick))])
  }

  /** A registration is completed; it takes a nickname. */
  function Registered(n: Net, fd: int): Net
    requires fd in n.clients
  {
    if n.clients[fd].nick == "" then n else n.(clients := n.clients[fd := n.clients[fd].(registered := true)])
  }

  /** The channels after a client has left all of them: emptied ones are gone. */
  function Swept(chans: seq<Chan>, fd: int): seq<Chan> {
    if chans == [] then []
    else
      var c := chans[|chans| - 1].Leave(fd);
      Swept(chans[..|chans| - 1], fd) + if c.members == {} then [] else [c]
  }

  /** `removeClient` */
  function Disconnect(n: Net, fd: int): Net {
    Net(Swept(n.chans, fd), n.clients - {fd})
  }

  // ----- runs -----

  /** A new connection, a successful NICK, a completed registration, a line of words from a client, or the end of a
      connection. */
  datatype Request =
    | Accept(fd: int)
    | Nick(fd: int, nick: string)
    | Register(fd: int)
    | Line(fd: int, tokens: seq<string>)
    | Drop(fd: int)

  ghost function Perform(n: Net, fd: int, tokens: seq<string>): Net
    requires fd in n.clients
  {
    if tokens == [] then n
    else if tokens[0] == "JOIN" then Join(n, fd, tokens)
    else if tokens[0] == "PART" then Part(n, fd, tokens)
    else if tokens[0] == "KICK" then Kick(n, fd, tokens)
    else if tokens[0] == "INVITE" then Invite(n, fd, tokens)
    else if tokens[0] == "MODE" then Mode(n, fd, tokens)
    else if tokens[0] == "QUIT" then Quit(n, fd)
    else n
  }

  ghost function Step(n: Net, r: Request): Net {
    match r
    case Accept(fd) => Connect(n, fd)
    case Nick(fd, nick) => if fd in n.clients then Rename(n, fd, nick) else n
    case Register(fd) => if fd in n.clients then Registered(n, fd) else n
    case Line(fd, tokens) => if fd in n.clients && n.clients[fd].registered then Perform(n, fd, tokens) else n
    case Drop(fd) => Disconnect(n, fd)
  }

  ghost function Run(requests: seq<Request>): Net {
    if requests == [] then EMPTY else Step(Run(requests[..|requests| - 1]), requests[|requests| - 1])
  }
}
