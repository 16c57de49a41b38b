/** mariia: what the invariant gives, in every reachable state. */
module NetTheorems {
  import opened Lists
  import opened Strings
  import opened Tokens
  import opened Channel
  import opened ModeLog
  import opened ModeWire
  import opened Net
  import opened NetInvariant

  // ----- the client's own list -----

  /** A client's own list says exactly which channels it is in. */
  ghost predicate IndexAgrees(n: Net, fd: int)
    requires fd in n.clients
  {
    var list := n.clients[fd].channels;
    NoRepeats(list) && (set e | e in list) == Memberships(n.chans, fd)
  }

  predicate AllLower(list: seq<string>) {
    forall i :: 0 <= i < |list| ==> IsLower(list[i])
  }

  /** In every reachable state a client's list agrees with its memberships exactly when all names on it are in
      lower case. (A channel is created under a lower-case name, but the creator's list keeps the name as it was
      typed.) */
  lemma IndexExact(requests: seq<Request>, fd: int)
    requires fd in Run(requests).clients
    ensures IndexAgrees(Run(requests), fd) <==> AllLower(Run(requests).clients[fd].channels)
  {
    Reachable(requests);
    var n := Run(requests);
    var list, memberships := n.clients[fd].channels, Memberships(n.chans, fd);
    if AllLower(list) {
      forall m | m in memberships ensures m in list {
        var e :| e in list && Lower(e) == m;
      }
    }
    if IndexAgrees(n, fd) {
      forall i | 0 <= i < |list| ensures IsLower(list[i]) {
        assert list[i] in memberships;
        var k :| 0 <= k < |n.chans| && n.chans[k].name == list[i];
        assert GoodChan(n.chans[k], n.clients.Keys);
      }
    }
  }

  /** The test `== MAXCHANNELS` suffices: no client is ever in more than nine channels, whatever the names. */
  lemma AtMostNine(requests: seq<Request>, fd: int)
    requires fd in Run(requests).clients
    ensures |Memberships(Run(requests).chans, fd)| <= |Run(requests).clients[fd].channels| <= MAXCHANNELS
  {
    Reachable(requests);
    var n := Run(requests);
    var list := n.clients[fd].channels;
    var memberships, named := Memberships(n.chans, fd), set e | e in list :: Lower(e);
    LowerNames(list);
    assert memberships <= named;
    SubsetSize(memberships, named);
  }

  lemma {:induction false} LowerNames(list: seq<string>)
    ensures |set e | e in list :: Lower(e)| <= |list|
  {
    hide Lower;
    if list != [] {
      var front, last := list[..|list| - 1], list[|list| - 1];
      LowerNames(front);
      var before := set e | e in front :: Lower(e);
      assert (set e | e in list :: Lower(e)) == before + {Lower(last)} by {
        assert list == front + [last];
      }
    }
  }

  lemma {:induction false} SubsetSize<T>(a: set<T>, b: set<T>)
    requires a <= b
    ensures |a| <= |b|
    decreases |a|
  {
    if x :| x in a {
      SubsetSize(a - {x}, b - {x});
    }
  }

  /** The test `==` for a full channel is the test `>=`: MODE never lets the limit fall below the number of
      members. */
  lemma FullExact(requests: seq<Request>, i: nat)
    requires i < |Run(requests).chans|
    ensures var c := Run(requests).chans[i];
            LimitSet in c.flags ==> |c.members| <= c.limit && (|c.members| == c.limit <==> |c.members| >= c.limit)
  {
    Reachable(requests);
    assert GoodChan(Run(requests).chans[i], Run(requests).clients.Keys);
  }

  // ----- who hears a QUIT -----

  /** The other clients in a channel with this one. */
  ghost function Sharers(n: Net, fd: int): set<int> {
    set i, g | 0 <= i < |n.chans| && fd in n.chans[i].members && g in n.chans[i].members && g != fd :: g
  }

  /** A name leads to a channel that `g` is in. */
  predicate Leads(chans: seq<Chan>, name: string, g: int) {
    var i := Find(chans, name);
    i < |chans| && g in chans[i].members
  }

  lemma {:induction false} GatheredIs(chans: seq<Chan>, list: seq<string>, g: int)
    ensures g in Gathered(chans, list) <==> exists e :: e in list && Leads(chans, e, g)
  {
    if list != [] {
      var front, last := list[..|list| - 1], list[|list| - 1];
      assert forall e :: e in list <==> e in front || e == last;
      GatheredIs(chans, front, g);
      assert g in Gathered(chans, list) <==> g in Gathered(chans, front) || Leads(chans, last, g);
    }
  }

  /** A name on the list that leads to a channel the client is not in. */
  predicate Stale(n: Net, fd: int, name: string) {
    var i := Find(n.chans, name);
    i < |n.chans| && fd !in n.chans[i].members
  }

  /** In every reachable state a QUIT is heard by every other client that shares a channel with the quitter; and
      by nobody else exactly when each stale name on the quitter's list leads to a channel of such clients only.
      */
  lemma QuitHeard(requests: seq<Request>, fd: int)
    requires fd in Run(requests).clients
    ensures var n := Run(requests);
            && Sharers(n, fd) <= Audience(n, fd)
            && (Audience(n, fd) == Sharers(n, fd) <==>
                  forall e, g :: e in n.clients[fd].channels && Stale(n, fd, e) && Leads(n.chans, e, g) ==> g in Sharers(n, fd))
  {
    Reachable(requests);
    HeardBySharersAndStale(Run(requests), fd);
  }

  lemma HeardBySharersAndStale(n: Net, fd: int)
    requires Inv(n) && fd in n.clients
    ensures forall g :: g in Audience(n, fd) <==>
              g in Sharers(n, fd) || (g != fd && exists e :: e in n.clients[fd].channels && Stale(n, fd, e) && Leads(n.chans, e, g))
    ensures forall e, g :: Stale(n, fd, e) && Leads(n.chans, e, g) ==> g != fd
  {
    hide Inv, Audience, Sharers;
    var list := n.clients[fd].channels;
    forall g
      ensures g in Audience(n, fd) <==>
              g in Sharers(n, fd) || (g != fd && exists e :: e in list && Stale(n, fd, e) && Leads(n.chans, e, g))
    {
      HeardBy(n, fd, g);
    }
  }

  lemma HeardBy(n: Net, fd: int, g: int)
    requires Inv(n) && fd in n.clients
    ensures var list := n.clients[fd].channels;
            g in Audience(n, fd) <==>
              g in Sharers(n, fd) || (g != fd && exists e :: e in list && Stale(n, fd, e) && Leads(n.chans, e, g))
  {
    hide Inv;
    var list := n.clients[fd].channels;
    GatheredIs(n.chans, list, g);
    hide Gathered;
    if g in Sharers(n, fd) {
      var i :| 0 <= i < |n.chans| && fd in n.chans[i].members && g in n.chans[i].members;
      NamedOnList(n, fd, i);
      var e :| e in list && Find(n.chans, e) == i;
      assert Leads(n.chans, e, g);
    }
    if e :| g != fd && e in list && Leads(n.chans, e, g) && !Stale(n, fd, e) {
      assert g in Sharers(n, fd);
    }
  }

  lemma NamedOnList(n: Net, fd: int, i: nat)
    requires Inv(n) && fd in n.clients && i < |n.chans| && fd in n.chans[i].members
    ensures exists e :: e in n.clients[fd].channels && Find(n.chans, e) == i
  {
    assert n.chans[i].name in Memberships(n.chans, fd);
    var e :| e in n.clients[fd].channels && Lower(e) == n.chans[i].name;
    assert GoodChan(n.chans[i], n.clients.Keys);
    assert Find(n.chans, e) == i;
  }

  /** With an agreeing list there are no stale names, and the announcement is exact. */
  lemma QuitExact(requests: seq<Request>, fd: int)
    requires fd in Run(requests).clients && AllLower(Run(requests).clients[fd].channels)
    ensures Audience(Run(requests), fd) == Sharers(Run(requests), fd)
  {
    QuitHeard(requests, fd);
    Reachable(requests);
    var n := Run(requests);
    var list := n.clients[fd].channels;
    forall e | e in list ensures !Stale(n, fd, e) {
      assert IsLower(e);
      assert e in Memberships(n.chans, fd);
      var i :| 0 <= i < |n.chans| && fd in n.chans[i].members && n.chans[i].name == e;
      FindByName(n.chans, i);
    }
  }

  // ----- runs that join under lower-case names -----

  /** Every JOIN of the run gives its names in lower case. */
  predicate LowerJoins(requests: seq<Request>) {
    forall k :: 0 <= k < |requests| && requests[k].Line? && |requests[k].tokens| >= 2 && requests[k].tokens[0] == "JOIN" ==>
      IsLower(requests[k].tokens[1])
  }

  ghost predicate AllListsLower(n: Net) {
    forall fd :: fd in n.clients ==> AllLower(n.clients[fd].channels)
  }

  lemma {:induction false} PiecesLower(s: string)
    requires IsLower(s)
    ensures AllLower(Pieces(s))
    decreases |s|
  {
    var i := IndexOf(s, ',');
    hide IndexOf;
    if s != "" {
      assert IsLower(s[..i]) by { assert forall k :: 0 <= k < |s| ==> Lower(s)[k] == LowerChar(s[k]); }
      if i < |s| {
        assert IsLower(s[i + 1..]) by {
          assert forall k :: 0 <= k < |s| ==> s[k] == LowerChar(s[k]);
        }
        PiecesLower(s[i + 1..]);
      }
    }
  }

  lemma {:induction false} InsertLower(sorted: seq<string>, s: string)
    requires AllLower(sorted) && IsLower(s)
    ensures AllLower(Insert(sorted, s))
  {
    hide IsLower;
    if sorted != [] {
      InsertLower(sorted[1..], s);
    }
  }

  lemma {:induction false} UniqueSortedLower(pieces: seq<string>)
    requires AllLower(pieces)
    ensures AllLower(UniqueSorted(pieces))
  {
    hide IsLower;
    if pieces != [] {
      UniqueSortedLower(pieces[..|pieces| - 1]);
      InsertLower(UniqueSorted(pieces[..|pieces| - 1]), pieces[|pieces| - 1]);
    }
  }

  lemma {:induction false} JoinAllLower(n: Net, fd: int, names: seq<string>, keys: seq<string>)
    requires Inv(n) && AllListsLower(n) && fd in n.clients && AllLower(names)
    ensures AllListsLower(JoinAll(n, fd, names, keys))
    decreases |names|
  {
    hide IsLower, GoodList, KeyAgrees;
    if names != [] && |n.clients[fd].channels| != MAXCHANNELS {
      var key := if keys == [] then "" else keys[0];
      assert |n.clients[fd].channels| < MAXCHANNELS by { ListBound(n, fd); }
      JoinOneKeeps(n, fd, names[0], key);
      JoinOneLower(n, fd, names[0], key);
      JoinAllLower(JoinOne(n, fd, names[0], key), fd, names[1..], if keys == [] then [] else keys[1..]);
    }
  }

  lemma ListBound(n: Net, fd: int)
    requires Inv(n) && fd in n.clients
    ensures |n.clients[fd].channels| <= MAXCHANNELS
  {
  }

  lemma JoinOneLower(n: Net, fd: int, name: string, key: string)
    requires Inv(n) && AllListsLower(n) && fd in n.clients && IsLower(name)
    ensures AllListsLower(JoinOne(n, fd, name, key))
  {
    var i := Find(n.chans, name);
    if i < |n.chans| {
      assert GoodChan(n.chans[i], n.clients.Keys);
    }
  }

  lemma LeftLower(n: Net, fd: int, i: nat)
    requires AllListsLower(n) && fd in n.clients && i < |n.chans|
    ensures AllListsLower(Left(n, fd, i)) && Left(n, fd, i).clients.Keys == n.clients.Keys
  {
    hide IsLower;
    RemoveFirstIn(n.clients[fd].channels, n.chans[i].name);
    var list := RemoveFirst(n.clients[fd].channels, n.chans[i].name);
    forall k | 0 <= k < |list| ensures IsLower(list[k]) {
      assert list[k] in n.clients[fd].channels;
    }
  }

  lemma {:induction false} PartAllLower(n: Net, fd: int, names: seq<string>)
    requires AllListsLower(n) && fd in n.clients
    ensures AllListsLower(PartAll(n, fd, names))
    decreases |names|
  {
    hide AllListsLower, Left;
    if names != [] {
      var i := Find(n.chans, names[0]);
      if i < |n.chans| && fd in n.chans[i].members {
        LeftLower(n, fd, i);
      }
      PartAllLower(PartOne(n, fd, names[0]), fd, names[1..]);
    }
  }

  lemma StepLower(n: Net, r: Request)
    requires Inv(n) && AllListsLower(n) && LowerJoins([r])
    ensures AllListsLower(Step(n, r))
  {
    hide Inv, JoinAll, PartAll, Left, Turns, IsLower;
    match r {
      case Line(fd, tokens) =>
        if fd in n.clients && |tokens| >= 2 {
          if tokens[0] == "JOIN" {
            assert [r][0] == r;
            PiecesLower(tokens[1]);
            UniqueSortedLower(Pieces(tokens[1]));
            JoinAllLower(n, fd, UniqueSorted(Pieces(tokens[1])), if |tokens| > 2 then Pieces(tokens[2]) else []);
          } else if tokens[0] == "PART" {
            PartAllLower(n, fd, UniqueSorted(Pieces(tokens[1])));
          } else if tokens[0] == "KICK" && |tokens| >= 3 {
            var target, i := FindNick(NicksOf(n.clients), tokens[2]), Find(n.chans, tokens[1]);
            if target.Some? && i < |n.chans| {
              LeftLower(n, target.value, i);
            }
          }
        }
      case _ =>
    }
  }

  /** In a run that joins under lower-case names only, every list agrees and every QUIT is announced exactly. */
  lemma {:induction false} LowerRunsLower(requests: seq<Request>)
    requires LowerJoins(requests)
    ensures AllListsLower(Run(requests))
    decreases |requests|
  {
    hide Inv, Step, IsLower;
    if requests != [] {
      var front, last := requests[..|requests| - 1], requests[|requests| - 1];
      LowerRunsLower(front);
      Reachable(front);
      StepLower(Run(front), last);
    }
  }

  lemma LowerRunsAgree(requests: seq<Request>, fd: int)
    requires LowerJoins(requests) && fd in Run(requests).clients
    ensures IndexAgrees(Run(requests), fd) && Audience(Run(requests), fd) == Sharers(Run(requests), fd)
  {
    LowerRunsLower(requests);
    IndexExact(requests, fd);
    QuitExact(requests, fd);
  }

  lemma SingleName(name: string)
    requires name != "" && ',' !in name
    ensures UniqueSorted(Pieces(name)) == [name]
  {
    Absent(name, ',');
    assert [name][..0] == [];
  }

  /** Two clients connect, choose nicknames and register. */
  const TWO_CLIENTS: seq<Request> :=
    [] + [Accept(1)] + [Accept(2)] + [Nick(1, "a")] + [Nick(2, "b")] + [Register(1)] + [Register(2)]

  /** The run in which client 1 opens a channel and leaves it, and client 2 opens one of the same name. */
  function OpenLeaveOpen(name: string): seq<Request> {
    TWO_CLIENTS + [Line(1, ["JOIN", name])] + [Line(1, ["PART", name])] + [Line(2, ["JOIN", name])]
  }

  lemma Snoc(requests: seq<Request>, r: Request)
    ensures Run(requests + [r]) == Step(Run(requests), r)
  {
    assert (requests + [r])[..|requests|] == requests;
  }

  lemma JoinSingle(n: Net, fd: int, name: string)
    requires fd in n.clients && n.clients[fd].registered && |n.clients[fd].channels| < MAXCHANNELS
    requires name != "" && ',' !in name
    ensures Step(n, Line(fd, ["JOIN", name])) == JoinOne(n, fd, name, "")
  {
    hide JoinOne;
    SingleName(name);
    assert [name][1..] == [];
    assert JoinAll(n, fd, [name], []) == JoinOne(n, fd, name, "");
  }

  lemma PartSingle(n: Net, fd: int, name: string)
    requires fd in n.clients && n.clients[fd].registered && name != "" && ',' !in name
    ensures Step(n, Line(fd, ["PART", name])) == PartOne(n, fd, name)
  {
    hide PartOne;
    SingleName(name);
    assert [name][1..] == [];
    assert PartAll(n, fd, [name]) == PartOne(n, fd, name);
  }

  lemma OpensEmpty(n: Net, fd: int, name: string)
    requires n.chans == [] && fd in n.clients && ValidChannelName(name) && n.clients[fd].channels == []
    ensures JoinOne(n, fd, name, "")
         == Net([Created(name, "", fd)], n.clients[fd := n.clients[fd].(channels := [name])])
  {
    hide ValidName;
    assert [] + [Created(name, "", fd)] == [Created(name, "", fd)] && [] + [name] == [name];
  }

  /** The only member leaves: the channel goes, but a name that is not in lower case stays on the list. */
  lemma LeavesStale(n: Net, fd: int, name: string)
    requires n.chans == [Created(name, "", fd)] && fd in n.clients && n.clients[fd].channels == [name] && !IsLower(name)
    ensures PartOne(n, fd, name) == n.(chans := [])
  {
    LowerTwice(name);
    var c := n.chans[0].Leave(fd);
    assert c.members == {};
    assert [name][1..] == [] && RemoveFirst([name], c.name) == [name] + RemoveFirst([], c.name) == [name];
    assert n.chans[0 := c] == [c] && [c][..0] + [c][1..] == [];
    assert n.clients[fd := n.clients[fd].(channels := [name])] == n.clients;
  }

  /** The condition is exact for each single name: opening, leaving and opening again under a valid name that is
      not in lower case leaves a stale entry behind, and the quitter is then announced to a stranger. */
  lemma StaleNameIsHeard(name: string)
    requires ValidChannelName(name) && ',' !in name && !IsLower(name)
    ensures var n := Run(OpenLeaveOpen(name));
            1 in n.clients && Audience(n, 1) == {2} && Sharers(n, 1) == {}
  {
    hide Step, JoinOne, PartOne, ValidChannelName, IsLower, Run;
    var e2 := TWO_CLIENTS;
    var e3 := e2 + [Line(1, ["JOIN", name])];
    var e4 := e3 + [Line(1, ["PART", name])];
    TwoConnected();
    var n := Net([], map[1 := Cli("a", [], true, false), 2 := Cli("b", [], true, false)]);
    assert name != "" by { ValidNotEmpty(name); }
    Snoc(e2, Line(1, ["JOIN", name]));
    JoinSingle(n, 1, name);
    OpensEmpty(n, 1, name);
    var a := JoinOne(n, 1, name, "");
    Snoc(e3, Line(1, ["PART", name]));
    PartSingle(a, 1, name);
    LeavesStale(a, 1, name);
    var b := PartOne(a, 1, name);
    Snoc(e4, Line(2, ["JOIN", name]));
    JoinSingle(b, 2, name);
    OpensEmpty(b, 2, name);
    HeardByStranger(JoinOne(b, 2, name, ""), name);
  }

  lemma ValidNotEmpty(name: string)
    requires ValidChannelName(name)
    ensures name != ""
  {
  }

  lemma TwoConnected()
    ensures Run(TWO_CLIENTS) == Net([], map[1 := Cli("a", [], true, false), 2 := Cli("b", [], true, false)])
  {
    hide Run, Perform, Disconnect;
    var e0: seq<Request> := [];
    var e1 := e0 + [Accept(1)];
    var e2 := e1 + [Accept(2)];
    var e3 := e2 + [Nick(1, "a")];
    var e4 := e3 + [Nick(2, "b")];
    var e5 := e4 + [Register(1)];
    assert Run(e0) == EMPTY by { NothingYet(); }
    Snoc(e0, Accept(1));
    Snoc(e1, Accept(2));
    Snoc(e2, Nick(1, "a"));
    Snoc(e3, Nick(2, "b"));
    Snoc(e4, Register(1));
    Snoc(e5, Register(2));
    assert Lower("a") == "a" && Lower("b") == "b";
  }

  lemma NothingYet()
    ensures Run([]) == EMPTY
  {
  }

  lemma HeardByStranger(m: Net, name: string)
    requires m.chans == [Created(name, "", 2)] && 1 in m.clients && m.clients[1].channels == [name]
    ensures Audience(m, 1) == {2} && Sharers(m, 1) == {}
  {
    assert Find(m.chans, name) == 0;
    assert [name][..0] == [];
    assert Gathered(m.chans, [name]) == Gathered(m.chans, []) + {2};
  }

  // ----- MODE in reachable states -----

  /** In every reachable state: whoever may change the modes of a channel, the broadcast of any MODE line, read
      back as a MODE line of the same client, leads to the same state as the line itself. */
  lemma ReachableReplay(requests: seq<Request>, fd: int, line: string)
    requires fd in Run(requests).clients
    requires ModeAllowed(Run(requests), fd, Words(line))
    ensures var n, tokens := Run(requests), Words(line);
            var r := ModeLoop(n, Find(n.chans, tokens[1]), tokens);
            r.changedModes != "" ==>
              Mode(n, fd, Words("MODE " + BroadcastText(tokens[1], r.changedModes, r.parametersSet))) == Mode(n, fd, tokens)
    ensures var n, tokens := Run(requests), Words(line);
            ModeLoop(n, Find(n.chans, tokens[1]), tokens).changedModes == "" ==> Mode(n, fd, tokens) == n
  {
    hide Words, Turns, BroadcastText, Step;
    Reachable(requests);
    var n, tokens := Run(requests), Words(line);
    var i := Find(n.chans, tokens[1]);
    assert GoodChan(n.chans[i], n.clients.Keys);
    var nicks := NicksOf(n.clients);
    ReplayOverTheWire(n.chans[i], line, nicks);
    var r := ModeLoop(n, i, tokens);
    if r.changedModes != "" {
      var heard := Words("MODE " + BroadcastText(tokens[1], r.changedModes, r.parametersSet));
      assert heard[1] == heard[..2][1] == tokens[1];
      assert ModeAllowed(n, fd, heard);
      SameView(ModeLoop(n, i, heard).chan, r.chan);
    } else {
      EmptyBroadcast(n.chans[i], tokens[2], tokens[3..], nicks);
      SameView(r.chan, n.chans[i]);
      assert n.chans[i := n.chans[i]] == n.chans;
    }
  }

  /** No broadcast, no change. */
  lemma EmptyBroadcast(c: Chan, modes: string, parameters: seq<string>, nicks: Nicks)
    requires KeyAgrees(c)
    ensures var r := Turns(Start(c, parameters), modes, nicks);
            r.changedModes == "" ==> Same(r.chan, c)
  {
    hide Handle;
    var l := Start(c, parameters);
    LoopIsLog(l, modes, nicks);
    var ops := Applied(l, modes, nicks);
    assert "" + Letters(ops, '+') == Letters(ops, '+');
  }
}
