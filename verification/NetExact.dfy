/** mariia: the outcome of every request on channels, spelled out for each channel and each client. */
module NetExact {
  import opened Option
  import opened Strings
  import opened Tokens
  import opened Channel
  import opened ModeLog
  import opened Net
  import opened NetInvariant
  import opened NetAuthority
  import opened ModeExact

  // ----- leaving -----

  /** What stays of a channel when this client leaves it. */
  function Remainder(c: Chan, fd: int): Option<Chan> {
    if c.members <= {fd} then None else Some(Less(c, fd))
  }

  /** Nothing changes for the clients but the list of this one. */
  ghost predicate OnlyListOf(n: Net, m: Net, fd: int)
    requires fd in n.clients
  {
    && m.clients.Keys == n.clients.Keys
    && (forall g :: g in n.clients && g != fd ==> m.clients[g] == n.clients[g])
    && m.clients[fd] == n.clients[fd].(channels := m.clients[fd].channels)
  }

  lemma LeftClient(n: Net, fd: int, i: nat)
    requires fd in n.clients && i < |n.chans|
    ensures var m := Left(n, fd, i);
            OnlyListOf(n, m, fd) && m.clients[fd].channels == RemoveFirst(n.clients[fd].channels, n.chans[i].name)
  {
  }

  lemma PartOneExact(n: Net, fd: int, name: string)
    requires Inv(n) && fd in n.clients
    ensures var m := PartOne(n, fd, name);
            && Inv(m) && OnlyListOf(n, m, fd)
            && forall x ::
                 Lookup(m.chans, x) ==
                   match Lookup(n.chans, x)
                   case None => None
                   case Some(c) => if Lower(x) == Lower(name) && fd in c.members then Remainder(c, fd) else Some(c)
  {
    hide Inv, Left, RemoveFirst;
    var m := PartOne(n, fd, name);
    var i := Find(n.chans, name);
    forall x | Lower(x) == Lower(name) ensures Find(n.chans, x) == i { SameName(n.chans, x, name); }
    if i < |n.chans| && fd in n.chans[i].members {
      LeaveKeeps(n, fd, i);
      LeftClient(n, fd, i);
      forall x ensures Lookup(m.chans, x) == if n.chans[i].name != Lower(x) then Lookup(n.chans, x) else Remainder(n.chans[i], fd) {
        LeftLookup(n, fd, i, x);
      }
    }
  }

  /** Some of the names leads to this channel. */
  ghost predicate Named(names: seq<string>, x: string) {
    exists k :: 0 <= k < |names| && Lower(names[k]) == Lower(x)
  }

  /** PART with a list of names: the client leaves every channel named that it is in, and nothing else changes. */
  lemma {:induction false} PartListExact(n: Net, fd: int, names: seq<string>)
    requires Inv(n) && fd in n.clients
    ensures var m := PartAll(n, fd, names);
            && OnlyListOf(n, m, fd)
            && forall x ::
                 Lookup(m.chans, x) ==
                   match Lookup(n.chans, x)
                   case None => None
                   case Some(c) => if Named(names, x) && fd in c.members then Remainder(c, fd) else Some(c)
    decreases |names|
  {
    hide Inv, PartOne, Lookup;
    if names != [] {
      var first := PartOne(n, fd, names[0]);
      PartOneExact(n, fd, names[0]);
      PartListExact(first, fd, names[1..]);
      forall x ensures Named(names, x) <==> Lower(names[0]) == Lower(x) || Named(names[1..], x) {
        NamedCons(names, x);
      }
    }
  }

  lemma NamedCons(names: seq<string>, x: string)
    requires names != []
    ensures Named(names, x) <==> Lower(names[0]) == Lower(x) || Named(names[1..], x)
  {
    if k :| 0 <= k < |names| && Lower(names[k]) == Lower(x) {
      assert k > 0 ==> names[1..][k - 1] == names[k];
    }
  }

  // ----- entering -----

  /** A name under which a channel can be opened. */
  predicate Openable(name: string) {
    |name| >= 2 && (name[0] == '#' || name[0] == '&') && KeyAllowed(name[1..])
  }

  /** A known channel lets in who is not in it, is invited if need be, finds room and knows the key; an unknown one is
      opened under any proper name. */
  predicate Admitted(n: Net, fd: int, name: string, key: string) {
    match Lookup(n.chans, name)
    case Some(c) =>
      && fd !in c.members
      && (InviteOnly in c.flags ==> fd in c.invited)
      && (LimitSet in c.flags ==> |c.members| < c.limit)
      && key == c.key
    case None => Openable(name)
  }

  /** The channel after the client has come in; a new one has it as the one member and operator. */
  function Entered(before: Option<Chan>, fd: int, name: string, key: string): Chan {
    match before
    case Some(c) => More(c, fd)
    case None => Chan(Lower(name), if key == "" then {TopicSet} else {TopicSet, KeySet}, key, 0, {fd}, {fd}, {})
  }

  /** The name that goes on the client's own list: the stored one of a known channel, a new one as it was typed. */
  function OnList(n: Net, name: string): string {
    if Lookup(n.chans, name).Some? then Lookup(n.chans, name).value.name else name
  }

  lemma AdmittedIs(n: Net, fd: int, name: string, key: string)
    requires Inv(n)
    ensures Lookup(n.chans, name).Some? ==>
              (Admitted(n, fd, name, key) <==> MayEnter(Lookup(n.chans, name).value, fd, key))
    ensures Lookup(n.chans, name).None? ==> (Admitted(n, fd, name, key) <==> ValidChannelName(name))
  {
    hide KeyAllowed, GoodList;
    if Lookup(n.chans, name).Some? {
      assert GoodChan(Lookup(n.chans, name).value, n.clients.Keys);
    }
    if name != "" {
      KeyAllowedIs(name[1..]);
    }
    KeyAllowedIs("");
  }

  lemma JoinOneExact(n: Net, fd: int, name: string, key: string)
    requires Inv(n) && fd in n.clients
    ensures var m := JoinOne(n, fd, name, key);
            if !Admitted(n, fd, name, key) then m == n
            else
              && OnlyListOf(n, m, fd)
              && m.clients[fd].channels == n.clients[fd].channels + [OnList(n, name)]
              && forall x :: Lookup(m.chans, x) == if Lower(x) == Lower(name)
                                                   then Some(Entered(Lookup(n.chans, name), fd, name, key))
                                                   else Lookup(n.chans, x)
  {
    hide MayEnter, ValidChannelName, Admitted, Inv;
    AdmittedIs(n, fd, name, key);
    var m := JoinOne(n, fd, name, key);
    if Admitted(n, fd, name, key) {
      forall x ensures Lookup(m.chans, x) == if Lower(x) == Lower(name)
                                             then Some(Entered(Lookup(n.chans, name), fd, name, key))
                                             else Lookup(n.chans, x)
      {
        EnteredAt(n, fd, name, key, x);
      }
    }
  }

  lemma EnteredAt(n: Net, fd: int, name: string, key: string, x: string)
    requires fd in n.clients
    requires if Lookup(n.chans, name).Some? then MayEnter(Lookup(n.chans, name).value, fd, key) else ValidChannelName(name)
    ensures Lookup(JoinOne(n, fd, name, key).chans, x) ==
              if Lower(x) == Lower(name) then Some(Entered(Lookup(n.chans, name), fd, name, key)) else Lookup(n.chans, x)
  {
    hide ValidName, MayEnter;
    var i := Find(n.chans, name);
    if Lower(x) == Lower(name) {
      SameName(n.chans, x, name);
    }
    if i < |n.chans| {
      FindSet(n.chans, i, n.chans[i].Enter(fd), x);
    } else {
      FindSnoc(n.chans, Created(name, key, fd), x);
    }
  }

  // ----- a list of names -----

  function KeyAt(keys: seq<string>, k: nat): string {
    if k < |keys| then keys[k] else ""
  }

  /** The first of the names for its channel under which the client is admitted. */
  ghost predicate Enters(n: Net, fd: int, names: seq<string>, keys: seq<string>, k: nat)
    requires k < |names|
  {
    && Admitted(n, fd, names[k], KeyAt(keys, k))
    && forall j :: 0 <= j < k && Lower(names[j]) == Lower(names[k]) ==> !Admitted(n, fd, names[j], KeyAt(keys, j))
  }

  /** What the first `k` names put on the client's own list; it never gets longer than nine. */
  ghost function Joins(n: Net, fd: int, names: seq<string>, keys: seq<string>, k: nat): seq<string>
    requires k <= |names| && fd in n.clients
    decreases k, 0
  {
    if k == 0 then []
    else if GetsIn(n, fd, names, keys, k - 1) then Joins(n, fd, names, keys, k - 1) + [OnList(n, names[k - 1])]
    else Joins(n, fd, names, keys, k - 1)
  }

  /** The client gets into the channel of this name: it is admitted, and is in fewer than nine channels by then. */
  ghost predicate GetsIn(n: Net, fd: int, names: seq<string>, keys: seq<string>, k: nat)
    requires k < |names| && fd in n.clients
    decreases k, 1
  {
    Enters(n, fd, names, keys, k) && |n.clients[fd].channels| + |Joins(n, fd, names, keys, k)| < 9
  }

  function Rest(keys: seq<string>): seq<string> {
    if keys == [] then [] else keys[1..]
  }

  /** After the first name, the others are admitted as before, unless they name the channel just entered. */
  lemma AdmittedAfter(n: Net, fd: int, first: string, key: string, name: string, given: string)
    requires Inv(n) && fd in n.clients
    ensures var m := JoinOne(n, fd, first, key);
            && (Admitted(m, fd, name, given) <==>
                  Admitted(n, fd, name, given) && !(Lower(name) == Lower(first) && Admitted(n, fd, first, key)))
            && (Admitted(m, fd, name, given) ==>
                  OnList(m, name) == OnList(n, name) && Lookup(m.chans, name) == Lookup(n.chans, name))
  {
    hide Inv, JoinOne, Lookup, Openable;
    JoinOneExact(n, fd, first, key);
  }

  lemma EntersAfter(n: Net, fd: int, names: seq<string>, keys: seq<string>, k: nat)
    requires Inv(n) && fd in n.clients && 0 < k < |names|
    ensures var m := JoinOne(n, fd, names[0], KeyAt(keys, 0));
            Enters(m, fd, names[1..], Rest(keys), k - 1) <==> Enters(n, fd, names, keys, k)
  {
    hide Inv, JoinOne, Admitted, Lower;
    var m := JoinOne(n, fd, names[0], KeyAt(keys, 0));
    forall j | 0 < j <= k
      ensures names[1..][j - 1] == names[j] && KeyAt(Rest(keys), j - 1) == KeyAt(keys, j)
      ensures Admitted(m, fd, names[j], KeyAt(keys, j)) <==>
                Admitted(n, fd, names[j], KeyAt(keys, j))
                && !(Lower(names[j]) == Lower(names[0]) && Admitted(n, fd, names[0], KeyAt(keys, 0)))
    {
      AdmittedAfter(n, fd, names[0], KeyAt(keys, 0), names[j], KeyAt(keys, j));
    }
    EntersShifted(n, m, fd, names, keys, k);
  }

  lemma EntersShifted(n: Net, m: Net, fd: int, names: seq<string>, keys: seq<string>, k: nat)
    requires 0 < k < |names|
    requires forall j :: 0 < j <= k ==>
               && names[1..][j - 1] == names[j] && KeyAt(Rest(keys), j - 1) == KeyAt(keys, j)
               && (Admitted(m, fd, names[j], KeyAt(keys, j)) <==>
                     Admitted(n, fd, names[j], KeyAt(keys, j))
                     && !(Lower(names[j]) == Lower(names[0]) && Admitted(n, fd, names[0], KeyAt(keys, 0))))
    ensures Enters(m, fd, names[1..], Rest(keys), k - 1) <==> Enters(n, fd, names, keys, k)
  {
    hide Admitted, Lower, KeyAt, Rest;
    if Enters(m, fd, names[1..], Rest(keys), k - 1) {
      forall j | 0 <= j < k && Lower(names[j]) == Lower(names[k]) ensures !Admitted(n, fd, names[j], KeyAt(keys, j)) {
        if j > 0 {
          assert !Admitted(m, fd, names[1..][j - 1], KeyAt(Rest(keys), j - 1));
        }
      }
    }
    if Enters(n, fd, names, keys, k) {
      forall j | 0 <= j < k - 1 && Lower(names[1..][j]) == Lower(names[1..][k - 1])
        ensures !Admitted(m, fd, names[1..][j], KeyAt(Rest(keys), j))
      {
        assert names[1..][(j + 1) - 1] == names[j + 1];
      }
    }
  }

  lemma {:induction false} JoinsAfter(n: Net, fd: int, names: seq<string>, keys: seq<string>, k: nat)
    requires Inv(n) && fd in n.clients && 0 < k <= |names| && |n.clients[fd].channels| < 9
    ensures var m := JoinOne(n, fd, names[0], KeyAt(keys, 0));
            && fd in m.clients
            && m.clients[fd].channels + Joins(m, fd, names[1..], Rest(keys), k - 1)
               == n.clients[fd].channels + Joins(n, fd, names, keys, k)
            && (k < |names| ==> (GetsIn(m, fd, names[1..], Rest(keys), k - 1) <==> GetsIn(n, fd, names, keys, k)))
    decreases k
  {
    hide Inv, JoinOne, Enters, OnList, Admitted;
    var m := JoinOne(n, fd, names[0], KeyAt(keys, 0));
    FirstJoins(n, fd, names, keys);
    if k > 1 {
      JoinsAfter(n, fd, names, keys, k - 1);
      var a, b := Joins(m, fd, names[1..], Rest(keys), k - 2), Joins(n, fd, names, keys, k - 1);
      var name := [OnList(n, names[k - 1])];
      assert m.clients[fd].channels + (a + name) == (m.clients[fd].channels + a) + name;
      assert n.clients[fd].channels + (b + name) == (n.clients[fd].channels + b) + name;
      if GetsIn(n, fd, names, keys, k - 1) {
        EntersAfter(n, fd, names, keys, k - 1);
        EntersAdmitted(m, fd, names[1..], Rest(keys), k - 2);
        AdmittedAfter(n, fd, names[0], KeyAt(keys, 0), names[k - 1], KeyAt(Rest(keys), k - 2));
      }
    }
    if k < |names| {
      EntersAfter(n, fd, names, keys, k);
    }
  }

  lemma EntersAdmitted(n: Net, fd: int, names: seq<string>, keys: seq<string>, k: nat)
    requires k < |names|
    ensures Enters(n, fd, names, keys, k) ==> Admitted(n, fd, names[k], KeyAt(keys, k))
  {
  }

  lemma FirstJoins(n: Net, fd: int, names: seq<string>, keys: seq<string>)
    requires Inv(n) && fd in n.clients && names != [] && |n.clients[fd].channels| < 9
    ensures var m := JoinOne(n, fd, names[0], KeyAt(keys, 0));
            && fd in m.clients
            && m.clients[fd].channels == n.clients[fd].channels + Joins(n, fd, names, keys, 1)
            && Joins(m, fd, names[1..], Rest(keys), 0) == []
            && (GetsIn(n, fd, names, keys, 0) <==> Admitted(n, fd, names[0], KeyAt(keys, 0)))
  {
    hide Inv, JoinOne, Admitted, OnList;
    JoinOneExact(n, fd, names[0], KeyAt(keys, 0));
    assert Joins(n, fd, names, keys, 0) == [];
    assert Joins(n, fd, names, keys, 1) == if GetsIn(n, fd, names, keys, 0) then [] + [OnList(n, names[0])] else [];
  }

  /** The state after JOIN with a list of names: the client is in each channel it gets into, nothing else changes
      about them, no other channel changes, and its own list has grown by their names in order. */
  ghost predicate Joined(n: Net, m: Net, fd: int, names: seq<string>, keys: seq<string>)
    requires fd in n.clients
  {
    && OnlyListOf(n, m, fd)
    && m.clients[fd].channels == n.clients[fd].channels + Joins(n, fd, names, keys, |names|)
    && (forall k :: 0 <= k < |names| && GetsIn(n, fd, names, keys, k) ==>
          Lookup(m.chans, names[k]) == Some(Entered(Lookup(n.chans, names[k]), fd, names[k], KeyAt(keys, k))))
    && (forall x :: (forall k :: 0 <= k < |names| && GetsIn(n, fd, names, keys, k) ==> Lower(names[k]) != Lower(x)) ==>
          Lookup(m.chans, x) == Lookup(n.chans, x))
  }

  lemma {:induction false} JoinListExact(n: Net, fd: int, names: seq<string>, keys: seq<string>)
    requires Inv(n) && fd in n.clients
    ensures Joined(n, JoinAll(n, fd, names, keys), fd, names, keys)
    decreases |names|
  {
    hide Inv, JoinOne, Joined, GoodList;
    var list := n.clients[fd].channels;
    ListAtMost(n, fd);
    if names == [] || |list| == MAXCHANNELS {
      FullList(n, fd, names, keys);
    } else {
      var m := JoinOne(n, fd, names[0], KeyAt(keys, 0));
      JoinOneKeeps(n, fd, names[0], KeyAt(keys, 0));
      JoinListExact(m, fd, names[1..], Rest(keys));
      JoinedCons(n, fd, names, keys, JoinAll(m, fd, names[1..], Rest(keys)));
    }
  }

  lemma ListAtMost(n: Net, fd: int)
    requires Inv(n) && fd in n.clients
    ensures |n.clients[fd].channels| <= 9
  {
  }

  /** With nine channels, or without names, nobody gets in. */
  lemma FullList(n: Net, fd: int, names: seq<string>, keys: seq<string>)
    requires fd in n.clients && (names == [] || |n.clients[fd].channels| == 9)
    ensures Joined(n, n, fd, names, keys)
  {
    hide Enters, Lookup;
    NoneJoins(n, fd, names, keys, |names|);
    assert n.clients[fd].channels + [] == n.clients[fd].channels;
  }

  lemma {:induction false} NoneJoins(n: Net, fd: int, names: seq<string>, keys: seq<string>, k: nat)
    requires fd in n.clients && (names == [] || |n.clients[fd].channels| == 9) && k <= |names|
    ensures Joins(n, fd, names, keys, k) == []
  {
    hide Enters;
    if k > 0 {
      NoneJoins(n, fd, names, keys, k - 1);
    }
  }

  /** The first name and then the others. */
  lemma JoinedCons(n: Net, fd: int, names: seq<string>, keys: seq<string>, end: Net)
    requires Inv(n) && fd in n.clients && names != [] && |n.clients[fd].channels| < 9
    requires var m := JoinOne(n, fd, names[0], KeyAt(keys, 0));
             fd in m.clients && Joined(m, end, fd, names[1..], Rest(keys))
    ensures Joined(n, end, fd, names, keys)
  {
    hide Inv, JoinOne, Lookup, Joins, Admitted, Entered, OnList, GetsIn, Enters;
    var m := JoinOne(n, fd, names[0], KeyAt(keys, 0));
    var tail := names[1..];
    JoinOneExact(n, fd, names[0], KeyAt(keys, 0));
    FirstJoins(n, fd, names, keys);
    JoinsAfter(n, fd, names, keys, |names|);
    forall k | 0 < k < |names|
      ensures GetsIn(m, fd, tail, Rest(keys), k - 1) <==> GetsIn(n, fd, names, keys, k)
      ensures tail[k - 1] == names[k] && KeyAt(Rest(keys), k - 1) == KeyAt(keys, k)
      ensures GetsIn(n, fd, names, keys, k) ==> Lookup(m.chans, names[k]) == Lookup(n.chans, names[k])
      ensures GetsIn(n, fd, names, keys, k) && GetsIn(n, fd, names, keys, 0) ==> Lower(names[k]) != Lower(names[0])
    {
      JoinsAfter(n, fd, names, keys, k);
      GetsInAfter(n, fd, names, keys, k);
    }
    forall x | forall k :: 0 <= k < |names| && GetsIn(n, fd, names, keys, k) ==> Lower(names[k]) != Lower(x)
      ensures Lookup(end.chans, x) == Lookup(n.chans, x)
    {
      forall k | 0 <= k < |tail| && GetsIn(m, fd, tail, Rest(keys), k) ensures Lower(tail[k]) != Lower(x) {
        assert GetsIn(n, fd, names, keys, k + 1);
      }
    }
    if GetsIn(n, fd, names, keys, 0) {
      forall k | 0 <= k < |tail| && GetsIn(m, fd, tail, Rest(keys), k) ensures Lower(tail[k]) != Lower(names[0]) {
        assert GetsIn(n, fd, names, keys, k + 1);
      }
      assert Lookup(end.chans, names[0]) == Lookup(m.chans, names[0]);
    }
    forall k | 0 < k < |names| && GetsIn(n, fd, names, keys, k)
      ensures Lookup(end.chans, names[k]) == Some(Entered(Lookup(n.chans, names[k]), fd, names[k], KeyAt(keys, k)))
    {
      assert GetsIn(m, fd, tail, Rest(keys), k - 1);
    }
  }

  lemma GetsInAfter(n: Net, fd: int, names: seq<string>, keys: seq<string>, k: nat)
    requires Inv(n) && fd in n.clients && 0 < k < |names|
    ensures var m := JoinOne(n, fd, names[0], KeyAt(keys, 0));
            GetsIn(n, fd, names, keys, k) ==>
              && Lookup(m.chans, names[k]) == Lookup(n.chans, names[k])
              && (Admitted(n, fd, names[0], KeyAt(keys, 0)) ==> Lower(names[k]) != Lower(names[0]))
  {
    hide Inv, JoinOne, Lookup, Admitted, Joins, Entered;
    JoinOneExact(n, fd, names[0], KeyAt(keys, 0));
  }

  // ----- whole requests -----

  /** A registered client sends this command. */
  ghost predicate Asks(n: Net, actor: int, tokens: seq<string>, command: string) {
    actor in n.clients && n.clients[actor].registered && tokens != [] && tokens[0] == command
  }

  /** JOIN: at most ten targets, in sorted order, each with its key by position. */
  lemma JoinRequest(n: Net, actor: int, tokens: seq<string>)
    requires Inv(n) && Asks(n, actor, tokens, "JOIN")
    ensures var m := Step(n, Line(actor, tokens));
            if |tokens| >= 2 && |UniqueSorted(Pieces(tokens[1]))| <= 10 then
              Joined(n, m, actor, UniqueSorted(Pieces(tokens[1])), if |tokens| == 2 then [] else Pieces(tokens[2]))
            else m == n
  {
    hide Inv, JoinAll, Joined;
    if |tokens| >= 2 {
      JoinListExact(n, actor, UniqueSorted(Pieces(tokens[1])), if |tokens| == 2 then [] else Pieces(tokens[2]));
    }
  }

  /** PART: the client leaves every channel named that it is in. */
  lemma PartRequest(n: Net, actor: int, tokens: seq<string>)
    requires Inv(n) && Asks(n, actor, tokens, "PART")
    ensures var m := Step(n, Line(actor, tokens));
            if |tokens| >= 2 && |UniqueSorted(Pieces(tokens[1]))| <= 10 then
              && OnlyListOf(n, m, actor)
              && forall x ::
                   Lookup(m.chans, x) ==
                     match Lookup(n.chans, x)
                     case None => None
                     case Some(c) =>
                       if Named(UniqueSorted(Pieces(tokens[1])), x) && actor in c.members then Remainder(c, actor) else Some(c)
            else m == n
  {
    hide Inv, PartAll, Lookup;
    if |tokens| >= 2 {
      PartListExact(n, actor, UniqueSorted(Pieces(tokens[1])));
    }
  }

  /** KICK: an operator's removes exactly the member that the nickname names, from that channel only; every other one
      changes nothing. */
  lemma KickRequest(n: Net, actor: int, tokens: seq<string>)
    requires Inv(n) && Asks(n, actor, tokens, "KICK")
    ensures var m := Step(n, Line(actor, tokens));
            var channel := if |tokens| >= 3 then Lookup(n.chans, tokens[1]) else None;
            var target := if |tokens| >= 3 then FindNick(NicksOf(n.clients), tokens[2]) else None;
            if channel.Some? && target.Some? && actor in channel.value.operators && target.value in channel.value.members then
              && target.value in n.clients && OnlyListOf(n, m, target.value)
              && forall x :: Lookup(m.chans, x) ==
                               if Lower(x) == Lower(tokens[1]) then Remainder(channel.value, target.value)
                               else Lookup(n.chans, x)
            else m == n
  {
    hide Left, GoodList;
    if |tokens| >= 3 && Lookup(n.chans, tokens[1]).Some? {
      var i := Find(n.chans, tokens[1]);
      assert GoodChan(n.chans[i], n.clients.Keys);
      var target := FindNick(NicksOf(n.clients), tokens[2]);
      if target.Some? && target.value in n.chans[i].members {
        LeftClient(n, target.value, i);
        LeftEverywhere(n, target.value, i);
      }
    }
  }

  lemma LeftEverywhere(n: Net, fd: int, i: nat)
    requires Inv(n) && fd in n.clients && i < |n.chans|
    ensures forall x :: Lookup(Left(n, fd, i).chans, x) ==
                          if n.chans[i].name == Lower(x) then Remainder(n.chans[i], fd) else Lookup(n.chans, x)
  {
    hide Left, Inv, Lookup;
    forall x ensures Lookup(Left(n, fd, i).chans, x) ==
                       if n.chans[i].name == Lower(x) then Remainder(n.chans[i], fd) else Lookup(n.chans, x)
    {
      LeftLookup(n, fd, i, x);
    }
  }

  /** INVITE: an operator's to a closed channel opens it for the guest, who is not in it; every other one changes
      nothing of what is modelled here. */
  lemma InviteRequest(n: Net, actor: int, tokens: seq<string>)
    requires Inv(n) && Asks(n, actor, tokens, "INVITE")
    ensures var m := Step(n, Line(actor, tokens));
            var guest := if |tokens| >= 3 then FindNick(NicksOf(n.clients), tokens[1]) else None;
            var channel := if |tokens| >= 3 then Lookup(n.chans, tokens[2]) else None;
            if guest.Some? && channel.Some? && InviteOnly in channel.value.flags && actor in channel.value.operators
               && guest.value !in channel.value.members then
              && m.clients == n.clients
              && forall x :: Lookup(m.chans, x) ==
                               if Lower(x) == Lower(tokens[2])
                               then Some(channel.value.(invited := channel.value.invited + {guest.value}))
                               else Lookup(n.chans, x)
            else m == n
  {
    hide GoodList;
    if |tokens| >= 3 && Lookup(n.chans, tokens[2]).Some? {
      var i := Find(n.chans, tokens[2]);
      var c := n.chans[i];
      assert GoodChan(c, n.clients.Keys);
      var guest := FindNick(NicksOf(n.clients), tokens[1]);
      if guest.Some? {
        var d := c.(invited := c.invited + {guest.value});
        forall x ensures Find(n.chans[i := d], x) == Find(n.chans, x) { FindSet(n.chans, i, d, x); }
        forall x | Lower(x) == Lower(tokens[2]) ensures Find(n.chans, x) == i { SameName(n.chans, x, tokens[2]); }
      }
    }
  }

  /** QUIT marks the client, and no other command or client line does anything to channels and clients. */
  lemma OtherRequests(n: Net, actor: int, tokens: seq<string>)
    ensures var m := Step(n, Line(actor, tokens));
            if Asks(n, actor, tokens, "QUIT") then
              && m.chans == n.chans && m.clients.Keys == n.clients.Keys
              && (forall g :: g in n.clients && g != actor ==> m.clients[g] == n.clients[g])
              && m.clients[actor] == n.clients[actor].(quitting := true)
            else if forall command :: command in {"JOIN", "PART", "KICK", "INVITE", "MODE"} ==> !Asks(n, actor, tokens, command)
            then m == n
            else true
  {
    hide Join, Part, Kick, Invite, Mode;
    if actor in n.clients && n.clients[actor].registered && tokens != []
       && tokens[0] in {"JOIN", "PART", "KICK", "INVITE", "MODE"} {
      assert Asks(n, actor, tokens, tokens[0]);
    }
  }

  /** What is not a line: connecting adds a nameless client if the descriptor is free, NICK and registration
      change that and nothing else. */
  lemma ClientRequests(n: Net, fd: int, nick: string)
    ensures var m := Step(n, Accept(fd));
            m.chans == n.chans && (fd in n.clients ==> m == n)
            && (fd !in n.clients ==> m.clients == n.clients[fd := Cli("", [], false, false)])
    ensures var m := Step(n, Nick(fd, nick));
            m.chans == n.chans && (fd !in n.clients ==> m == n)
            && (fd in n.clients ==> m.clients == n.clients[fd := n.clients[fd].(nick := Lower(nick))])
    ensures var m := Step(n, Register(fd));
            m.chans == n.chans && (fd !in n.clients || n.clients[fd].nick == "" ==> m == n)
            && (fd in n.clients && n.clients[fd].nick != "" ==> m.clients == n.clients[fd := n.clients[fd].(registered := true)])
  {
  }
}
