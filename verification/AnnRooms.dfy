/** ann: clients, channels, the poll list and the marks for deferred removal, as values. */
module AnnRooms {
  import opened Lists
  import opened Strings

  /** A client as the sweep sees it, with the channels it is invited to. */
  datatype Info = Info(nick: string, registered: bool, toSend: string, invits: set<string>)

  /** The options of a channel that decide who may join. */
  datatype Rules = Rules(pass: string, optI: bool, limit: nat)

  /** A channel: its members and admins, by descriptor, and its options. */
  datatype Room = Room(clis: set<int>, adms: set<int>, rules: Rules)

  const UINT_MAX: nat := 0xFFFF_FFFF

  /** A channel just opened by this client. */
  function Opening(fd: int): Room {
    Room({fd}, {fd}, Rules("", false, UINT_MAX))
  }

  datatype Hall = Hall(listener: int, clis: map<int, Info>, chs: map<string, Room>, polls: seq<int>, marked: set<int>)

  ghost predicate NicksApart(clis: map<int, Info>) {
    forall f, g :: f in clis && g in clis && f != g && clis[f].nick != "" ==> Lower(clis[f].nick) != Lower(clis[g].nick)
  }

  ghost predicate NamesApart(chs: map<string, Room>) {
    forall a, b :: a in chs && b in chs && Lower(a) == Lower(b) ==> a == b
  }

  /** Admins are members, and members are connected clients with a nickname. */
  ghost predicate GoodRoom(r: Room, clis: map<int, Info>) {
    && r.adms <= r.clis
    && forall f :: f in r.clis ==> f in clis && clis[f].nick != ""
  }

  ghost predicate Inv(h: Hall) {
    && NicksApart(h.clis)
    && NamesApart(h.chs)
    && (forall a :: a in h.chs ==> GoodRoom(h.chs[a], h.clis))
    && NoRepeats(h.polls)
    && (forall f :: f in h.polls <==> f == h.listener || f in h.clis)
    && h.listener !in h.clis
    && h.marked <= h.clis.Keys
  }

  function Opened(listener: int): Hall {
    Hall(listener, map[], map[], [listener], {})
  }

  // ----- the sweep, as relations: who becomes admin is not determined -----

  /** `eraseCliFromCh`: the client leaves; a channel left without an admin gets some member as one. */
  ghost predicate Expelled(r: Room, fd: int, s: Room) {
    && s.clis == r.clis - {fd} && s.rules == r.rules
    && if r.adms - {fd} == {} && s.clis != {} then exists x :: x in s.clis && s.adms == {x}
       else s.adms == r.adms - {fd}
  }

  /** What any number of expulsions leaves. */
  ghost predicate RoomSwept(r: Room, gone: set<int>, s: Room) {
    && s.clis == r.clis - gone && s.rules == r.rules
    && if gone == {} then s == r
       else if r.adms - gone != {} then s.adms == r.adms - gone
       else if s.clis == {} then s.adms == {}
       else exists x :: x in s.clis && s.adms == {x}
  }

  function Without(polls: seq<int>, gone: set<int>): seq<int> {
    if polls == [] then []
    else (if polls[0] in gone then [] else [polls[0]]) + Without(polls[1..], gone)
  }

  /** The marked clients that have nothing more to be sent. */
  function Finished(h: Hall): set<int> {
    set f | f in h.marked && f in h.clis && h.clis[f].toSend == ""
  }

  /** `eraseUnusedClis` */
  ghost predicate ClisSwept(h: Hall, k: Hall) {
    var gone := Finished(h);
    && k.listener == h.listener
    && k.clis == h.clis - gone
    && k.marked == (set f | f in h.marked && f in h.clis && h.clis[f].toSend != "")
    && k.polls == Without(h.polls, h.marked - k.marked)
    && k.chs.Keys == h.chs.Keys
    && forall a :: a in h.chs ==> RoomSwept(h.chs[a], gone, k.chs[a])
  }

  /** `eraseUnusedChs` */
  function ChsSwept(h: Hall): Hall {
    h.(chs := map a | a in h.chs && h.chs[a].clis != {} :: h.chs[a])
  }

  /** Expulsions compose. */
  lemma SweptOnce(r: Room, gone: set<int>, m: Room, fd: int, s: Room)
    requires r.adms <= r.clis && fd !in gone
    requires RoomSwept(r, gone, m) && Expelled(m, fd, s)
    ensures RoomSwept(r, gone + {fd}, s)
  {
    assert r.clis - gone - {fd} == r.clis - (gone + {fd});
    assert r.adms - gone - {fd} == r.adms - (gone + {fd});
    if r.adms - gone != {} || gone == {} {
    } else if m.clis == {} {
      assert s.clis == {};
    } else {
      var x :| x in m.clis && m.adms == {x};
      if x == fd {
        assert m.adms - {fd} == {};
      } else {
        assert m.adms - {fd} == {x};
        assert x in s.clis;
      }
    }
  }

  /** The invariant keeps admins members throughout. */
  lemma SweptGood(r: Room, gone: set<int>, s: Room, clis: map<int, Info>)
    requires GoodRoom(r, clis) && RoomSwept(r, gone, s)
    ensures GoodRoom(s, clis - gone)
    ensures s.clis != {} && (gone != {} || r.adms != {}) ==> s.adms != {}
  {
    assert gone == {} ==> r.clis - gone == r.clis;
  }

  lemma {:induction false} WithoutIn(polls: seq<int>, gone: set<int>)
    ensures forall f :: f in Without(polls, gone) <==> f in polls && f !in gone
  {
    if polls != [] {
      WithoutIn(polls[1..], gone);
      assert forall f :: f in polls <==> f == polls[0] || f in polls[1..];
    }
  }

  lemma {:induction false} WithoutRepeats(polls: seq<int>, gone: set<int>)
    requires NoRepeats(polls)
    ensures NoRepeats(Without(polls, gone))
  {
    if polls != [] {
      WithoutRepeats(polls[1..], gone);
      WithoutIn(polls[1..], gone);
    }
  }

  /** The sweep at the top of the event loop is exact: from any good state, after both halves of it a descriptor
      is still marked only if its client is still there with unsent output; the removed clients are exactly the
      marked ones without unsent output and are in no channel; the poll list is the listener and the clients; no
      channel is empty; and if anyone was removed, every channel has an admin. */
  lemma SweepExact(h: Hall, k: Hall)
    requires Inv(h) && ClisSwept(h, k)
    ensures var s := ChsSwept(k);
            && Inv(s)
            && (forall f :: f in s.marked ==> f in s.clis && s.clis[f].toSend != "")
            && (forall f :: f in h.clis && f !in s.clis <==> f in h.marked && f in h.clis && h.clis[f].toSend == "")
            && (forall f, a :: f in h.clis && f !in s.clis && a in s.chs ==> f !in s.chs[a].clis && f !in s.chs[a].adms)
            && (forall f :: f in s.polls <==> f == s.listener || f in s.clis)
            && (forall a :: a in s.chs ==> s.chs[a].clis != {})
            && (Finished(h) != {} ==> forall a :: a in s.chs ==> s.chs[a].adms != {})
    ensures forall a :: a in h.chs && a !in ChsSwept(k).chs <==> a in h.chs && h.chs[a].clis <= Finished(h)
  {
    var gone := Finished(h);
    WithoutIn(h.polls, h.marked - k.marked);
    WithoutRepeats(h.polls, h.marked - k.marked);
    assert h.marked - k.marked == gone;
    forall a | a in k.chs
      ensures GoodRoom(k.chs[a], k.clis)
      ensures k.chs[a].clis != {} && gone != {} ==> k.chs[a].adms != {}
      ensures k.chs[a].clis == h.chs[a].clis - gone
      ensures k.chs[a].clis == {} <==> h.chs[a].clis <= gone
    {
      SweptGood(h.chs[a], gone, k.chs[a], h.clis);
      forall x | x in h.chs[a].clis ensures x in gone || x in k.chs[a].clis {}
    }
    assert NamesApart(ChsSwept(k).chs);
  }

  // ----- the other steps of a run -----

  predicate NickChar(c: char) {
    c in "-[]^{}0123456789qwertyuiopasdfghjklzxcvbnmQWERTYUIOPASDFGHJKLZXCVBNM"
  }

  predicate NickAllowed(nick: string) {
    nick != "" && |nick| <= 9 && forall i :: 0 <= i < |nick| ==> NickChar(nick[i])
  }

  /** `execNick`: the comparison includes the client's own nickname. */
  ghost function Nick(h: Hall, fd: int, nick: string): Hall
    requires fd in h.clis
  {
    if !NickAllowed(nick) || exists g :: g in h.clis && Lower(h.clis[g].nick) == Lower(nick) then h
    else h.(clis := h.clis[fd := h.clis[fd].(nick := nick)])
  }

  /** What the key, the limit and the invitations say about a JOIN. */
  predicate Admits(r: Room, invits: set<string>, name: string, pass: string) {
    && (r.rules.pass == "" || pass == r.rules.pass)
    && |r.clis| < r.rules.limit
    && (r.rules.optI ==> name in invits)
  }

  ghost predicate CaseClash(chs: map<string, Room>, name: string) {
    exists a :: a in chs && a != name && Lower(a) == Lower(name)
  }

  /** One name of `execJoin`, past the checks on the name and the number of channels. The source follows a null
      pointer if the name differs from a known one only in case; here that changes nothing. */
  ghost function Joined(h: Hall, fd: int, name: string, pass: string): Hall
    requires fd in h.clis
  {
    var info := h.clis[fd];
    if !info.registered || info.nick == "" || CaseClash(h.chs, name) then h
    else if name in h.chs && fd in h.chs[name].clis then h
    else
      var r := if name in h.chs then h.chs[name] else Opening(fd);
      if Admits(r, info.invits, name, pass) then
        h.(chs := h.chs[name := r.(clis := r.clis + {fd})], clis := h.clis[fd := info.(invits := info.invits - {name})])
      else h
  }

  /** `execModeOneOoption` with +o or -o, for the member `fd` of channel `a`. */
  function Opped(h: Hall, a: string, fd: int, plus: bool): Hall
    requires a in h.chs
  {
    if fd !in h.chs[a].clis then h
    else
      var adms := if plus then h.chs[a].adms + {fd} else h.chs[a].adms - {fd};
      h.(chs := h.chs[a := h.chs[a].(adms := adms)])
  }

  function Accepted(h: Hall, fd: int): Hall {
    if fd in h.clis || fd == h.listener then h
    else h.(clis := h.clis[fd := Info("", false, "", {})], polls := h.polls + [fd])
  }

  /** Everything a step of the server may do to this part of its state. */
  datatype Event =
    | Accept(fd: int)
    | SetNick(fd: int, nick: string)
    | Register(fd: int)
    | Join(fd: int, name: string, pass: string)
    | Configure(name: string, rules: Rules)
    | Invite(fd: int, name: string)
    | Op(name: string, fd: int, plus: bool)
    | Leave(name: string, fd: int)
    | Output(fd: int, text: string)
    | Mark(fd: int)
    | Sweep

  ghost predicate Next(h: Hall, e: Event, k: Hall) {
    match e
    case Accept(fd) => k == Accepted(h, fd)
    case SetNick(fd, nick) => if fd in h.clis then k == Nick(h, fd, nick) else k == h
    case Register(fd) => if fd in h.clis then k == h.(clis := h.clis[fd := h.clis[fd].(registered := true)]) else k == h
    case Join(fd, name, pass) => if fd in h.clis then k == Joined(h, fd, name, pass) else k == h
    case Configure(name, rules) => if name in h.chs then k == h.(chs := h.chs[name := h.chs[name].(rules := rules)]) else k == h
    case Invite(fd, name) =>
      if fd in h.clis then k == h.(clis := h.clis[fd := h.clis[fd].(invits := h.clis[fd].invits + {name})]) else k == h
    case Op(name, fd, plus) => if name in h.chs then k == Opped(h, name, fd, plus) else k == h
    case Leave(name, fd) =>
      if name in h.chs then k == h.(chs := k.chs) && k.chs.Keys == h.chs.Keys && Expelled(h.chs[name], fd, k.chs[name])
                            && (forall a :: a in h.chs && a != name ==> k.chs[a] == h.chs[a])
      else k == h
    case Output(fd, text) => if fd in h.clis then k == h.(clis := h.clis[fd := h.clis[fd].(toSend := text)]) else k == h
    case Mark(fd) => if fd in h.clis then k == h.(marked := h.marked + {fd}) else k == h
    case Sweep => exists m :: ClisSwept(h, m) && k == ChsSwept(m)
  }

  /** A client may change in anything but its nickname, and that only for a free one. */
  lemma InfoKeeps(h: Hall, fd: int, info: Info)
    requires Inv(h) && fd in h.clis
    requires info.nick != h.clis[fd].nick ==>
               info.nick != "" && forall g :: g in h.clis ==> Lower(h.clis[g].nick) != Lower(info.nick)
    ensures Inv(h.(clis := h.clis[fd := info]))
  {
    hide Lower;
    var k := h.(clis := h.clis[fd := info]);
    forall a | a in k.chs ensures GoodRoom(k.chs[a], k.clis) {
      assert GoodRoom(h.chs[a], h.clis);
    }
  }

  lemma NickKeeps(h: Hall, fd: int, nick: string)
    requires Inv(h) && fd in h.clis
    ensures Inv(Nick(h, fd, nick))
  {
    hide NickChar, Inv;
    if Nick(h, fd, nick) != h {
      InfoKeeps(h, fd, h.clis[fd].(nick := nick));
    }
  }

  lemma AcceptedKeeps(h: Hall, fd: int)
    requires Inv(h)
    ensures Inv(Accepted(h, fd))
  {
    var k := Accepted(h, fd);
    forall a | a in k.chs ensures GoodRoom(k.chs[a], k.clis) {
      assert GoodRoom(h.chs[a], h.clis);
    }
  }

  lemma JoinedKeeps(h: Hall, fd: int, name: string, pass: string)
    requires Inv(h) && fd in h.clis
    ensures Inv(Joined(h, fd, name, pass))
  {
    hide Inv, Lower;
    var k := Joined(h, fd, name, pass);
    if k != h {
      var info := h.clis[fd];
      var r := if name in h.chs then h.chs[name] else Opening(fd);
      var m := h.(chs := h.chs[name := r.(clis := r.clis + {fd})]);
      JoinedGood(h, fd, name);
      RoomKeeps(h, name, m.chs[name]);
      InfoKeeps(m, fd, info.(invits := info.invits - {name}));
    }
  }

  /** Who gets in where: nobody who has not registered; a client that is in already stays as it is; a known
      channel lets it in with the right key, room, and an invitation where one is needed, which is used up; an
      unknown one is opened with the client as its one member and admin and no restrictions. No other channel and
      no other client changes. */
  lemma JoinedExact(h: Hall, fd: int, name: string, pass: string)
    requires fd in h.clis && !CaseClash(h.chs, name)
    ensures var k, info := Joined(h, fd, name, pass), h.clis[fd];
            if !info.registered || info.nick == "" then k == h
            else
              var r := if name in h.chs then h.chs[name] else Room({}, {}, Rules("", false, 0xFFFF_FFFF));
              var enters := fd !in r.clis && (r.rules.pass == "" || pass == r.rules.pass) && |r.clis| < r.rules.limit
                            && (r.rules.optI ==> name in info.invits);
              if !enters then k == h
              else
                && k.listener == h.listener && k.polls == h.polls && k.marked == h.marked
                && k.clis == h.clis[fd := Info(info.nick, true, info.toSend, info.invits - {name})]
                && k.chs == h.chs[name := Room(r.clis + {fd}, if name in h.chs then r.adms else {fd}, r.rules)]
  {
  }

  lemma JoinedGood(h: Hall, fd: int, name: string)
    requires Inv(h) && fd in h.clis && h.clis[fd].nick != ""
    ensures var r := if name in h.chs then h.chs[name] else Opening(fd);
            GoodRoom(r.(clis := r.clis + {fd}), h.clis)
  {
  }

  lemma RoomKeeps(h: Hall, a: string, r: Room)
    requires Inv(h) && GoodRoom(r, h.clis)
    requires a in h.chs || forall b :: b in h.chs ==> Lower(b) != Lower(a)
    ensures Inv(h.(chs := h.chs[a := r]))
  {
  }

  lemma LeaveKeeps(h: Hall, name: string, fd: int, k: Hall)
    requires Inv(h) && name in h.chs && Next(h, Leave(name, fd), k)
    ensures Inv(k)
  {
    forall a | a in k.chs ensures GoodRoom(k.chs[a], k.clis) {
      assert GoodRoom(h.chs[a], h.clis);
    }
  }

  lemma NextKeeps(h: Hall, e: Event, k: Hall)
    requires Inv(h) && Next(h, e, k)
    ensures Inv(k)
  {
    hide Nick, Joined, Accepted, ClisSwept, ChsSwept, Expelled;
    match e {
      case Accept(fd) => AcceptedKeeps(h, fd);
      case SetNick(fd, nick) => if fd in h.clis { NickKeeps(h, fd, nick); }
      case Register(fd) => if fd in h.clis { InfoKeeps(h, fd, k.clis[fd]); }
      case Join(fd, name, pass) => if fd in h.clis { JoinedKeeps(h, fd, name, pass); }
      case Configure(name, rules) => if name in h.chs { RoomKeeps(h, name, k.chs[name]); }
      case Invite(fd, name) => if fd in h.clis { InfoKeeps(h, fd, k.clis[fd]); }
      case Op(name, fd, plus) => if name in h.chs { RoomKeeps(h, name, k.chs[name]); }
      case Leave(name, fd) => if name in h.chs { LeaveKeeps(h, name, fd, k); }
      case Output(fd, text) => if fd in h.clis { InfoKeeps(h, fd, k.clis[fd]); }
      case Mark(fd) =>
      case Sweep =>
        var m :| ClisSwept(h, m) && k == ChsSwept(m);
        SweepExact(h, m);
    }
  }

  /** A run: the states passed through, and what happened between them. */
  ghost predicate IsRun(listener: int, events: seq<Event>, states: seq<Hall>) {
    && |states| == |events| + 1
    && states[0] == Opened(listener)
    && forall i :: 0 <= i < |events| ==> Next(states[i], events[i], states[i + 1])
  }

  /** The state that the sweep relies on is there in every run. */
  lemma {:induction false} RunKeeps(listener: int, events: seq<Event>, states: seq<Hall>, i: nat)
    requires IsRun(listener, events, states) && i <= |events|
    ensures Inv(states[i])
    decreases i
  {
    if i > 0 {
      RunKeeps(listener, events, states, i - 1);
      assert Next(states[i - 1], events[i - 1], states[i - 1 + 1]);
      NextKeeps(states[i - 1], events[i - 1], states[i]);
    }
  }
}
