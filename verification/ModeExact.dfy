/** mariia: what a MODE request does to a channel, from the characters and parameters of the request alone. */
module ModeExact {
  import opened Option
  import opened Sets
  import opened Strings
  import opened Tokens
  import opened Channel
  import opened ModeLog
  import opened Net
  import opened NetInvariant
  import opened NetAuthority

  // ----- how letters and parameters belong together -----

  /** 'o' always takes a parameter, 'k' and 'l' after a plus. */
  ghost predicate Takes(modes: string, i: nat)
    requires i < |modes|
  {
    modes[i] == 'o' || ((modes[i] == 'k' || modes[i] == 'l') && PlusAt(modes, i))
  }

  /** How many parameters the letters before this position take. */
  ghost function Taken(modes: string, i: nat): nat
    requires i <= |modes|
  {
    if i == 0 then 0 else Taken(modes, i - 1) + if Takes(modes, i - 1) then 1 else 0
  }

  /** The parameter for this position, empty if they have run out. */
  ghost function ParameterAt(modes: string, parameters: seq<string>, i: nat): string
    requires i < |modes|
  {
    if Takes(modes, i) && Taken(modes, i) < |parameters| then parameters[Taken(modes, i)] else ""
  }

  predicate KeyAllowed(key: string) {
    key != "" && forall c :: c in key ==> c as int !in {0, 7, 10, 13, 32}
  }

  /** This position sets or removes the key. */
  ghost predicate SetsKey(modes: string, parameters: seq<string>, i: nat)
    requires i < |modes|
  {
    modes[i] == 'k' && (PlusAt(modes, i) ==> KeyAllowed(ParameterAt(modes, parameters, i)))
  }

  /** This position sets or removes the limit: to a number, and not below the number of members. */
  ghost predicate SetsLimit(modes: string, parameters: seq<string>, size: nat, i: nat)
    requires i < |modes|
  {
    modes[i] == 'l' &&
    (PlusAt(modes, i) ==> var n := ParseInt(ParameterAt(modes, parameters, i)); n.Some? && n.value >= size)
  }

  /** This position makes the client an operator, if it is a member, or takes that from it. */
  ghost predicate SetsOperator(modes: string, parameters: seq<string>, nicks: Nicks, members: set<int>, fd: int, i: nat)
    requires i < |modes|
  {
    && modes[i] == 'o'
    && var nick := ParameterAt(modes, parameters, i);
       nick != "" && FindNick(nicks, nick) == Some(fd) && (PlusAt(modes, i) ==> fd in members)
  }

  // ----- the outcome: the last position that says something decides -----

  /** Where among the first `i` characters the request sets or removes the key; and so on. */
  ghost function KeyPlaces(modes: string, parameters: seq<string>, i: nat): set<int>
    requires i <= |modes|
  {
    set k | 0 <= k < i && SetsKey(modes, parameters, k)
  }

  ghost function LimitPlaces(modes: string, parameters: seq<string>, size: nat, i: nat): set<int>
    requires i <= |modes|
  {
    set k | 0 <= k < i && SetsLimit(modes, parameters, size, k)
  }

  ghost function OperatorPlaces(modes: string, parameters: seq<string>, nicks: Nicks, members: set<int>, fd: int, i: nat): set<int>
    requires i <= |modes|
  {
    set k | 0 <= k < i && SetsOperator(modes, parameters, nicks, members, fd, k)
  }

  ghost function FlagPlaces(modes: string, letter: char, i: nat): set<int>
    requires i <= |modes|
  {
    set k | 0 <= k < i && modes[k] == letter
  }

  ghost predicate KeyDecided(c: Chan, modes: string, parameters: seq<string>, i: nat, d: Chan)
    requires i <= |modes|
  {
    var places := KeyPlaces(modes, parameters, i);
    && (forall k :: Last(places, k) ==> d.key == if PlusAt(modes, k) then ParameterAt(modes, parameters, k) else "")
    && (places == {} ==> d.key == c.key)
  }

  ghost predicate LimitDecided(c: Chan, modes: string, parameters: seq<string>, i: nat, d: Chan)
    requires i <= |modes|
  {
    var places := LimitPlaces(modes, parameters, |c.members|, i);
    && (forall k :: Last(places, k) ==>
          if PlusAt(modes, k) then LimitSet in d.flags && Some(d.limit) == ParseInt(ParameterAt(modes, parameters, k))
          else LimitSet !in d.flags)
    && (places == {} ==> (LimitSet in d.flags <==> LimitSet in c.flags) && (LimitSet in c.flags ==> d.limit == c.limit))
  }

  ghost predicate OperatorDecided(c: Chan, modes: string, parameters: seq<string>, nicks: Nicks, i: nat, d: Chan, fd: int)
    requires i <= |modes|
  {
    var places := OperatorPlaces(modes, parameters, nicks, c.members, fd, i);
    && (forall k :: Last(places, k) ==> (fd in d.operators <==> PlusAt(modes, k)))
    && (places == {} ==> (fd in d.operators <==> fd in c.operators))
  }

  ghost predicate FlagDecided(c: Chan, modes: string, letter: char, f: Flag, i: nat, d: Chan)
    requires i <= |modes|
  {
    var places := FlagPlaces(modes, letter, i);
    && (forall k :: Last(places, k) ==> (f in d.flags <==> PlusAt(modes, k)))
    && (places == {} ==> (f in d.flags <==> f in c.flags))
  }

  /** The channel after the first `i` characters of the mode string. */
  ghost predicate Decided(c: Chan, modes: string, parameters: seq<string>, nicks: Nicks, i: nat, d: Chan)
    requires i <= |modes|
  {
    && d.name == c.name && d.members == c.members && d.invited == c.invited
    && FlagDecided(c, modes, 'i', InviteOnly, i, d)
    && FlagDecided(c, modes, 't', TopicSet, i, d)
    && KeyDecided(c, modes, parameters, i, d)
    && LimitDecided(c, modes, parameters, i, d)
    && forall fd :: OperatorDecided(c, modes, parameters, nicks, i, d, fd)
  }

  // ----- one letter -----

  lemma KeyAllowedIs(key: string)
    ensures KeyAllowed(key) <==> ValidName(key)
  {
    if !ValidName(key) && key != "" {
      var i :| 0 <= i < |key| && ForbiddenInName(key[i]);
      assert key[i] in key;
    }
  }

  lemma HandleRest(c: Chan, sign: char, mode: char, parameter: string, nicks: Nicks)
    requires Sign(sign)
    ensures var d := Handle(c, sign, mode, parameter, nicks).chan;
            && d.name == c.name && d.members == c.members && d.invited == c.invited
            && (InviteOnly in d.flags <==> if mode == 'i' then sign == '+' else InviteOnly in c.flags)
            && (TopicSet in d.flags <==> if mode == 't' then sign == '+' else TopicSet in c.flags)
  {
    hide ValidName, ParseInt, FindNick;
  }

  lemma HandleKey(c: Chan, sign: char, mode: char, parameter: string, nicks: Nicks)
    requires Sign(sign)
    ensures var d := Handle(c, sign, mode, parameter, nicks).chan;
            d.key == if mode == 'k' && (sign == '+' ==> KeyAllowed(parameter)) then
                       if sign == '+' then parameter else ""
                     else c.key
  {
    KeyAllowedIs(parameter);
    hide ValidName, ParseInt, FindNick, KeyAllowed;
  }

  lemma HandleLimit(c: Chan, sign: char, mode: char, parameter: string, nicks: Nicks)
    requires Sign(sign)
    ensures var d := Handle(c, sign, mode, parameter, nicks).chan;
            var n := ParseInt(parameter);
            if mode == 'l' && (sign == '+' ==> n.Some? && n.value >= |c.members|) then
              if sign == '+' then LimitSet in d.flags && Some(d.limit) == n else LimitSet !in d.flags
            else (LimitSet in d.flags <==> LimitSet in c.flags) && (LimitSet in c.flags ==> d.limit == c.limit)
  {
    hide ValidName, ParseInt, FindNick;
  }

  lemma HandleOperator(c: Chan, sign: char, mode: char, parameter: string, nicks: Nicks, fd: int)
    requires Sign(sign)
    ensures var d := Handle(c, sign, mode, parameter, nicks).chan;
            fd in d.operators <==>
              if mode == 'o' && parameter != "" && FindNick(nicks, parameter) == Some(fd) && (sign == '+' ==> fd in c.members)
              then sign == '+' else fd in c.operators
  {
    hide ValidName, ParseInt, FindNick;
  }

  // ----- one more character -----

  ghost predicate SignAgrees(modes: string, i: nat, sign: char)
    requires i <= |modes|
  {
    Sign(sign) && (sign == '+' <==> PlusAt(modes, i))
  }

  /** The parameters the loop still has. */
  ghost predicate RestAgrees(modes: string, parameters: seq<string>, i: nat, rest: seq<string>)
    requires i <= |modes|
  {
    rest == if Taken(modes, i) <= |parameters| then parameters[Taken(modes, i)..] else []
  }

  lemma TakeAgrees(modes: string, parameters: seq<string>, i: nat, l: Loop)
    requires i < |modes| && SignAgrees(modes, i, l.settingMode) && RestAgrees(modes, parameters, i, l.rest)
    ensures var take := Needed(l.settingMode, modes[i]) && l.rest != [];
            && (!Sign(modes[i]) ==> (if take then l.rest[0] else "") == ParameterAt(modes, parameters, i))
            && RestAgrees(modes, parameters, i + 1, if !Sign(modes[i]) && take then l.rest[1..] else l.rest)
  {
    hide PlusAt;
  }

  lemma FlagNext(c: Chan, modes: string, letter: char, f: Flag, i: nat, d: Chan, e: Chan)
    requires i < |modes| && FlagDecided(c, modes, letter, f, i, d)
    requires f in e.flags <==> if modes[i] == letter then PlusAt(modes, i) else f in d.flags
    ensures FlagDecided(c, modes, letter, f, i + 1, e)
  {
    hide PlusAt, SetsKey, SetsLimit, SetsOperator, ParameterAt, ParseInt;
    var places := FlagPlaces(modes, letter, i);
    assert FlagPlaces(modes, letter, i + 1) == if modes[i] == letter then places + {i} else places;
    LastNext(places, i);
  }

  lemma KeyNext(c: Chan, modes: string, parameters: seq<string>, i: nat, d: Chan, e: Chan)
    requires i < |modes| && KeyDecided(c, modes, parameters, i, d)
    requires e.key == if SetsKey(modes, parameters, i) then
                        if PlusAt(modes, i) then ParameterAt(modes, parameters, i) else ""
                      else d.key
    ensures KeyDecided(c, modes, parameters, i + 1, e)
  {
    hide PlusAt, SetsKey, SetsLimit, SetsOperator, ParameterAt, ParseInt;
    var places := KeyPlaces(modes, parameters, i);
    assert KeyPlaces(modes, parameters, i + 1) == if SetsKey(modes, parameters, i) then places + {i} else places;
    LastNext(places, i);
  }

  lemma LimitNext(c: Chan, modes: string, parameters: seq<string>, i: nat, d: Chan, e: Chan)
    requires i < |modes| && LimitDecided(c, modes, parameters, i, d)
    requires if SetsLimit(modes, parameters, |c.members|, i) then
               if PlusAt(modes, i) then LimitSet in e.flags && Some(e.limit) == ParseInt(ParameterAt(modes, parameters, i))
               else LimitSet !in e.flags
             else (LimitSet in e.flags <==> LimitSet in d.flags) && (LimitSet in d.flags ==> e.limit == d.limit)
    ensures LimitDecided(c, modes, parameters, i + 1, e)
  {
    hide PlusAt, SetsKey, SetsLimit, SetsOperator, ParameterAt, ParseInt;
    var places := LimitPlaces(modes, parameters, |c.members|, i);
    assert LimitPlaces(modes, parameters, |c.members|, i + 1) == if SetsLimit(modes, parameters, |c.members|, i) then places + {i} else places;
    LastNext(places, i);
  }

  lemma OperatorNext(c: Chan, modes: string, parameters: seq<string>, nicks: Nicks, i: nat, d: Chan, e: Chan, fd: int)
    requires i < |modes| && OperatorDecided(c, modes, parameters, nicks, i, d, fd)
    requires fd in e.operators <==>
               if SetsOperator(modes, parameters, nicks, c.members, fd, i) then PlusAt(modes, i) else fd in d.operators
    ensures OperatorDecided(c, modes, parameters, nicks, i + 1, e, fd)
  {
    hide PlusAt, SetsKey, SetsLimit, SetsOperator, ParameterAt, ParseInt;
    var places := OperatorPlaces(modes, parameters, nicks, c.members, fd, i);
    assert OperatorPlaces(modes, parameters, nicks, c.members, fd, i + 1) == if SetsOperator(modes, parameters, nicks, c.members, fd, i) then places + {i} else places;
    LastNext(places, i);
  }

  /** A letter of the request, handled with its parameter. */
  lemma LetterNext(c: Chan, modes: string, parameters: seq<string>, nicks: Nicks, i: nat, d: Chan, sign: char)
    requires i < |modes| && SignAgrees(modes, i, sign) && !Sign(modes[i])
    requires Decided(c, modes, parameters, nicks, i, d)
    ensures Decided(c, modes, parameters, nicks, i + 1,
                    Handle(d, sign, modes[i], ParameterAt(modes, parameters, i), nicks).chan)
  {
    hide FlagDecided, KeyDecided, LimitDecided, OperatorDecided, Handle, PlusAt, ParameterAt, KeyAllowed;
    var p := ParameterAt(modes, parameters, i);
    var e := Handle(d, sign, modes[i], p, nicks).chan;
    HandleRest(d, sign, modes[i], p, nicks);
    HandleKey(d, sign, modes[i], p, nicks);
    HandleLimit(d, sign, modes[i], p, nicks);
    FlagNext(c, modes, 'i', InviteOnly, i, d, e);
    FlagNext(c, modes, 't', TopicSet, i, d, e);
    KeyNext(c, modes, parameters, i, d, e);
    LimitNext(c, modes, parameters, i, d, e);
    var next := i + 1;
    forall fd ensures OperatorDecided(c, modes, parameters, nicks, next, e, fd) {
      HandleOperator(d, sign, modes[i], p, nicks, fd);
      OperatorNext(c, modes, parameters, nicks, i, d, e, fd);
    }
  }

  /** A sign says nothing by itself. */
  lemma SignNext(c: Chan, modes: string, parameters: seq<string>, nicks: Nicks, i: nat, d: Chan)
    requires i < |modes| && Sign(modes[i]) && Decided(c, modes, parameters, nicks, i, d)
    ensures Decided(c, modes, parameters, nicks, i + 1, d)
  {
    hide FlagDecided, KeyDecided, LimitDecided, OperatorDecided, PlusAt, ParameterAt, KeyAllowed;
    FlagNext(c, modes, 'i', InviteOnly, i, d, d);
    FlagNext(c, modes, 't', TopicSet, i, d, d);
    KeyNext(c, modes, parameters, i, d, d);
    LimitNext(c, modes, parameters, i, d, d);
    var next := i + 1;
    forall fd ensures OperatorDecided(c, modes, parameters, nicks, next, d, fd) {
      OperatorNext(c, modes, parameters, nicks, i, d, d, fd);
    }
  }

  lemma NothingSaid(c: Chan, modes: string, parameters: seq<string>, nicks: Nicks)
    ensures Decided(c, modes, parameters, nicks, 0, c)
  {
    hide SetsKey, SetsLimit, SetsOperator, PlusAt, ParameterAt, ParseInt;
  }

  lemma TurnIs(l: Loop, mode: char, nicks: Nicks)
    ensures var next, take := Turn(l, mode, nicks), Needed(l.settingMode, mode) && l.rest != [];
            if Sign(mode) then next == l.(settingMode := mode)
            else
              && next.settingMode == l.settingMode
              && next.rest == (if take then l.rest[1..] else l.rest)
              && next.chan == Handle(l.chan, l.settingMode, mode, if take then l.rest[0] else "", nicks).chan
  {
    hide Handle;
  }

  /** The loop after some characters of the mode string. */
  ghost predicate LoopAt(c: Chan, modes: string, parameters: seq<string>, nicks: Nicks, i: nat, l: Loop)
    requires i <= |modes|
  {
    && SignAgrees(modes, i, l.settingMode)
    && RestAgrees(modes, parameters, i, l.rest)
    && Decided(c, modes, parameters, nicks, i, l.chan)
  }

  lemma LoopStarts(c: Chan, modes: string, parameters: seq<string>, nicks: Nicks)
    ensures LoopAt(c, modes, parameters, nicks, 0, Start(c, parameters))
    ensures Turns(Start(c, parameters), "", nicks) == Start(c, parameters)
  {
    hide Decided;
    NothingSaid(c, modes, parameters, nicks);
  }

  lemma LoopNext(c: Chan, modes: string, parameters: seq<string>, nicks: Nicks, i: nat, l: Loop)
    requires i < |modes| && LoopAt(c, modes, parameters, nicks, i, l)
    ensures LoopAt(c, modes, parameters, nicks, i + 1, Turn(l, modes[i], nicks))
  {
    hide Decided, Handle, PlusAt, Turn, ParameterAt, RestAgrees;
    PlusNext(modes, i);
    TakeAgrees(modes, parameters, i, l);
    TurnIs(l, modes[i], nicks);
    if Sign(modes[i]) {
      SignNext(c, modes, parameters, nicks, i, l.chan);
    } else {
      LetterNext(c, modes, parameters, nicks, i, l.chan, l.settingMode);
    }
  }

  lemma TurnsTo(start: Loop, modes: string, nicks: Nicks, i: nat)
    requires i < |modes|
    ensures Turns(start, modes[..i + 1], nicks) == Turn(Turns(start, modes[..i], nicks), modes[i], nicks)
  {
    hide Turn, Turns;
    assert modes[..i + 1] == modes[..i] + [modes[i]];
    TurnsSnoc(start, modes[..i], modes[i], nicks);
  }

  lemma {:induction false} LoopDecided(c: Chan, modes: string, parameters: seq<string>, nicks: Nicks, i: nat)
    requires i <= |modes|
    ensures LoopAt(c, modes, parameters, nicks, i, Turns(Start(c, parameters), modes[..i], nicks))
    decreases i
  {
    hide LoopAt, Turn, Turns, Start;
    var start := Start(c, parameters);
    if i == 0 {
      assert modes[..0] == "";
      LoopStarts(c, modes, parameters, nicks);
    } else {
      var before := i - 1;
      LoopDecided(c, modes, parameters, nicks, before);
      TurnsTo(start, modes, nicks, before);
      LoopNext(c, modes, parameters, nicks, before, Turns(start, modes[..before], nicks));
    }
  }

  lemma DecidedView(c: Chan, modes: string, parameters: seq<string>, nicks: Nicks, d: Chan)
    requires Decided(c, modes, parameters, nicks, |modes|, d)
    ensures Decided(c, modes, parameters, nicks, |modes|, View(d))
  {
    hide PlusAt, SetsKey, SetsLimit, SetsOperator, ParameterAt, ParseInt;
    if LimitSet !in d.flags {
      var e := d.(limit := 0);
      forall fd ensures OperatorDecided(c, modes, parameters, nicks, |modes|, e, fd) {
        assert OperatorDecided(c, modes, parameters, nicks, |modes|, d, fd);
      }
    }
  }

  // ----- the whole request -----

  /** A MODE request by an operator of the channel decides it as the request says, and changes nothing else; in every
      other case it changes nothing. */
  lemma ModeRequest(n: Net, actor: int, tokens: seq<string>)
    requires Inv(n) && actor in n.clients && n.clients[actor].registered && tokens != [] && tokens[0] == "MODE"
    ensures var m := Step(n, Line(actor, tokens));
            if |tokens| >= 3 && tokens[1] != "" && (tokens[1][0] == '#' || tokens[1][0] == '&')
               && Lookup(n.chans, tokens[1]).Some? && actor in Lookup(n.chans, tokens[1]).value.operators then
              var i := Find(n.chans, tokens[1]);
              && m.clients == n.clients && |m.chans| == |n.chans|
              && (forall j :: 0 <= j < |n.chans| && j != i ==> m.chans[j] == n.chans[j])
              && Decided(n.chans[i], tokens[2], tokens[3..], NicksOf(n.clients), |tokens[2]|, m.chans[i])
            else m == n
  {
    hide Turns, Decided, GoodList;
    if |tokens| >= 3 && Lookup(n.chans, tokens[1]).Some? {
      var c := Lookup(n.chans, tokens[1]).value;
      assert GoodChan(c, n.clients.Keys);
      LoopDecided(c, tokens[2], tokens[3..], NicksOf(n.clients), |tokens[2]|);
      assert tokens[2][..|tokens[2]|] == tokens[2];
      DecidedView(c, tokens[2], tokens[3..], NicksOf(n.clients), Turns(Start(c, tokens[3..]), tokens[2], NicksOf(n.clients)).chan);
    }
  }

  /** What `+k` closes, exactly that key opens: after an operator has set a key, a client that is not in the
      channel, for which there is room and which is invited if need be, gets in with that key and with no other.
      */
  lemma KeyOpens(n: Net, actor: int, name: string, key: string, guest: int, given: string)
    requires Inv(n) && actor in n.clients && n.clients[actor].registered && guest in n.clients && KeyAllowed(key)
    requires name != "" && (name[0] == '#' || name[0] == '&') && Lookup(n.chans, name).Some?
    requires var c := Lookup(n.chans, name).value;
             && actor in c.operators && guest !in c.members && (InviteOnly in c.flags ==> guest in c.invited)
             && (LimitSet in c.flags ==> |c.members| < c.limit)
    ensures var m := Step(n, Line(actor, ["MODE", name, "+k", key]));
            && guest in m.clients
            && var after := Lookup(JoinOne(m, guest, name, given).chans, name);
               after.Some? && (guest in after.value.members <==> given == key)
  {
    hide Turns, GoodList, KeyAllowed, Decided, PlusAt, JoinOne, Step;
    var tokens := ["MODE", name, "+k", key];
    var c := Lookup(n.chans, name).value;
    ModeRequest(n, actor, tokens);
    assert tokens[3..] == [key];
    var m := Step(n, Line(actor, tokens));
    var i := Find(n.chans, name);
    KeyAlone(c, key, NicksOf(n.clients), m.chans[i]);
    assert m.chans == n.chans[i := m.chans[i]];
    FindSet(n.chans, i, m.chans[i], name);
    JoinOneLookup(m, guest, name, given, name);
  }

  lemma KeyAlone(c: Chan, key: string, nicks: Nicks, d: Chan)
    requires KeyAllowed(key) && Decided(c, "+k", [key], nicks, 2, d)
    ensures d.key == key && d.name == c.name && d.members == c.members && d.invited == c.invited
    ensures InviteOnly in d.flags <==> InviteOnly in c.flags
    ensures (LimitSet in d.flags <==> LimitSet in c.flags) && (LimitSet in c.flags ==> d.limit == c.limit)
  {
    hide KeyAllowed, ParseInt;
    var modes := "+k";
    assert PlusAt(modes, 1);
    assert Taken(modes, 1) == 0 && Takes(modes, 1);
    assert ParameterAt(modes, [key], 1) == key && SetsKey(modes, [key], 1);
  }
}
