/** mariia: the loop of `processChannelMode`, and its broadcast as a log that can be replayed. */
module ModeLog {
  import opened Lists
  import opened Option
  import opened Strings
  import opened Tokens
  import opened Channel

  /** Nicknames of the connected clients, by descriptor. */
  type Nicks = map<int, string>

  /** The client with this nickname; of several, the one with the least descriptor, which the map yields first. */
  ghost predicate IsFirst(nicks: Nicks, nick: string, found: Option<int>) {
    match found
    case None => forall fd :: fd in nicks ==> nicks[fd] != nick
    case Some(fd) => fd in nicks && nicks[fd] == nick && forall g :: g in nicks && nicks[g] == nick ==> fd <= g
  }

  lemma FirstUnique(nicks: Nicks, nick: string, a: Option<int>, b: Option<int>)
    requires IsFirst(nicks, nick, a) && IsFirst(nicks, nick, b)
    ensures a == b
  {
  }

  lemma {:induction false} FirstExists(nicks: Nicks, nick: string, among: set<int>) returns (found: Option<int>)
    requires among <= nicks.Keys
    ensures match found
            case None => forall fd :: fd in among ==> nicks[fd] != nick
            case Some(fd) => fd in among && nicks[fd] == nick && forall g :: g in among && nicks[g] == nick ==> fd <= g
    decreases |among|
  {
    if x :| x in among {
      found := FirstExists(nicks, nick, among - {x});
      if nicks[x] == nick && (found.None? || x < found.value) {
        found := Some(x);
      }
    } else {
      found := None;
    }
  }

  lemma SomeFirst(nicks: Nicks, nick: string)
    ensures exists found :: IsFirst(nicks, nick, found)
  {
    var found := FirstExists(nicks, nick, nicks.Keys);
    assert IsFirst(nicks, nick, found);
  }

  /** `findClient(nickname)`: nicknames are stored in lower case. */
  ghost function FindNick(nicks: Nicks, nickname: string): (found: Option<int>)
    ensures IsFirst(nicks, Lower(nickname), found)
  {
    SomeFirst(nicks, Lower(nickname));
    var found :| IsFirst(nicks, Lower(nickname), found);
    found
  }

  predicate Needed(sign: char, mode: char) {
    mode == 'o' || (sign == '+' && (mode == 'k' || mode == 'l'))
  }

  /** The result of one mode letter: whether it was applied, and the channel after it. */
  datatype Handled = Handled(applied: bool, chan: Chan)

  function Toggle(c: Chan, sign: char, f: Flag): Handled {
    if sign == '+' then Handled(f !in c.flags, c.With(f)) else Handled(f in c.flags, c.Without(f))
  }

  /** The handlers `i`, `t`, `k`, `l`, `o` and `b`; an unknown letter is refused like `b`. */
  ghost function Handle(c: Chan, sign: char, mode: char, parameter: string, nicks: Nicks): Handled {
    if mode == 'i' then Toggle(c, sign, InviteOnly)
    else if mode == 't' then Toggle(c, sign, TopicSet)
    else if mode == 'k' then
      if sign == '+' then
        if ValidName(parameter) then Handled(true, c.(key := parameter).With(KeySet)) else Handled(false, c)
      else Toggle(c.(key := ""), sign, KeySet)
    else if mode == 'l' then
      if sign == '+' then
        var limit := ParseInt(parameter);
        if limit.Some? && limit.value >= |c.members| then Handled(true, c.(limit := limit.value).With(LimitSet)) else Handled(false, c)
      else Toggle(c.(limit := -1), sign, LimitSet)
    else if mode == 'o' then
      var who := if parameter == "" then None else FindNick(nicks, parameter);
      if who.None? then Handled(false, c)
      else if sign == '+' then
        if who.value !in c.members then Handled(false, c)
        else Handled(who.value !in c.operators, c.(operators := c.operators + {who.value}))
      else Handled(who.value in c.operators, c.(operators := c.operators - {who.value}))
    else Handled(false, c)
  }

  /** The variables of the loop; `rest` are the parameters from `paramIndex` on. */
  datatype Loop = Loop(chan: Chan, settingMode: char, lastSettingMode: char, rest: seq<string>,
                       changedModes: string, parametersSet: seq<string>)

  function Start(c: Chan, parameters: seq<string>): Loop {
    Loop(c, '+', '+', parameters, "", [])
  }

  ghost function Turn(l: Loop, mode: char, nicks: Nicks): Loop {
    if Sign(mode) then l.(settingMode := mode)
    else
      var take := Needed(l.settingMode, mode) && l.rest != [];
      var parameter := if take then l.rest[0] else "";
      var h := Handle(l.chan, l.settingMode, mode, parameter, nicks);
      var l' := l.(chan := h.chan, rest := if take then l.rest[1..] else l.rest);
      if h.applied then
        l'.(parametersSet := l.parametersSet + [parameter],
            changedModes := l.changedModes + (if l.lastSettingMode != l.settingMode then [l.settingMode] else "") + [mode],
            lastSettingMode := l.settingMode)
      else l'
  }

  ghost function Turns(l: Loop, modes: string, nicks: Nicks): Loop
    decreases |modes|
  {
    if modes == "" then l else Turns(Turn(l, modes[0], nicks), modes[1..], nicks)
  }

  lemma {:induction false} TurnsAppend(l: Loop, a: string, b: string, nicks: Nicks)
    ensures Turns(l, a + b, nicks) == Turns(Turns(l, a, nicks), b, nicks)
    decreases |a|
  {
    if a == "" {
      assert a + b == b;
    } else {
      assert (a + b)[1..] == a[1..] + b;
      TurnsAppend(Turn(l, a[0], nicks), a[1..], b, nicks);
    }
  }

  lemma TurnsSnoc(l: Loop, modes: string, mode: char, nicks: Nicks)
    ensures Turns(l, modes + [mode], nicks) == Turn(Turns(l, modes, nicks), mode, nicks)
  {
    TurnsAppend(l, modes, [mode], nicks);
    assert [mode][1..] == "";
  }

  // ----- what the loop did, as a list of applied operations -----

  datatype Op = Op(sign: char, mode: char, parameter: string)

  /** The operations that the loop applies. */
  ghost function Applied(l: Loop, modes: string, nicks: Nicks): seq<Op>
    decreases |modes|
  {
    if modes == "" then []
    else
      var m := modes[0];
      var parameter := if Needed(l.settingMode, m) && l.rest != [] then l.rest[0] else "";
      (if !Sign(m) && Handle(l.chan, l.settingMode, m, parameter, nicks).applied then [Op(l.settingMode, m, parameter)] else [])
      + Applied(Turn(l, m, nicks), modes[1..], nicks)
  }

  /** The operations all go through, one after the other. */
  ghost predicate AllApply(c: Chan, ops: seq<Op>, nicks: Nicks)
    decreases |ops|
  {
    ops != [] ==>
      var h := Handle(c, ops[0].sign, ops[0].mode, ops[0].parameter, nicks);
      h.applied && AllApply(h.chan, ops[1..], nicks)
  }

  ghost function ApplyAll(c: Chan, ops: seq<Op>, nicks: Nicks): Chan
    decreases |ops|
  {
    if ops == [] then c
    else ApplyAll(Handle(c, ops[0].sign, ops[0].mode, ops[0].parameter, nicks).chan, ops[1..], nicks)
  }

  /** A sign, a letter, and a parameter exactly when the letter takes one. */
  predicate WellFormed(op: Op) {
    Sign(op.sign) && !Sign(op.mode) && (op.parameter != "" <==> Needed(op.sign, op.mode))
  }

  ghost predicate AllWellFormed(ops: seq<Op>) {
    forall i :: 0 <= i < |ops| ==> WellFormed(ops[i])
  }

  /** The mode string that says these operations, when the last sign said was `last`. */
  function Letters(ops: seq<Op>, last: char): string {
    if ops == [] then ""
    else (if last != ops[0].sign then [ops[0].sign] else "") + [ops[0].mode] + Letters(ops[1..], ops[0].sign)
  }

  function Parameters(ops: seq<Op>): seq<string> {
    seq(|ops|, i requires 0 <= i < |ops| => ops[i].parameter)
  }

  // ----- the handlers do not see a limit that is off, and refusals leave no trace -----

  /** The part of the channel invariant that a refused `-k` depends on. */
  predicate KeyAgrees(c: Chan) {
    KeySet in c.flags <==> c.key != ""
  }

  lemma HandleSame(c: Chan, d: Chan, sign: char, mode: char, parameter: string, nicks: Nicks)
    requires Same(c, d)
    ensures var h, k := Handle(c, sign, mode, parameter, nicks), Handle(d, sign, mode, parameter, nicks);
            h.applied == k.applied && Same(h.chan, k.chan)
  {
    hide ValidName, ParseInt, FindNick;
  }

  lemma HandleKeeps(c: Chan, sign: char, mode: char, parameter: string, nicks: Nicks)
    requires KeyAgrees(c) && Sign(sign)
    ensures var h := Handle(c, sign, mode, parameter, nicks);
            && KeyAgrees(h.chan)
            && (!h.applied ==> Same(h.chan, c))
            && (h.applied ==> !Sign(mode) && (Needed(sign, mode) ==> parameter != ""))
  {
    hide ValidName, ParseInt, FindNick;
    NothingNamed();
  }

  lemma NothingNamed()
    ensures !ValidName("") && ParseInt("").None?
  {
  }

  lemma {:induction false} ApplyAllSame(c: Chan, d: Chan, ops: seq<Op>, nicks: Nicks)
    requires Same(c, d)
    ensures AllApply(c, ops, nicks) == AllApply(d, ops, nicks)
    ensures Same(ApplyAll(c, ops, nicks), ApplyAll(d, ops, nicks))
    decreases |ops|
  {
    if ops != [] {
      var op := ops[0];
      HandleSame(c, d, op.sign, op.mode, op.parameter, nicks);
      ApplyAllSame(Handle(c, op.sign, op.mode, op.parameter, nicks).chan,
                   Handle(d, op.sign, op.mode, op.parameter, nicks).chan, ops[1..], nicks);
    }
  }

  /** The loop does not see a limit that is off. */
  lemma {:induction false} TurnsSame(l: Loop, c: Chan, modes: string, nicks: Nicks)
    requires Same(l.chan, c)
    ensures var r, s := Turns(l, modes, nicks), Turns(l.(chan := c), modes, nicks);
            Same(r.chan, s.chan) && s == r.(chan := s.chan)
    decreases |modes|
  {
    hide Handle, Same;
    if modes != "" {
      var m := modes[0];
      var parameter := if Needed(l.settingMode, m) && l.rest != [] then l.rest[0] else "";
      HandleSame(l.chan, c, l.settingMode, m, parameter, nicks);
      var next := Turn(l, m, nicks);
      var other := Turn(l.(chan := c), m, nicks);
      assert other == next.(chan := other.chan);
      TurnsSame(next, other.chan, modes[1..], nicks);
    }
  }

  lemma TurnsOnView(c: Chan, parameters: seq<string>, modes: string, nicks: Nicks)
    ensures var r, s := Turns(Start(c, parameters), modes, nicks), Turns(Start(View(c), parameters), modes, nicks);
            View(r.chan) == View(s.chan) && r.changedModes == s.changedModes && r.parametersSet == s.parametersSet
  {
    hide Turns;
    SameView(c, View(c));
    TurnsSame(Start(c, parameters), View(c), modes, nicks);
    SameView(Turns(Start(c, parameters), modes, nicks).chan, Turns(Start(View(c), parameters), modes, nicks).chan);
  }

  /** The loop does what its applied operations do, and writes them down. */
  lemma {:induction false} LoopIsLog(l: Loop, modes: string, nicks: Nicks)
    requires KeyAgrees(l.chan) && Sign(l.settingMode) && Sign(l.lastSettingMode)
    ensures var ops, r := Applied(l, modes, nicks), Turns(l, modes, nicks);
            && AllWellFormed(ops)
            && AllApply(l.chan, ops, nicks)
            && Same(r.chan, ApplyAll(l.chan, ops, nicks))
            && KeyAgrees(r.chan)
            && r.changedModes == l.changedModes + Letters(ops, l.lastSettingMode)
            && r.parametersSet == l.parametersSet + Parameters(ops)
    decreases |modes|
  {
    hide Handle, Same;
    if modes == "" {
      assert l.changedModes + "" == l.changedModes && l.parametersSet + [] == l.parametersSet;
      SameItself(l.chan);
    } else {
      var m := modes[0];
      var next := Turn(l, m, nicks);
      var later := Applied(next, modes[1..], nicks);
      var parameter := if Needed(l.settingMode, m) && l.rest != [] then l.rest[0] else "";
      HandleKeeps(l.chan, l.settingMode, m, parameter, nicks);
      LoopIsLog(next, modes[1..], nicks);
      if Sign(m) {
        assert Applied(l, modes, nicks) == later;
      } else if Handle(l.chan, l.settingMode, m, parameter, nicks).applied {
        var op := Op(l.settingMode, m, parameter);
        assert Applied(l, modes, nicks) == [op] + later;
        LogCons(l, op, next, later, nicks);
      } else {
        assert Applied(l, modes, nicks) == later;
        ApplyAllSame(next.chan, l.chan, later, nicks);
        SameThrough(Turns(next, modes[1..], nicks).chan, ApplyAll(next.chan, later, nicks), ApplyAll(l.chan, later, nicks));
      }
    }
  }

  lemma SameItself(c: Chan)
    ensures Same(c, c)
  {
  }

  lemma SameThrough(c: Chan, d: Chan, e: Chan)
    requires Same(c, d) && Same(d, e)
    ensures Same(c, e)
  {
  }

  /** Writing one more operation at the front of a log. */
  lemma LogCons(l: Loop, op: Op, next: Loop, later: seq<Op>, nicks: Nicks)
    requires next.chan == Handle(l.chan, op.sign, op.mode, op.parameter, nicks).chan
    requires next.lastSettingMode == op.sign
    requires next.changedModes == l.changedModes + (if l.lastSettingMode != op.sign then [op.sign] else "") + [op.mode]
    requires next.parametersSet == l.parametersSet + [op.parameter]
    ensures var ops := [op] + later;
            && ApplyAll(l.chan, ops, nicks) == ApplyAll(next.chan, later, nicks)
            && l.changedModes + Letters(ops, l.lastSettingMode) == next.changedModes + Letters(later, op.sign)
            && l.parametersSet + Parameters(ops) == next.parametersSet + Parameters(later)
            && (Handle(l.chan, op.sign, op.mode, op.parameter, nicks).applied ==>
                  AllApply(l.chan, ops, nicks) == AllApply(next.chan, later, nicks))
  {
    hide Handle;
    var ops := [op] + later;
    assert ops[1..] == later;
    assert Parameters(ops) == [op.parameter] + Parameters(later);
  }

  /** Running the loop on a log performs the log. */
  lemma {:induction false} LogIsPerformed(l: Loop, ops: seq<Op>, nicks: Nicks)
    requires AllWellFormed(ops) && AllApply(l.chan, ops, nicks)
    requires l.settingMode == l.lastSettingMode && l.rest == NonEmpty(Parameters(ops))
    ensures var r := Turns(l, Letters(ops, l.lastSettingMode), nicks);
            && r.chan == ApplyAll(l.chan, ops, nicks)
            && r.changedModes == l.changedModes + Letters(ops, l.lastSettingMode)
            && r.parametersSet == l.parametersSet + Parameters(ops)
    decreases |ops|
  {
    hide Handle;
    if ops == [] {
      assert l.changedModes + "" == l.changedModes && l.parametersSet + [] == l.parametersSet;
    } else {
      var op, later := ops[0], ops[1..];
      var said := (if l.lastSettingMode != op.sign then [op.sign] else "") + [op.mode];
      assert WellFormed(op);
      assert ops == [op] + later;
      ParametersCons(op, later);
      var next := SayOne(l, op, NonEmpty(Parameters(later)), nicks);
      TurnsAppend(l, said, Letters(later, op.sign), nicks);
      LogCons(l, op, next, later, nicks);
      LogIsPerformed(next, later, nicks);
    }
  }

  lemma ParametersCons(op: Op, later: seq<Op>)
    ensures NonEmpty(Parameters([op] + later)) == (if op.parameter == "" then [] else [op.parameter]) + NonEmpty(Parameters(later))
  {
    assert Parameters([op] + later)[1..] == Parameters(later);
  }

  /** The loop on the letters of one operation, with its parameter at hand. */
  lemma SayOne(l: Loop, op: Op, more: seq<string>, nicks: Nicks) returns (next: Loop)
    requires WellFormed(op) && l.settingMode == l.lastSettingMode
    requires l.rest == (if op.parameter == "" then [] else [op.parameter]) + more
    requires Handle(l.chan, op.sign, op.mode, op.parameter, nicks).applied
    ensures next == Turns(l, (if l.lastSettingMode != op.sign then [op.sign] else "") + [op.mode], nicks)
    ensures next == Loop(Handle(l.chan, op.sign, op.mode, op.parameter, nicks).chan, op.sign, op.sign, more,
                         l.changedModes + (if l.lastSettingMode != op.sign then [op.sign] else "") + [op.mode],
                         l.parametersSet + [op.parameter])
  {
    hide Handle;
    var sign := if l.lastSettingMode != op.sign then [op.sign] else "";
    next := Turns(l, sign + [op.mode], nicks);
    TurnsAppend(l, sign, [op.mode], nicks);
    if sign != "" {
      assert sign[1..] == "";
      assert Turns(l, sign, nicks) == Turns(Turn(l, op.sign, nicks), "", nicks);
    }
    var signed := l.(settingMode := op.sign);
    assert Turns(l, sign, nicks) == signed;
    assert [op.mode][1..] == "";
    assert next == Turns(Turn(signed, op.mode, nicks), "", nicks);
  }

  /** The broadcast is a replay log. From any channel whose key agrees with its flag, running the loop again on the
      broadcast mode string with the broadcast non-empty parameters gives the same channel as the original
      request did, and the same broadcast. */
  lemma Replay(c: Chan, modes: string, parameters: seq<string>, nicks: Nicks)
    requires KeyAgrees(c)
    ensures var r := Turns(Start(c, parameters), modes, nicks);
            var again := Turns(Start(c, NonEmpty(r.parametersSet)), r.changedModes, nicks);
            Same(again.chan, r.chan) && again.changedModes == r.changedModes && again.parametersSet == r.parametersSet
  {
    var l := Start(c, parameters);
    var ops := Applied(l, modes, nicks);
    LoopIsLog(l, modes, nicks);
    assert "" + Letters(ops, '+') == Letters(ops, '+') && [] + Parameters(ops) == Parameters(ops);
    LogIsPerformed(Start(c, NonEmpty(Parameters(ops))), ops, nicks);
  }

  /** Without the limit's flag being on, its value is not part of what is replayed: `-l` on a channel
      without a limit is refused, yet resets the value. */
  lemma RefusedLimitLeavesValue(c: Chan, nicks: Nicks)
    requires LimitSet !in c.flags
    ensures var r := Turns(Start(c, []), "-l", nicks);
            r.changedModes == "" && r.parametersSet == [] && r.chan == c.(limit := -1)
    ensures var r := Turns(Start(c, []), "-l", nicks);
            Turns(Start(c, []), r.changedModes, nicks).chan == r.chan <==> c.limit == -1
  {
    assert "-l"[1..] == "l" && "l"[1..] == "";
    var signed := Turn(Start(c, []), '-', nicks);
    assert Turns(Start(c, []), "-l", nicks) == Turns(signed, "l", nicks) == Turns(Turn(signed, 'l', nicks), "", nicks);
    assert c.flags - {LimitSet} == c.flags;
  }

  // ----- the flags, from the request alone -----

  /** The sign in force at a position of the mode string: the last one before it, at first a plus. */
  function SignAt(modes: string, i: nat): char
    requires i <= |modes|
  {
    if i == 0 then '+' else if Sign(modes[i - 1]) then modes[i - 1] else SignAt(modes, i - 1)
  }

  /** The sign under which a letter stands last among the first `i` characters, if it stands there. */
  function LastSaid(modes: string, letter: char, i: nat): Option<char>
    requires i <= |modes|
  {
    if i == 0 then None
    else if modes[i - 1] == letter then Some(SignAt(modes, i - 1))
    else LastSaid(modes, letter, i - 1)
  }

  ghost predicate SaysFlag(c: Chan, modes: string, letter: char, f: Flag, i: nat, d: Chan)
    requires i <= |modes|
  {
    f in d.flags <==> match LastSaid(modes, letter, i) case Some(sign) => sign == '+' case None => f in c.flags
  }

  /** Last writer wins: `i` and `t` are on exactly if the mode string says so last, or does not say and they were
      on before, whatever else the request holds, and whether or not the loop counts a letter as a change. */
  lemma {:induction false} FlagsLastWriter(c: Chan, parameters: seq<string>, modes: string, nicks: Nicks, i: nat)
    requires i <= |modes|
    ensures var r := Turns(Start(c, parameters), modes[..i], nicks);
            && r.settingMode == SignAt(modes, i)
            && SaysFlag(c, modes, 'i', InviteOnly, i, r.chan)
            && SaysFlag(c, modes, 't', TopicSet, i, r.chan)
    decreases i
  {
    hide Handle;
    if i > 0 {
      var l, m := Turns(Start(c, parameters), modes[..i - 1], nicks), modes[i - 1];
      FlagsLastWriter(c, parameters, modes, nicks, i - 1);
      assert modes[..i] == modes[..i - 1] + [m];
      TurnsSnoc(Start(c, parameters), modes[..i - 1], m, nicks);
      SignIs(modes, i);
      HandleFlags(l.chan, l.settingMode, m, if Needed(l.settingMode, m) && l.rest != [] then l.rest[0] else "", nicks);
    }
  }

  lemma HandleFlags(c: Chan, sign: char, mode: char, parameter: string, nicks: Nicks)
    ensures var d := Handle(c, sign, mode, parameter, nicks).chan;
            && (InviteOnly in d.flags <==> if mode == 'i' then sign == '+' else InviteOnly in c.flags)
            && (TopicSet in d.flags <==> if mode == 't' then sign == '+' else TopicSet in c.flags)
  {
    hide ValidName, ParseInt, FindNick;
  }

  lemma {:induction false} SignIs(modes: string, i: nat)
    requires i <= |modes|
    ensures Sign(SignAt(modes, i))
  {
    if i > 0 {
      SignIs(modes, i - 1);
    }
  }

  // ----- normal form -----

  /** Signs stand only just before a letter, and only where the sign changes. */
  predicate Normal(modes: string, last: char) {
    modes == "" ||
    if Sign(modes[0]) then
      modes[0] != last && |modes| >= 2 && !Sign(modes[1]) && Normal(modes[2..], modes[0])
    else Normal(modes[1..], last)
  }

  lemma {:induction false} LettersNormal(ops: seq<Op>, last: char)
    requires AllWellFormed(ops)
    ensures Normal(Letters(ops, last), last)
    decreases |ops|
  {
    if ops != [] {
      var op, later := ops[0], Letters(ops[1..], ops[0].sign);
      assert WellFormed(op);
      LettersNormal(ops[1..], op.sign);
      if last == op.sign {
        assert Letters(ops, last) == [op.mode] + later;
        assert ([op.mode] + later)[1..] == later;
      } else {
        assert Letters(ops, last) == [op.sign] + [op.mode] + later;
        assert ([op.sign] + [op.mode] + later)[2..] == later;
      }
    }
  }

  lemma BroadcastNormal(c: Chan, modes: string, parameters: seq<string>, nicks: Nicks)
    requires KeyAgrees(c)
    ensures Normal(Turns(Start(c, parameters), modes, nicks).changedModes, '+')
  {
    var l := Start(c, parameters);
    LoopIsLog(l, modes, nicks);
    assert "" + Letters(Applied(l, modes, nicks), '+') == Letters(Applied(l, modes, nicks), '+');
    LettersNormal(Applied(l, modes, nicks), '+');
  }
}
