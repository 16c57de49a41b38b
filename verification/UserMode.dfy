/** alexandre: user modes, kept as a string of letters that `MODE` edits. */
module UserMode {
  import opened Lists
  import opened Option
  import opened Strings
  import opened User

  /** The letters the server is configured with. */
  const USER_MODES: string := "aiwro"

  function Toggled(mode: string, option: char, isMinus: bool): string {
    var k := IndexOf(mode, option);
    if isMinus && k < |mode| then mode[..k] + mode[k + 1..]
    else if !isMinus && k == |mode| then mode + [option]
    else mode
  }

  /** What a toggle does to a string without repeats. */
  lemma ToggledIsSet(mode: string, option: char, isMinus: bool)
    requires NoRepeats(mode)
    ensures NoRepeats(Toggled(mode, option, isMinus))
    ensures forall c :: c in Toggled(mode, option, isMinus) <==> if c == option then !isMinus else c in mode
  {
    var k := IndexOf(mode, option);
    var t := Toggled(mode, option, isMinus);
    if isMinus && k < |mode| {
      assert forall i :: 0 <= i < |t| ==> t[i] == mode[if i < k then i else i + 1];
      forall c | c in mode && c != option ensures c in t {
        var i :| 0 <= i < |mode| && mode[i] == c;
        assert t[if i < k then i else i - 1] == c;
      }
    } else if k == |mode| {
      assert mode[..k] == mode;
    } else {
      assert mode[k] in mode;
    }
  }

  /** On a string without repeats a toggle is the insertion into, or removal from, a set. */
  method CheckToggleMode(mode: string, option: char, isMinus: bool) returns (changed: string)
    ensures NoRepeats(mode) ==>
              NoRepeats(changed) && forall c :: c in changed <==> if c == option then !isMinus else c in mode
    ensures changed == Toggled(mode, option, isMinus)
  {
    changed := mode;
    var k := IndexOf(mode, option);
    if isMinus && k < |mode| {
      changed := mode[..k] + mode[k + 1..];
    } else if !isMinus && k == |mode| {
      changed := mode + [option];
    }
    if NoRepeats(mode) {
      ToggledIsSet(mode, option, isMinus);
    }
  }

  /** Letters that a request may name but not change. */
  predicate Ignored(c: char, isMinus: bool, operator: bool) {
    c == 'a' || (c == 'o' && !operator) || (c == 'r' && isMinus && !operator)
  }

  /** The sign in force at a position of a request: the last one before it, at first a plus. */
  predicate MinusAt(request: string, i: nat)
    requires i <= |request|
  {
    i > 0 && if Sign(request[i - 1]) then request[i - 1] == '-' else MinusAt(request, i - 1)
  }

  /** Position `i` of the request sets or clears the letter there. */
  predicate Effective(request: string, operator: bool, i: nat)
    requires i < |request|
  {
    !Sign(request[i]) && !Ignored(request[i], MinusAt(request, i), operator)
  }

  /** The mode string after the first `i` characters of a request of known letters. */
  function After(mode: string, request: string, operator: bool, i: nat): string
    requires i <= |request|
  {
    if i == 0 then mode
    else
      var before := After(mode, request, operator, i - 1);
      if Effective(request, operator, i - 1) then Toggled(before, request[i - 1], MinusAt(request, i - 1)) else before
  }

  /** Every letter of the request is one the server knows. */
  predicate Known(request: string) {
    forall i :: 0 <= i < |request| ==> Sign(request[i]) || request[i] in USER_MODES
  }

  /** What the last effective occurrence of a letter among the first `i` characters says, if there is one. */
  function LastSign(request: string, operator: bool, c: char, i: nat): Option<bool>
    requires i <= |request|
  {
    if i == 0 then None
    else if request[i - 1] == c && Effective(request, operator, i - 1) then Some(!MinusAt(request, i - 1))
    else LastSign(request, operator, c, i - 1)
  }

  /** Last writer wins: from a string without repeats a request makes a string without repeats, in which a letter
      is present exactly when its last sign that is not ignored is `+`, or it has none and was present before. */
  lemma {:induction false} LastWriterWins(mode: string, request: string, operator: bool, i: nat)
    requires NoRepeats(mode) && i <= |request|
    ensures NoRepeats(After(mode, request, operator, i))
    ensures forall c :: c in After(mode, request, operator, i) <==>
              match LastSign(request, operator, c, i) case Some(plus) => plus case None => c in mode
    decreases i
  {
    hide Effective, Toggled, MinusAt;
    if i > 0 {
      LastWriterWins(mode, request, operator, i - 1);
      ToggledIsSet(After(mode, request, operator, i - 1), request[i - 1], MinusAt(request, i - 1));
    }
  }

  // ----- the same, from the characters of the request alone -----

  /** At this position the request says something about the letter that is not ignored: 'a' never changes, 'o'
      only for operators, and 'r' is taken away only by operators. */
  ghost predicate Says(request: string, operator: bool, c: char, k: nat)
    requires k < |request|
  {
    request[k] == c && c != 'a' && (operator || (c != 'o' && (c != 'r' || PlusAt(request, k))))
  }

  /** The last thing a request says about each letter decides whether it is there; without one it is there as
      before. */
  ghost predicate Decided(mode: string, request: string, operator: bool, edited: string) {
    forall c :: c != '+' && c != '-' ==>
      && (forall k :: 0 <= k < |request| && Says(request, operator, c, k)
                      && (forall j :: k < j < |request| ==> !Says(request, operator, c, j)) ==>
            (c in edited <==> PlusAt(request, k)))
      && ((forall k :: 0 <= k < |request| ==> !Says(request, operator, c, k)) ==> (c in edited <==> c in mode))
  }

  lemma {:induction false} SignIs(request: string, i: nat)
    requires i <= |request|
    ensures MinusAt(request, i) <==> !PlusAt(request, i)
  {
    if i > 0 {
      SignIs(request, i - 1);
      PlusNext(request, i - 1);
    }
  }

  lemma SaysIsEffective(request: string, operator: bool, c: char, k: nat)
    requires k < |request| && c != '+' && c != '-'
    ensures Says(request, operator, c, k) <==> request[k] == c && Effective(request, operator, k)
  {
    hide MinusAt;
    SignIs(request, k);
  }

  /** The recursive search for the last sign finds what is said last. */
  lemma {:induction false} LastSignIsSaid(request: string, operator: bool, c: char, i: nat)
    requires i <= |request| && c != '+' && c != '-'
    ensures match LastSign(request, operator, c, i)
            case None => forall k :: 0 <= k < i ==> !Says(request, operator, c, k)
            case Some(plus) =>
              exists k :: 0 <= k < i && Says(request, operator, c, k) && plus == PlusAt(request, k)
                          && forall j :: k < j < i ==> !Says(request, operator, c, j)
    decreases i
  {
    hide Effective, MinusAt, Says, PlusAt;
    if i > 0 {
      SaysIsEffective(request, operator, c, i - 1);
      SignIs(request, i - 1);
      if !Says(request, operator, c, i - 1) {
        LastSignIsSaid(request, operator, c, i - 1);
      }
    }
  }

  lemma RequestDecides(mode: string, request: string, operator: bool)
    requires NoRepeats(mode)
    ensures var edited := After(mode, request, operator, |request|);
            NoRepeats(edited) && Decided(mode, request, operator, edited)
  {
    hide After, LastSign, Effective, MinusAt, Says, PlusAt;
    LastWriterWins(mode, request, operator, |request|);
    forall c: char | c != '+' && c != '-'
      ensures match LastSign(request, operator, c, |request|)
              case None => forall k :: 0 <= k < |request| ==> !Says(request, operator, c, k)
              case Some(plus) =>
                exists k :: 0 <= k < |request| && Says(request, operator, c, k) && plus == PlusAt(request, k)
                            && forall j :: k < j < |request| ==> !Says(request, operator, c, j)
    {
      LastSignIsSaid(request, operator, c, |request|);
    }
  }

  /** Without operator rights a request can never grant the operator flag, nor take the restriction away. */
  lemma {:induction false} NoSelfPromotion(mode: string, request: string, i: nat)
    requires NoRepeats(mode) && i <= |request|
    ensures 'o' in After(mode, request, false, i) <==> 'o' in mode
    ensures 'r' in mode ==> 'r' in After(mode, request, false, i)
    ensures 'a' in After(mode, request, false, i) <==> 'a' in mode
    decreases i
  {
    hide Toggled, MinusAt;
    if i > 0 {
      NoSelfPromotion(mode, request, i - 1);
      LastWriterWins(mode, request, false, i - 1);
      ToggledIsSet(After(mode, request, false, i - 1), request[i - 1], MinusAt(request, i - 1));
    }
  }

  /** Replies of `MODE_user`: not allowed, no such user (silence), unknown letter, or the new modes. */
  datatype Reply = UsersDontMatch | Silence | UnknownFlag | Modes(text: string)

  /** Position of the first user with this nickname, or the number of users. */
  function FindUser(users: seq<User>, nick: string): (k: nat)
    reads users
    ensures k <= |users|
    ensures forall i :: 0 <= i < k ==> users[i].nickname != nick
    ensures k < |users| ==> users[k].nickname == nick
  {
    if users == [] || users[0].nickname == nick then 0 else 1 + FindUser(users[1..], nick)
  }

  /** `users` are the connected users in the order of their descriptors. */
  method GetUser(users: seq<User>, nick: string) returns (user: User?)
    ensures var k := FindUser(users, nick); user == if k < |users| then users[k] else null
  {
    assert users[0..] == users;
    for k := 0 to |users|
      invariant FindUser(users, nick) == k + FindUser(users[k..], nick)
    {
      assert users[k..][1..] == users[k + 1..];
      if users[k].nickname == nick {
        return users[k];
      }
    }
    return null;
  }

  method ModeUser(sender: User, parameters: seq<string>, users: seq<User>) returns (reply: Reply)
    requires |parameters| > 0 && sender in users
    modifies (set u | u in users)`mode
    ensures var k := FindUser(users, parameters[0]);
            var target := if parameters[0] == sender.nickname then sender else if k < |users| then users[k] else null;
            var request := if |parameters| > 1 then parameters[1] else "";
            if parameters[0] != sender.nickname && 'o' !in old(sender.mode) then reply == UsersDontMatch
            else if target == null then reply == Silence
            else if !Known(request) then reply == UnknownFlag
            else
              && target.mode == After(old(target.mode), request, 'o' in old(sender.mode), |request|)
              && (NoRepeats(old(target.mode)) ==>
                    NoRepeats(target.mode) && Decided(old(target.mode), request, 'o' in old(sender.mode), target.mode))
              && reply == Modes("+" + target.mode)
              && forall u :: u in users && u != target ==> u.mode == old(u.mode)
    ensures !reply.Modes? ==> forall u :: u in users ==> u.mode == old(u.mode)
  {
    hide Decided, After, Known;
    var user: User? := null;
    if parameters[0] == sender.nickname {
      user := sender;
    } else {
      if 'o' !in sender.mode {
        return UsersDontMatch;
      }
      user := GetUser(users, parameters[0]);
      if user == null {
        return Silence;
      }
    }
    var mode := user.mode;
    NothingAsked(mode, 'o' in sender.mode);
    if |parameters| > 1 {
      var request := parameters[1];
      var known;
      known, mode := EditModes(mode, request, 'o' in sender.mode);
      if !known {
        return UnknownFlag;
      }
    }
    user.mode := mode;
    return Modes("+" + mode);
  }

  /** The request loop of `MODE_user`. */
  method EditModes(mode: string, request: string, operator: bool) returns (known: bool, edited: string)
    ensures known <==> forall c :: c in request ==> c in "+-aiwro"
    ensures known && NoRepeats(mode) ==> NoRepeats(edited) && Decided(mode, request, operator, edited)
    ensures known <==> Known(request)
    ensures known ==> edited == After(mode, request, operator, |request|)
  {
    KnownLetters(request);
    if NoRepeats(mode) {
      RequestDecides(mode, request, operator);
    }
    hide Decided;
    edited := mode;
    var isMinus := false;
    for i := 0 to |request|
      invariant isMinus == MinusAt(request, i)
      invariant edited == After(mode, request, operator, i)
      invariant forall k :: 0 <= k < i ==> Sign(request[k]) || request[k] in USER_MODES
    {
      if request[i] == '-' {
        isMinus := true;
      } else if request[i] == '+' {
        isMinus := false;
      } else if request[i] !in USER_MODES {
        return false, edited;
      } else if request[i] == 'a' {
        continue;
      } else if request[i] == 'o' && !operator {
        continue;
      } else if request[i] == 'r' && isMinus && !operator {
        continue;
      } else {
        edited := CheckToggleMode(edited, request[i], isMinus);
      }
    }
    known := true;
  }

  lemma NothingAsked(mode: string, operator: bool)
    ensures Known("") && After(mode, "", operator, 0) == mode && Decided(mode, "", operator, mode)
  {
  }

  lemma KnownLetters(request: string)
    ensures Known(request) <==> forall c :: c in request ==> c in "+-aiwro"
  {
    if Known(request) {
      forall c | c in request ensures c in "+-aiwro" {
        var i :| 0 <= i < |request| && request[i] == c;
      }
    } else {
      var i :| 0 <= i < |request| && !(Sign(request[i]) || request[i] in USER_MODES);
      assert request[i] in request;
    }
  }

  // ----- the other commands that touch the mode string -----

  /** The credentials of an operator, as configured. */
  datatype Credentials = Credentials(user: string, password: string)

  predicate RightCredentials(parameters: seq<string>, c: Credentials) {
    |parameters| >= 2 && parameters[0] == c.user && parameters[1] == c.password
  }

  method Oper(user: User, parameters: seq<string>, c: Credentials)
    modifies user`mode
    ensures NoRepeats(old(user.mode)) ==> NoRepeats(user.mode)
    ensures NoRepeats(old(user.mode)) ==>
              forall m :: m in user.mode <==> m in old(user.mode) || (m == 'o' && RightCredentials(parameters, c))
    ensures user.mode == AfterOper(old(user.mode), parameters, c)
  {
    if |parameters| < 2 {
      return;
    }
    if parameters[0] != c.user {
      return;
    }
    if parameters[1] != c.password {
      return;
    }
    if IndexOf(user.mode, 'o') == |user.mode| {
      user.mode := user.mode + "o";
    }
  }

  function AfterOper(mode: string, parameters: seq<string>, c: Credentials): string {
    if RightCredentials(parameters, c) then Toggled(mode, 'o', false) else mode
  }

  method Away(user: User, parameters: seq<string>)
    modifies user`mode
    ensures NoRepeats(old(user.mode)) ==> NoRepeats(user.mode)
    ensures NoRepeats(old(user.mode)) ==>
              forall m :: m in user.mode <==> if m == 'a' then parameters != [] else m in old(user.mode)
    ensures user.mode == AfterAway(old(user.mode), parameters)
  {
    if NoRepeats(user.mode) {
      ToggledIsSet(user.mode, 'a', parameters == []);
    }
    var k := IndexOf(user.mode, 'a');
    if |parameters| == 0 {
      if k == |user.mode| {
        return;
      }
      user.mode := user.mode[..k] + user.mode[k + 1..];
      return;
    }
    if k == |user.mode| {
      user.mode := user.mode + ['a'];
    }
  }

  function AfterAway(mode: string, parameters: seq<string>): string {
    Toggled(mode, 'a', parameters == [])
  }

  // ----- whole runs -----

  /** The mode strings of the connected users. */
  type ModeStrings = map<nat, string>

  /** A user comes or goes, or sends OPER, AWAY, or a MODE on itself or another user. */
  datatype Event =
    | Arrive(user: nat)
    | Gone(user: nat)
    | OperCommand(user: nat, parameters: seq<string>)
    | AwayCommand(user: nat, parameters: seq<string>)
    | ModeCommand(user: nat, target: nat, request: string)

  predicate IsOperator(m: ModeStrings, user: nat) {
    user in m && 'o' in m[user]
  }

  function Step(m: ModeStrings, e: Event, c: Credentials): ModeStrings {
    match e
    case Arrive(user) => if user in m then m else m[user := "w"]
    case Gone(user) => m - {user}
    case OperCommand(user, parameters) => if user in m then m[user := AfterOper(m[user], parameters, c)] else m
    case AwayCommand(user, parameters) => if user in m then m[user := AfterAway(m[user], parameters)] else m
    case ModeCommand(user, target, request) =>
      if user in m && target in m && (user == target || IsOperator(m, user)) && Known(request) then
        m[target := After(m[target], request, IsOperator(m, user), |request|)]
      else m
  }

  function Run(events: seq<Event>, c: Credentials): ModeStrings {
    if events == [] then map[] else Step(Run(events[..|events| - 1], c), events[|events| - 1], c)
  }

  /** In every run no mode string ever repeats a letter. */
  lemma {:induction false} RunNoRepeats(events: seq<Event>, c: Credentials)
    ensures forall u :: u in Run(events, c) ==> NoRepeats(Run(events, c)[u])
    decreases |events|
  {
    if events != [] {
      var front, e := events[..|events| - 1], events[|events| - 1];
      RunNoRepeats(front, c);
      StepNoRepeats(Run(front, c), e, c);
    }
  }

  lemma StepNoRepeats(m: ModeStrings, e: Event, c: Credentials)
    requires forall u :: u in m ==> NoRepeats(m[u])
    ensures forall u :: u in Step(m, e, c) ==> NoRepeats(Step(m, e, c)[u])
  {
    hide Toggled, Effective, After, RightCredentials, Known;
    match e {
      case OperCommand(user, parameters) => if user in m { ToggledIsSet(m[user], 'o', false); }
      case AwayCommand(user, parameters) => if user in m { ToggledIsSet(m[user], 'a', parameters == []); }
      case ModeCommand(user, target, request) =>
        if target in m { LastWriterWins(m[target], request, IsOperator(m, user), |request|); }
      case _ =>
    }
  }

  /** Where operators come from: a user becomes one only by its own OPER with the right credentials, or by the MODE of
      another user who is one. */
  ghost predicate Promotes(m: ModeStrings, e: Event, user: nat, c: Credentials) {
    match e
    case OperCommand(u, parameters) => u == user && RightCredentials(parameters, c)
    case ModeCommand(u, target, _) => target == user && u != user && IsOperator(m, u)
    case _ => false
  }

  lemma {:induction false} OperatorsPromoted(events: seq<Event>, c: Credentials, e: Event, user: nat)
    requires IsOperator(Step(Run(events, c), e, c), user) && !IsOperator(Run(events, c), user)
    ensures Promotes(Run(events, c), e, user, c)
  {
    hide Toggled, Effective, After, RightCredentials, Known;
    RunNoRepeats(events, c);
    var m := Run(events, c);
    match e {
      case OperCommand(u, parameters) => if u in m { ToggledIsSet(m[u], 'o', false); }
      case AwayCommand(u, parameters) => if u in m { ToggledIsSet(m[u], 'a', parameters == []); }
      case ModeCommand(u, target, request) =>
        if target in m && !IsOperator(m, u) { NoSelfPromotion(m[target], request, |request|); }
      case _ =>
    }
  }

  /** So while nobody has given the right credentials, nobody is an operator. */
  lemma {:induction false} NoCredentialsNoOperators(events: seq<Event>, c: Credentials)
    requires forall i :: 0 <= i < |events| && events[i].OperCommand? ==> !RightCredentials(events[i].parameters, c)
    ensures forall u :: !IsOperator(Run(events, c), u)
    decreases |events|
  {
    if events != [] {
      var front, e := events[..|events| - 1], events[|events| - 1];
      NoCredentialsNoOperators(front, c);
      forall u ensures !IsOperator(Run(events, c), u) {
        if IsOperator(Run(events, c), u) {
          OperatorsPromoted(front, c, e, u);
        }
      }
    }
  }
}
