/** mariia: one channel. `Chan` is its state as a value, `Channel` the object updated in place. */
module Channel {
  import opened Strings
  import opened Tokens

  datatype Flag = TopicSet | InviteOnly | KeySet | LimitSet

  datatype Chan = Chan(
    name: string,
    flags: set<Flag>,
    key: string,
    limit: int,
    members: set<int>,
    operators: set<int>,
    invited: set<int>)
  {
    function With(f: Flag): Chan {
      this.(flags := flags + {f})
    }

    function Without(f: Flag): Chan {
      this.(flags := flags - {f})
    }

    function Leave(fd: int): Chan {
      this.(members := members - {fd}, operators := operators - {fd}, invited := invited - {fd})
    }

    function Enter(fd: int): Chan {
      this.(members := members + {fd}, invited := invited - {fd})
    }
  }

  /** A new channel; its limit is whatever the memory held. */
  function NewChan(name: string, key: string, limit: int): Chan {
    Chan(Lower(name), if key == "" then {TopicSet} else {TopicSet, KeySet}, key, limit, {}, {}, {})
  }

  /** The two channels cannot be told apart: the limit counts only while LIMITSET is on. */
  predicate Same(c: Chan, d: Chan) {
    c.(limit := 0) == d.(limit := 0) && (LimitSet in c.flags ==> c.limit == d.limit)
  }

  /** A channel as it can be observed: a limit that is off reads as 0. */
  function View(c: Chan): Chan {
    if LimitSet in c.flags then c else c.(limit := 0)
  }

  lemma SameView(c: Chan, d: Chan)
    ensures Same(c, d) <==> View(c) == View(d)
  {
  }

  /** The bit of the mode word that stands for a flag. */
  function Bit(f: Flag): bv8 {
    match f
    case TopicSet => 1
    case InviteOnly => 2
    case KeySet => 4
    case LimitSet => 8
  }

  function FlagsOf(mode: bv8): set<Flag> {
    set f: Flag | Has(mode, Bit(f))
  }

  predicate Has(mode: bv8, bits: bv8) {
    mode & bits == bits
  }

  predicate Apart(b: bv8, c: bv8) {
    b & c == 0 && b != 0 && c != 0
  }

  lemma BitsApart(f: Flag, g: Flag)
    ensures f != g ==> Apart(Bit(f), Bit(g))
    ensures Bit(f) != 0
  {
  }

  lemma OrHas(mode: bv8, b: bv8, c: bv8)
    ensures Has(mode | b, b)
    ensures Apart(b, c) ==> Has(mode | b, c) == Has(mode, c)
  {
  }

  lemma AndNotHas(mode: bv8, b: bv8, c: bv8)
    ensures b != 0 ==> !Has(mode & !b, b)
    ensures Apart(b, c) ==> Has(mode & !b, c) == Has(mode, c)
  {
  }

  lemma SetBit(mode: bv8, f: Flag)
    ensures FlagsOf(mode | Bit(f)) == FlagsOf(mode) + {f}
  {
    hide Bit, Has, Apart;
    forall g: Flag ensures g in FlagsOf(mode | Bit(f)) <==> g in FlagsOf(mode) + {f} {
      BitsApart(f, g);
      OrHas(mode, Bit(f), Bit(g));
    }
  }

  lemma ClearBit(mode: bv8, f: Flag)
    ensures FlagsOf(mode & !Bit(f)) == FlagsOf(mode) - {f}
  {
    hide Bit, Has, Apart;
    forall g: Flag ensures g in FlagsOf(mode & !Bit(f)) <==> g in FlagsOf(mode) - {f} {
      BitsApart(f, g);
      AndNotHas(mode, Bit(f), Bit(g));
    }
  }

  class Channel {
    var name: string
    var mode: bv8
    var password: string
    var memberFds: set<int>
    var operatorFds: set<int>
    var invitedFds: set<int>
    var limitMembers: int

    ghost function State(): Chan
      reads this
    {
      Chan(name, FlagsOf(mode), password, limitMembers, memberFds, operatorFds, invitedFds)
    }

    /** `limitMembers` is left unassigned, as in the source. */
    constructor (name: string, password: string)
      ensures State() == NewChan(name, password, limitMembers)
    {
      var lower := UncapitalizeString(name);
      this.name := lower;
      this.password := password;
      mode := 0;
      memberFds, operatorFds, invitedFds := {}, {}, {};
      new;
      assert FlagsOf(0) == {};
      var wasSet := SetMode(TopicSet);
      if |this.password| > 0 {
        wasSet := SetMode(KeySet);
      }
    }

    method IsModeSet(f: Flag) returns (on: bool)
      ensures on <==> f in State().flags
    {
      on := Has(mode, Bit(f));
    }

    method SetMode(f: Flag) returns (changed: bool)
      modifies this`mode
      ensures State() == old(State()).With(f)
      ensures changed <==> f !in old(State()).flags
    {
      var on := IsModeSet(f);
      if on {
        assert FlagsOf(mode) + {f} == FlagsOf(mode);
        return false;
      }
      SetBit(mode, f);
      mode := mode | Bit(f);
      return true;
    }

    method UnsetMode(f: Flag) returns (changed: bool)
      modifies this`mode
      ensures State() == old(State()).Without(f)
      ensures changed <==> f in old(State()).flags
    {
      var on := IsModeSet(f);
      if !on {
        assert FlagsOf(mode) - {f} == FlagsOf(mode);
        return false;
      }
      ClearBit(mode, f);
      mode := mode & !Bit(f);
      return true;
    }

    method RemoveMember(clientFd: int)
      modifies this`memberFds, this`operatorFds, this`invitedFds
      ensures State() == old(State()).Leave(clientFd)
    {
      RemoveInvited(clientFd);
      var was := RemoveOperator(clientFd);
      memberFds := memberFds - {clientFd};
    }

    method AuthMember(clientFd: int, given: string) returns (ok: bool)
      modifies this`memberFds, this`invitedFds
      ensures ok <==> given == old(State()).key
      ensures State() == if ok then old(State()).Enter(clientFd) else old(State())
    {
      if given != password {
        return false;
      }
      RemoveInvited(clientFd);
      AddMember(clientFd);
      return true;
    }

    method AddMember(clientFd: int)
      modifies this`memberFds
      ensures memberFds == old(memberFds) + {clientFd}
    {
      memberFds := memberFds + {clientFd};
    }

    method AddOperator(clientFd: int) returns (added: bool)
      modifies this`operatorFds
      ensures operatorFds == old(operatorFds) + {clientFd}
      ensures added <==> clientFd !in old(operatorFds)
    {
      added := clientFd !in operatorFds;
      operatorFds := operatorFds + {clientFd};
    }

    method RemoveOperator(clientFd: int) returns (removed: bool)
      modifies this`operatorFds
      ensures operatorFds == old(operatorFds) - {clientFd}
      ensures removed <==> clientFd in old(operatorFds)
    {
      removed := clientFd in operatorFds;
      operatorFds := operatorFds - {clientFd};
    }

    method AddInvited(clientFd: int)
      modifies this`invitedFds
      ensures invitedFds == old(invitedFds) + {clientFd}
    {
      invitedFds := invitedFds + {clientFd};
    }

    method RemoveInvited(clientFd: int)
      modifies this`invitedFds
      ensures invitedFds == old(invitedFds) - {clientFd}
    {
      invitedFds := invitedFds - {clientFd};
    }
  }
}
