/** `prepareResp`, `sendPreparedResps` and `splitBufToCmds`: from a message, over a stream that is
    written and read in arbitrary portions, back to the message. */
module AnnDelivery {
  import opened AnnClient
  import opened CrLf
  import opened Lists

  const MAX_CMD_LEN: nat := 512

  /** A message as it is sent: cut to what fits before the CR LF. */
  function Shortened(msg: string): (cut: string)
    ensures cut == if |msg| < 510 then msg else msg[..510]
  {
    if |msg| > MAX_CMD_LEN - 2 then msg[..MAX_CMD_LEN - 2] else msg
  }

  method PrepareResp(to: Cli, msg: string)
    modifies to`bufToSend
    ensures to.bufToSend == old(to.bufToSend) + ((if |msg| < 510 then msg else msg[..510]) + "\r\n")
    ensures to.bufToSend == old(to.bufToSend) + Frame([Shortened(msg)])
  {
    var m := msg;
    if |m| > MAX_CMD_LEN - 2 {
      m := m[..MAX_CMD_LEN - 2];
    }
    assert Frame([m]) == m + CRLF;
    to.bufToSend := to.bufToSend + (m + CRLF);
  }

  /** `sent` is what `send` returns: how many bytes the kernel took, or -1. The bytes themselves are handed back
      as what has gone out. After a failure all that waits is erased, since -1 stands for the longest length. */
  method SendPreparedResps(to: Cli, sent: int) returns (out: string)
    requires -1 <= sent <= |to.bufToSend|
    modifies to`bufToSend
    ensures sent >= 0 ==> |out| == sent && out + to.bufToSend == old(to.bufToSend)
    ensures sent == -1 ==> out == "" && to.bufToSend == ""
  {
    out := if sent == -1 then "" else to.bufToSend[..sent];
    if sent == |to.bufToSend| || sent == -1 {
      to.bufToSend := "";
    } else {
      to.bufToSend := to.bufToSend[sent..];
    }
  }

  /** A buffer that looks like one line typed into `nc`: it ends in LF without CR, and has no CR LF. */
  predicate LooksLikeNc(s: string) {
    |s| >= 2 && s[|s| - 1] == '\n' && s[|s| - 2] != '\r' && Find(s) == -1
  }

  function NcFixed(s: string): string {
    if LooksLikeNc(s) then s[..|s| - 1] + CRLF else s
  }

  method SplitBufToCmds(cli: Cli, buf: string) returns (parts: seq<string>)
    modifies cli`bufRecv
    ensures buf == "" ==> parts == [] && cli.bufRecv == old(cli.bufRecv)
    ensures buf != "" ==> var t := TakeApart(NcFixed(buf)); parts == NonEmpty(t.parts) && cli.bufRecv == t.rest
  {
    hide TakeApart, NonEmpty, FindFrom;
    parts := [];
    if |buf| == 0 {
      return;
    }
    var s := buf;
    if LooksLikeNc(s) {
      s := s[..|s| - 1] + "\r";
      s := s + "\n";
      assert s == NcFixed(buf);
    }
    ghost var whole := s;
    ProgressStart(whole);
    var pos := Find(s);
    while pos != -1
      invariant pos == Find(s)
      invariant Progress(whole, parts, s)
      decreases |s|
    {
      ProgressStep(whole, parts, s);
      if pos > 0 {
        parts := parts + [s[..pos]];
      }
      s := s[pos + 2..];
      pos := Find(s);
    }
    ProgressEnd(whole, parts, s);
    cli.bufRecv := if |s| > 0 then s else "";
  }

  /** One successful `recv`: the left-over of the last one goes in front of the new bytes. */
  method ReceiveBuf(cli: Cli, chunk: string) returns (cmds: seq<string>)
    requires chunk != ""
    modifies cli`bufRecv
    ensures var t := TakeApart(NcFixed(old(cli.bufRecv) + chunk));
            cmds == NonEmpty(t.parts) && cli.bufRecv == t.rest
  {
    cmds := SplitBufToCmds(cli, cli.bufRecv + chunk);
  }

  // ----- whole runs -----

  /** A sender and a receiver with a stream between them. */
  datatype Link = Link(toSend: string, wire: string, bufRecv: string, got: seq<string>)

  /** What may happen next: a message is queued, the kernel takes up to `n` bytes,
      or the receiver reads up to `n` bytes. */
  datatype Event = Prepare(msg: string) | Send(n: nat) | Receive(n: nat)

  const IDLE: Link := Link("", "", "", [])

  function Min(a: nat, b: nat): nat {
    if a < b then a else b
  }

  function Step(l: Link, e: Event): Link {
    match e
    case Prepare(msg) => l.(toSend := l.toSend + Frame([Shortened(msg)]))
    case Send(n) =>
      var k := Min(n, |l.toSend|);
      l.(toSend := l.toSend[k..], wire := l.wire + l.toSend[..k])
    case Receive(n) =>
      var k := Min(n, |l.wire|);
      if k == 0 then l
      else
        var t := TakeApart(NcFixed(l.bufRecv + l.wire[..k]));
        l.(wire := l.wire[k..], bufRecv := t.rest, got := l.got + NonEmpty(t.parts))
  }

  function Run(events: seq<Event>): Link {
    if events == [] then IDLE else Step(Run(events[..|events| - 1]), events[|events| - 1])
  }

  /** The messages queued so far, as they are sent. */
  function Queued(events: seq<Event>): seq<string> {
    if events == [] then []
    else
      var before := Queued(events[..|events| - 1]);
      var e := events[|events| - 1];
      if e.Prepare? then before + [Shortened(e.msg)] else before
  }

  /** The messages queued so far, as they were handed in. */
  function Handed(events: seq<Event>): seq<string> {
    if events == [] then []
    else
      var before := Handed(events[..|events| - 1]);
      var e := events[|events| - 1];
      if e.Prepare? then before + [e.msg] else before
  }

  function Cut(msgs: seq<string>): (cut: seq<string>)
    ensures |cut| == |msgs|
  {
    seq(|msgs|, i requires 0 <= i < |msgs| => Shortened(msgs[i]))
  }

  lemma {:induction false} QueuedIsCut(events: seq<Event>)
    ensures Queued(events) == Cut(Handed(events))
    decreases |events|
  {
    if events != [] {
      QueuedIsCut(events[..|events| - 1]);
    }
  }

  /** A message the `nc` rule cannot touch: no LF after its first character. */
  predicate Plain(msg: string) {
    forall i :: 1 <= i < |msg| ==> msg[i] != '\n'
  }

  ghost predicate AllPlain(msgs: seq<string>) {
    forall k :: 0 <= k < |msgs| ==> Plain(msgs[k])
  }

  /** The receiver has read a whole number of messages, and the bytes it holds back, those in flight
      and those still to be sent are exactly the frames of the others. */
  ghost predicate InStep(l: Link, msgs: seq<string>, read: nat) {
    && read <= |msgs|
    && l.got == NonEmpty(msgs[..read])
    && l.bufRecv + (l.wire + l.toSend) == Frame(msgs[read..])
    && CrlfFree(l.bufRecv)
  }

  lemma HasFirstEnd(s: string, tail: string, m: string, later: string)
    requires s + tail == m + CRLF + later && |s| >= |m| + 2
    ensures EndsAt(s, |m|)
  {
    assert s[|m|] == (s + tail)[|m|] && s[|m| + 1] == (s + tail)[|m| + 1];
  }

  /** A buffer that begins at a message boundary is never mistaken for a line from `nc`. */
  lemma NeverNc(s: string, tail: string, msgs: seq<string>)
    requires AllPlain(msgs) && s + tail == Frame(msgs)
    ensures !LooksLikeNc(s)
  {
    if |s| >= 2 && CrlfFree(s) {
      var m := msgs[0];
      var whole := m + CRLF + Frame(msgs[1..]);
      if |s| >= |m| + 2 {
        HasFirstEnd(s, tail, m, Frame(msgs[1..]));
      } else {
        var last := |s| - 1;
        assert s[last] == (s + tail)[last] == whole[last];
        assert whole[last] == if last < |m| then m[last] else '\r';
      }
    }
  }

  /** Taking apart a beginning of the frames gives a beginning of the messages. */
  lemma {:induction false} PrefixOfFrames(s: string, tail: string, msgs: seq<string>)
    requires AllPlain(msgs) && s + tail == Frame(msgs)
    ensures var t := TakeApart(s);
            && |t.parts| <= |msgs|
            && t.parts == msgs[..|t.parts|]
            && t.rest + tail == Frame(msgs[|t.parts|..])
    decreases |msgs|
  {
    hide FindFrom, NonEmpty, Frame, Plain;
    if Find(s) != -1 {
      SomeFrame(s, tail, msgs);
      var m := msgs[0];
      PlainCrlfFree(m);
      SameFirstEnd(s, tail, m, Frame(msgs[1..]));
      TakeFirst(s, m);
      hide TakeApart, Find;
      PrefixOfFrames(s[|m| + 2..], tail, msgs[1..]);
      FirstAndRest(msgs, |TakeApart(s[|m| + 2..]).parts|);
    } else {
      assert msgs[0..] == msgs;
    }
  }

  /** A stream with a CR LF in it is not the frames of nothing. */
  lemma SomeFrame(s: string, tail: string, msgs: seq<string>)
    requires s != "" && s + tail == Frame(msgs)
    ensures msgs != [] && s + tail == msgs[0] + CRLF + Frame(msgs[1..])
  {
    assert |s + tail| > 0;
  }

  lemma TakeFirst(s: string, m: string)
    requires Find(s) == |m| && s[..|m|] == m
    ensures var later := TakeApart(s[|m| + 2..]); TakeApart(s) == Taken([m] + later.parts, later.rest)
  {
  }

  lemma FirstAndRest(msgs: seq<string>, k: nat)
    requires k < |msgs|
    ensures msgs[..k + 1] == [msgs[0]] + msgs[1..][..k] && msgs[k + 1..] == msgs[1..][k..]
  {
  }

  lemma SameFirstEnd(s: string, tail: string, m: string, later: string)
    requires CrlfFree(m) && Find(s) != -1 && s + tail == m + CRLF + later
    ensures Find(s) == |m| && s[..|m|] == m && s[|m| + 2..] + tail == later
  {
    var pos := Find(s);
    var whole := m + CRLF + later;
    FirstEnd(m, later);
    assert EndsAt(whole, pos);
    forall i: nat | i < pos ensures !EndsAt(whole, i) {
      assert EndsAt(whole, i) ==> EndsAt(s, i);
    }
    assert s[pos + 2..] + tail == whole[pos + 2..];
  }

  lemma PlainCrlfFree(m: string)
    requires Plain(m)
    ensures CrlfFree(m)
  {
    forall i: nat ensures !EndsAt(m, i) {
      if i + 1 < |m| { assert m[i + 1] != '\n'; }
    }
  }

  lemma ReceiveInStep(l: Link, msgs: seq<string>, read: nat, n: nat) returns (read': nat)
    requires AllPlain(msgs) && InStep(l, msgs, read)
    ensures InStep(Step(l, Receive(n)), msgs, read')
  {
    hide FindFrom, Frame, TakeApart, NonEmpty;
    var k := Min(n, |l.wire|);
    read' := read;
    if k != 0 {
      var s := l.bufRecv + l.wire[..k];
      var tail := l.wire[k..] + l.toSend;
      assert s + tail == Frame(msgs[read..]) by {
        assert l.wire == l.wire[..k] + l.wire[k..];
        assert s + tail == l.bufRecv + (l.wire + l.toSend);
      }
      NeverNc(s, tail, msgs[read..]);
      PrefixOfFrames(s, tail, msgs[read..]);
      var t := TakeApart(s);
      TakeApartReads(s);
      read' := read + |t.parts|;
      assert msgs[read'..] == msgs[read..][|t.parts|..];
      assert msgs[..read'] == msgs[..read] + t.parts;
      NonEmptyAppend(msgs[..read], t.parts);
    }
  }

  lemma PrepareInStep(l: Link, msgs: seq<string>, read: nat, msg: string)
    requires InStep(l, msgs, read)
    ensures InStep(Step(l, Prepare(msg)), msgs + [Shortened(msg)], read)
  {
    var added := [Shortened(msg)];
    FrameAppend(msgs[read..], added);
    assert (msgs + added)[read..] == msgs[read..] + added;
    assert (msgs + added)[..read] == msgs[..read];
    Assoc(l.wire, l.toSend, Frame(added));
    Assoc(l.bufRecv, l.wire + l.toSend, Frame(added));
  }

  lemma SendInStep(l: Link, msgs: seq<string>, read: nat, n: nat)
    requires InStep(l, msgs, read)
    ensures InStep(Step(l, Send(n)), msgs, read)
  {
    var k := Min(n, |l.toSend|);
    assert l.toSend == l.toSend[..k] + l.toSend[k..];
    Assoc(l.wire, l.toSend[..k], l.toSend[k..]);
  }

  /** Every run of plain messages stays in step: the receiver has the first `read` messages, once each
      and in order, and nothing else is ever on its way but the frames of the rest. */
  lemma {:induction false} RunInStep(events: seq<Event>) returns (read: nat)
    requires AllPlain(Queued(events))
    ensures InStep(Run(events), Queued(events), read)
    decreases |events|
  {
    if events == [] {
      read := 0;
      assert "" + ("" + "") == "";
    } else {
      var front, e := events[..|events| - 1], events[|events| - 1];
      var before, msgs := Queued(front), Queued(events);
      forall k | 0 <= k < |before| ensures Plain(before[k]) { assert before[k] == msgs[k]; }
      read := RunInStep(front);
      match e {
        case Prepare(msg) => PrepareInStep(Run(front), before, read, msg);
        case Send(n) => SendInStep(Run(front), before, read, n);
        case Receive(n) => read := ReceiveInStep(Run(front), before, read, n);
      }
    }
  }

  /** End-to-end delivery. Whatever the portions in which the bytes were sent and read, the receiver has a
      beginning of the list of non-empty messages; once nothing is queued or in flight, it has all of them
      and holds nothing back. */
  lemma Delivery(events: seq<Event>)
    requires AllPlain(Queued(events))
    ensures Run(events).got <= NonEmpty(Queued(events))
    ensures Run(events).toSend == "" && Run(events).wire == "" ==>
              Run(events).got == NonEmpty(Queued(events)) && Run(events).bufRecv == ""
  {
    var read := RunInStep(events);
    var msgs, l := Queued(events), Run(events);
    assert msgs == msgs[..read] + msgs[read..];
    NonEmptyAppend(msgs[..read], msgs[read..]);
    if l.toSend == "" && l.wire == "" && read < |msgs| {
      var m := msgs[read];
      var later := Frame(msgs[read..][1..]);
      assert l.bufRecv == m + CRLF + later;
      HasFirstEnd(l.bufRecv, "", m, later);
    }
  }

  /** What went out, in the sender's terms: at every point the bytes sent so far followed by the bytes
      waiting are the frames of the messages queued so far. This needs no assumption on the messages. */
  function SentBytes(events: seq<Event>): string {
    if events == [] then ""
    else
      var front, e := events[..|events| - 1], events[|events| - 1];
      if e.Send? then SentBytes(front) + Run(front).toSend[..Min(e.n, |Run(front).toSend|)] else SentBytes(front)
  }

  lemma {:induction false} SentThenWaiting(events: seq<Event>)
    ensures SentBytes(events) + Run(events).toSend == Frame(Queued(events))
    decreases |events|
  {
    if events != [] {
      var front, e := events[..|events| - 1], events[|events| - 1];
      SentThenWaiting(front);
      var l := Run(front);
      if e.Prepare? {
        FrameAppend(Queued(front), [Shortened(e.msg)]);
        Assoc(SentBytes(front), l.toSend, Frame([Shortened(e.msg)]));
      } else if e.Send? {
        var k := Min(e.n, |l.toSend|);
        assert l.toSend == l.toSend[..k] + l.toSend[k..];
        Assoc(SentBytes(front), l.toSend[..k], l.toSend[k..]);
      }
    }
  }

  // ----- the condition is exact -----

  /** No LF among the first 510 characters of a message but the very first. */
  ghost predicate NoLateNewlines(msgs: seq<string>) {
    forall k, i :: 0 <= k < |msgs| && 1 <= i < |msgs[k]| && i < 510 ==> msgs[k][i] != '\n'
  }

  lemma PlainCut(msgs: seq<string>)
    ensures NoLateNewlines(msgs) <==> AllPlain(Cut(msgs))
  {
    if !NoLateNewlines(msgs) {
      var k, i :| 0 <= k < |msgs| && 1 <= i < |msgs[k]| && i < 510 && msgs[k][i] == '\n';
      assert Cut(msgs)[k][i] == '\n';
    }
    if !AllPlain(Cut(msgs)) {
      var k :| 0 <= k < |msgs| && !Plain(Cut(msgs)[k]);
      var i :| 1 <= i < |Cut(msgs)[k]| && Cut(msgs)[k][i] == '\n';
      assert msgs[k][i] == '\n';
    }
  }

  /** Each message got is the first 510 characters of the corresponding non-empty message handed in. */
  ghost predicate Got(got: seq<string>, msgs: seq<string>) {
    && |got| <= |NonEmpty(msgs)|
    && forall k :: 0 <= k < |got| ==>
         got[k] == if |NonEmpty(msgs)[k]| < 510 then NonEmpty(msgs)[k] else NonEmpty(msgs)[k][..510]
  }

  /** These messages are delivered: in every run that queues them and leaves nothing waiting or in flight,
      the receiver has got all the non-empty ones, once each and in order. */
  ghost predicate Delivered(msgs: seq<string>) {
    forall events :: Handed(events) == msgs && Run(events).toSend == "" && Run(events).wire == "" ==>
                       Got(Run(events).got, msgs) && |Run(events).got| == |NonEmpty(msgs)|
  }

  lemma {:induction false} CutNonEmpty(msgs: seq<string>)
    ensures NonEmpty(Cut(msgs)) == Cut(NonEmpty(msgs))
  {
    if msgs != [] {
      CutNonEmpty(msgs[1..]);
      assert Cut(msgs)[1..] == Cut(msgs[1..]);
    }
  }

  lemma GotIs(got: seq<string>, msgs: seq<string>)
    ensures Got(got, msgs) <==> got <= NonEmpty(Cut(msgs))
    ensures Got(got, msgs) && |got| == |NonEmpty(msgs)| <==> got == NonEmpty(Cut(msgs))
  {
    CutNonEmpty(msgs);
    hide NonEmpty;
    var all := Cut(NonEmpty(msgs));
    assert forall k :: 0 <= k < |all| ==>
        all[k] == if |NonEmpty(msgs)[k]| < 510 then NonEmpty(msgs)[k] else NonEmpty(msgs)[k][..510];
    if got <= all {
      assert forall k :: 0 <= k < |got| ==> got[k] == all[k];
    }
  }

  /** At any point of any run of messages without a late LF, each message got is the beginning of the message
      handed in. */
  lemma GotBeginnings(events: seq<Event>)
    requires NoLateNewlines(Handed(events))
    ensures Got(Run(events).got, Handed(events))
  {
    QueuedIsCut(events);
    PlainCut(Handed(events));
    Delivery(events);
    GotIs(Run(events).got, Handed(events));
  }

  /** Messages are delivered, in every run, exactly if none has an LF among its first 510 characters but the very
      first. */
  lemma DeliveredExactly(msgs: seq<string>)
    ensures Delivered(msgs) <==> NoLateNewlines(msgs)
  {
    PlainCut(msgs);
    if NoLateNewlines(msgs) {
      forall events | Handed(events) == msgs && Run(events).toSend == "" && Run(events).wire == ""
        ensures Got(Run(events).got, msgs) && |Run(events).got| == |NonEmpty(msgs)|
      {
        QueuedIsCut(events);
        Delivery(events);
        GotIs(Run(events).got, msgs);
      }
    } else {
      var events := Undelivered(msgs);
      GotIs(Run(events).got, msgs);
    }
  }

  /** A run that does not deliver: it reads the plain messages in front of the first other one, then up to the
      first LF that does not stand at the start of that one, then the rest. */
  lemma Undelivered(raw: seq<string>) returns (events: seq<Event>)
    requires !AllPlain(Cut(raw))
    ensures Handed(events) == raw && Run(events).toSend == "" && Run(events).wire == ""
    ensures Run(events).got != NonEmpty(Cut(raw))
  {
    hide Portions, Run, Handed, NonEmpty, Frame, AllPlain, Cut, ReadNext, Plain;
    var msgs := Cut(raw);
    var j := FirstNotPlain(msgs, 0);
    var before, m, after := msgs[..j], msgs[j], msgs[j + 1..];
    var i := FirstLate(m, 1);
    events := Portions(raw, |Frame(before)|, i + 1);
    PortionsRun(raw, |Frame(before)|, i + 1);
    if m[i - 1] == '\r' {
      CrlfNeverGot(msgs, j, i - 1, events);
    } else {
      NcBreaks(raw, j, i);
    }
  }

  /** No run delivers a message with a CR LF in it, since every piece read is free of them. */
  lemma CrlfNeverGot(msgs: seq<string>, j: nat, i: nat, events: seq<Event>)
    requires j < |msgs| && EndsAt(msgs[j], i)
    ensures Run(events).got != NonEmpty(msgs)
  {
    GotCrlfFree(events);
    NonEmptyIn(msgs);
    assert msgs[j] in NonEmpty(msgs);
  }

  lemma {:induction false} GotCrlfFree(events: seq<Event>)
    ensures forall p :: p in Run(events).got ==> CrlfFree(p)
    decreases |events|
  {
    hide FindFrom, TakeApart, NonEmpty, CrlfFree;
    if events != [] {
      var front, e := events[..|events| - 1], events[|events| - 1];
      GotCrlfFree(front);
      var l := Run(front);
      if e.Receive? && Min(e.n, |l.wire|) != 0 {
        PartsCrlfFree(NcFixed(l.bufRecv + l.wire[..Min(e.n, |l.wire|)]));
      }
    }
  }

  lemma PartsCrlfFree(s: string)
    ensures forall p :: p in NonEmpty(TakeApart(s).parts) ==> CrlfFree(p)
  {
    hide FindFrom, CrlfFree;
    TakeApartReads(s);
    NonEmptyIn(TakeApart(s).parts);
  }

  function Queueing(msgs: seq<string>): seq<Event> {
    if msgs == [] then [] else Queueing(msgs[..|msgs| - 1]) + [Prepare(msgs[|msgs| - 1])]
  }

  /** The run that queues the messages, sends all of them and reads them in three portions. */
  function Portions(raw: seq<string>, first: nat, second: nat): seq<Event> {
    var size := |Frame(Cut(raw))|;
    Queueing(raw) + [Send(size)] + [Receive(first)] + [Receive(second)] + [Receive(size)]
  }

  lemma Snoc(events: seq<Event>, e: Event)
    ensures Run(events + [e]) == Step(Run(events), e)
    ensures Handed(events + [e]) == if e.Prepare? then Handed(events) + [e.msg] else Handed(events)
  {
    assert (events + [e])[..|events|] == events;
  }

  lemma {:induction false} AllQueued(raw: seq<string>)
    ensures Handed(Queueing(raw)) == raw && Run(Queueing(raw)) == Link(Frame(Cut(raw)), "", "", [])
  {
    if raw != [] {
      var front, last := raw[..|raw| - 1], raw[|raw| - 1];
      AllQueued(front);
      CutSnoc(front, last);
      hide Handed, Run, Step, Frame, Shortened, Cut;
      Snoc(Queueing(front), Prepare(last));
      OneQueued(Frame(Cut(front)), last);
      assert raw == front + [last];
    }
  }

  lemma CutSnoc(front: seq<string>, last: string)
    ensures Frame(Cut(front + [last])) == Frame(Cut(front)) + Frame([Shortened(last)])
  {
    hide Shortened, Frame;
    assert Cut(front + [last]) == Cut(front) + [Shortened(last)];
    FrameAppend(Cut(front), [Shortened(last)]);
  }

  lemma OneQueued(waiting: string, msg: string)
    ensures Step(Link(waiting, "", "", []), Prepare(msg)) == Link(waiting + Frame([Shortened(msg)]), "", "", [])
  {
  }

  /** What a read does to the rest of a stream on which nothing more is sent. */
  function ReadNext(l: Link, n: nat): Link {
    Step(l, Receive(n))
  }

  lemma PortionsRun(raw: seq<string>, first: nat, second: nat)
    ensures var s := Frame(Cut(raw));
            var l := Run(Portions(raw, first, second));
            && Handed(Portions(raw, first, second)) == raw
            && l == ReadNext(ReadNext(ReadNext(Link("", s, "", []), first), second), |s|)
            && l.toSend == "" && l.wire == ""
  {
    hide Handed, Run, Step, Queueing, Frame, Cut;
    var s := Frame(Cut(raw));
    var e0 := Queueing(raw);
    var e1 := e0 + [Send(|s|)];
    var e2 := e1 + [Receive(first)];
    var e3 := e2 + [Receive(second)];
    AllQueued(raw);
    AllSent(s);
    Snoc(e0, Send(|s|));
    Snoc(e1, Receive(first));
    Snoc(e2, Receive(second));
    Snoc(e3, Receive(|s|));
    var l1 := ReadNext(Link("", s, "", []), first);
    WireShorter(Link("", s, "", []), first);
    WireShorter(l1, second);
    WireShorter(ReadNext(l1, second), |s|);
  }

  lemma AllSent(s: string)
    ensures Step(Link(s, "", "", []), Send(|s|)) == Link("", s, "", [])
  {
    assert s[|s|..] == "" && "" + s[..|s|] == s;
  }

  /** A read sends nothing and empties the wire if it can. */
  lemma WireShorter(l: Link, n: nat)
    ensures ReadNext(l, n).toSend == l.toSend && |ReadNext(l, n).wire| == |l.wire| - Min(n, |l.wire|)
  {
    hide TakeApart, NonEmpty, NcFixed;
  }

  lemma {:induction false} FramesApart(msgs: seq<string>)
    requires AllPlain(msgs)
    ensures TakeApart(NcFixed(Frame(msgs))) == Taken(msgs, "")
  {
    hide FindFrom;
    assert Frame(msgs) + "" == Frame(msgs);
    NeverNc(Frame(msgs), "", msgs);
    forall k | 0 <= k < |msgs| ensures CrlfFree(msgs[k]) { PlainCrlfFree(msgs[k]); }
    OneReading(Frame(msgs), Taken(msgs, ""));
  }

  /** A line that looks as if typed into `nc` is read as the message before its LF. */
  lemma NcApart(m: string, i: nat)
    requires 1 <= i < |m| && m[i] == '\n' && m[i - 1] != '\r' && forall j :: 1 <= j < i ==> m[j] != '\n'
    ensures TakeApart(NcFixed(m[..i + 1])) == Taken([m[..i]], "")
  {
    hide TakeApart, FindFrom;
    var a := m[..i + 1];
    assert CrlfFree(a);
    assert CrlfFree(a[..i]) by {
      forall j: nat ensures !EndsAt(a[..i], j) {
        assert EndsAt(a[..i], j) ==> EndsAt(a, j);
      }
    }
    assert a[..i] == m[..i] && NcFixed(a) == m[..i] + CRLF;
    assert [m[..i]][1..] == [] && Frame([m[..i]]) + "" == NcFixed(a);
    OneReading(NcFixed(a), Taken([m[..i]], ""));
  }

  /** Reading exactly the frames of plain messages gives the messages and holds nothing back. */
  lemma ReadFrames(before: seq<string>, tail: string)
    requires AllPlain(before)
    ensures ReadNext(Link("", Frame(before) + tail, "", []), |Frame(before)|) == Link("", tail, "", NonEmpty(before))
  {
    hide TakeApart, NcFixed, FindFrom;
    var f := Frame(before);
    FramesApart(before);
    assert (f + tail)[..|f|] == f && (f + tail)[|f|..] == tail;
    assert "" + f == f && [] + NonEmpty(before) == NonEmpty(before);
    assert f == "" ==> before == [] && f + tail == tail;
  }

  /** Reading up to the LF gives the message before it. */
  lemma ReadToLf(got: seq<string>, m: string, tail: string, i: nat)
    requires 1 <= i < |m| && m[i] == '\n' && m[i - 1] != '\r' && forall j :: 1 <= j < i ==> m[j] != '\n'
    ensures ReadNext(Link("", m + tail, "", got), i + 1).got == got + [m[..i]]
  {
    hide TakeApart, NcFixed, FindFrom;
    NcApart(m, i);
    NonEmptyOne(m[..i]);
    assert "" + (m + tail)[..i + 1] == m[..i + 1];
  }

  lemma NcBreaks(raw: seq<string>, j: nat, i: nat)
    requires j < |raw| && AllPlain(Cut(raw)[..j])
    requires var m := Cut(raw)[j];
             1 <= i < |m| && m[i] == '\n' && m[i - 1] != '\r' && forall k :: 1 <= k < i ==> m[k] != '\n'
    ensures Run(Portions(raw, |Frame(Cut(raw)[..j])|, i + 1)).got != NonEmpty(Cut(raw))
  {
    var msgs := Cut(raw);
    hide TakeApart, NcFixed, FindFrom, Portions, Plain, Frame, NonEmpty, Run, AllPlain, Cut;
    var before, m, after := msgs[..j], msgs[j], msgs[j + 1..];
    var f, tail := Frame(before), CRLF + Frame(after);
    FrameSplit(msgs, j);
    PortionsRun(raw, |f|, i + 1);
    ReadFrames(before, m + tail);
    ReadToLf(NonEmpty(before), m, tail, i);
    var l2 := ReadNext(Link("", m + tail, "", NonEmpty(before)), i + 1);
    var l3 := ReadNext(l2, |Frame(msgs)|);
    assert l2.got <= l3.got;
    assert msgs == before + [m] + after;
    WrongAt(before, m, after, m[..i], l3.got);
  }

  lemma FrameSplit(msgs: seq<string>, j: nat)
    requires j < |msgs|
    ensures Frame(msgs) == Frame(msgs[..j]) + (msgs[j] + (CRLF + Frame(msgs[j + 1..])))
  {
    hide NonEmpty;
    var later := msgs[j..];
    assert msgs == msgs[..j] + later && later[1..] == msgs[j + 1..];
    FrameAppend(msgs[..j], later);
    Assoc(msgs[j], CRLF, Frame(later[1..]));
  }

  /** A wrong piece in place of a message is wrong for good. */
  lemma WrongAt(before: seq<string>, m: string, after: seq<string>, wrong: string, got: seq<string>)
    requires m != "" && wrong != m && NonEmpty(before) + [wrong] <= got
    ensures got != NonEmpty(before + [m] + after)
  {
    NonEmptyAppend(before + [m], after);
    NonEmptyAppend(before, [m]);
    NonEmptyOne(m);
    var k := |NonEmpty(before)|;
    assert NonEmpty(before + [m] + after)[k] == m && got[k] == wrong;
  }

  lemma FirstNotPlain(msgs: seq<string>, from: nat) returns (j: nat)
    requires from <= |msgs| && AllPlain(msgs[..from]) && !AllPlain(msgs)
    ensures j < |msgs| && !Plain(msgs[j]) && AllPlain(msgs[..j])
    decreases |msgs| - from
  {
    assert msgs[..|msgs|] == msgs;
    if !Plain(msgs[from]) {
      j := from;
    } else {
      assert msgs[..from + 1] == msgs[..from] + [msgs[from]];
      j := FirstNotPlain(msgs, from + 1);
    }
  }

  lemma FirstLate(m: string, from: nat) returns (i: nat)
    requires 1 <= from && !Plain(m) && forall j :: 1 <= j < from && j < |m| ==> m[j] != '\n'
    ensures 1 <= i < |m| && m[i] == '\n' && forall j :: 1 <= j < i ==> m[j] != '\n'
    decreases |m| - from
  {
    if from < |m| && m[from] == '\n' {
      i := from;
    } else {
      i := FirstLate(m, from + 1);
    }
  }
}
