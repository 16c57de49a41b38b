/** Messages on a stream, each ended by CR LF (section 2.3 of RFC 2812). */
module CrLf {
  import opened Lists

  const CRLF: string := "\r\n"

  predicate EndsAt(s: string, i: nat) {
    i + 1 < |s| && s[i] == '\r' && s[i + 1] == '\n'
  }

  ghost predicate CrlfFree(s: string) {
    forall i: nat :: !EndsAt(s, i)
  }

  /** Position of the first CR LF, or -1. */
  function Find(s: string): (pos: int)
    ensures -1 <= pos && (pos == -1 || pos + 1 < |s|)
    ensures pos == -1 <==> CrlfFree(s)
    ensures pos >= 0 ==> EndsAt(s, pos) && forall i: nat :: i < pos ==> !EndsAt(s, i)
  {
    FindFrom(s, 0)
  }

  function FindFrom(s: string, from: nat): (pos: int)
    requires forall i: nat :: i < from ==> !EndsAt(s, i)
    ensures pos == -1 <==> CrlfFree(s)
    ensures pos >= -1
    ensures pos >= 0 ==> EndsAt(s, pos) && forall i: nat :: i < pos ==> !EndsAt(s, i)
    decreases |s| - from
  {
    if from >= |s| then -1
    else if EndsAt(s, from) then from
    else FindFrom(s, from + 1)
  }

  /** The bytes of a list of messages on the wire. */
  function Frame(parts: seq<string>): string {
    if parts == [] then "" else parts[0] + CRLF + Frame(parts[1..])
  }

  /** A stream taken apart: the complete pieces and what follows the last CR LF. */
  datatype Taken = Taken(parts: seq<string>, rest: string)

  /** `t` is a way to read `s` as pieces, none of which hides a CR LF. */
  ghost predicate IsReading(s: string, t: Taken) {
    && s == Frame(t.parts) + t.rest
    && CrlfFree(t.rest)
    && forall k :: 0 <= k < |t.parts| ==> CrlfFree(t.parts[k])
  }

  function TakeApart(s: string): Taken
    decreases |s|
  {
    var pos := Find(s);
    if pos == -1 then Taken([], s)
    else
      var later := TakeApart(s[pos + 2..]);
      Taken([s[..pos]] + later.parts, later.rest)
  }

  lemma {:induction false} TakeApartReads(s: string)
    ensures IsReading(s, TakeApart(s))
    decreases |s|
  {
    var pos := Find(s);
    if pos != -1 {
      TakeApartReads(s[pos + 2..]);
      ConsReading(s, pos, TakeApart(s[pos + 2..]));
    }
  }

  lemma ConsReading(s: string, pos: nat, later: Taken)
    requires pos + 1 < |s| && EndsAt(s, pos)
    requires forall i: nat :: i < pos ==> !EndsAt(s, i)
    requires IsReading(s[pos + 2..], later)
    ensures IsReading(s, Taken([s[..pos]] + later.parts, later.rest))
  {
    var parts := [s[..pos]] + later.parts;
    assert parts[1..] == later.parts;
    assert Frame(parts) + later.rest == s[..pos] + CRLF + s[pos + 2..] by {
      assert Frame(parts) == s[..pos] + CRLF + Frame(later.parts);
    }
    assert s == s[..pos] + CRLF + s[pos + 2..];
    forall i: nat ensures !EndsAt(s[..pos], i) {
      assert EndsAt(s[..pos], i) ==> EndsAt(s, i);
    }
  }

  /** There is only one reading of a stream. */
  lemma {:induction false} OneReading(s: string, t: Taken)
    requires IsReading(s, t)
    ensures t == TakeApart(s)
    decreases |s|
  {
    if t.parts == [] {
      assert s == t.rest;
    } else {
      var first, later := t.parts[0], Taken(t.parts[1..], t.rest);
      var tail := Frame(later.parts) + t.rest;
      assert s == first + CRLF + tail;
      FirstEnd(first, tail);
      OneReading(tail, later);
    }
  }

  lemma FirstEnd(first: string, tail: string)
    requires CrlfFree(first)
    ensures var s := first + CRLF + tail;
            Find(s) == |first| && s[..|first|] == first && s[|first| + 2..] == tail
  {
    var s := first + CRLF + tail;
    assert EndsAt(s, |first|);
    forall i: nat | i < |first| ensures !EndsAt(s, i) {
      assert !EndsAt(first, i);
    }
  }

  lemma {:induction false} FrameAppend(a: seq<string>, b: seq<string>)
    ensures Frame(a + b) == Frame(a) + Frame(b)
    decreases |a|
  {
    if a == [] {
      assert a + b == b;
    } else {
      assert (a + b)[1..] == a[1..] + b;
      FrameAppend(a[1..], b);
    }
  }

  lemma Assoc(a: string, b: string, c: string)
    ensures a + b + c == a + (b + c)
  {
  }

  /** Reading on after a break in the stream, with the left-over carried over, gives the same pieces
      as reading the whole stream at once. */
  lemma ReadOn(a: string, b: string)
    ensures var first := TakeApart(a);
            var second := TakeApart(first.rest + b);
            TakeApart(a + b) == Taken(first.parts + second.parts, second.rest)
  {
    var first := TakeApart(a);
    var second := TakeApart(first.rest + b);
    TakeApartReads(a);
    TakeApartReads(first.rest + b);
    FrameAppend(first.parts, second.parts);
    Assoc(Frame(first.parts), first.rest, b);
    Assoc(Frame(first.parts), Frame(second.parts), second.rest);
    OneReading(a + b, Taken(first.parts + second.parts, second.rest));
  }

  /** Half way through taking `whole` apart: `done` are the messages found so far, `s` is what is left. */
  ghost predicate Progress(whole: string, done: seq<string>, s: string) {
    && done + NonEmpty(TakeApart(s).parts) == NonEmpty(TakeApart(whole).parts)
    && TakeApart(s).rest == TakeApart(whole).rest
  }

  lemma ProgressStart(whole: string)
    ensures Progress(whole, [], whole)
  {
    assert [] + NonEmpty(TakeApart(whole).parts) == NonEmpty(TakeApart(whole).parts);
  }

  lemma ProgressEnd(whole: string, done: seq<string>, s: string)
    requires Progress(whole, done, s) && Find(s) == -1
    ensures done == NonEmpty(TakeApart(whole).parts) && s == TakeApart(whole).rest
  {
    assert done + [] == done;
  }

  lemma ProgressStep(whole: string, done: seq<string>, s: string)
    requires Progress(whole, done, s) && Find(s) != -1
    ensures Progress(whole, if Find(s) > 0 then done + [s[..Find(s)]] else done, s[Find(s) + 2..])
  {
    hide FindFrom;
    var piece, later := s[..Find(s)], TakeApart(s[Find(s) + 2..]);
    NonEmptyAppend([piece], later.parts);
    NonEmptyOne(piece);
    assert done + (NonEmpty([piece]) + NonEmpty(later.parts)) == done + NonEmpty([piece]) + NonEmpty(later.parts);
  }
}
