/** Searching and splitting strings, signs, and lower case. */
module Strings {
  /** Position of the first `c`, or the length. */
  function IndexOf(s: string, c: char): (i: nat)
    ensures i <= |s| && c !in s[..i]
    ensures i < |s| ==> s[i] == c
  {
    if s == "" || s[0] == c then 0 else 1 + IndexOf(s[1..], c)
  }

  lemma {:induction false} Absent(s: string, c: char)
    requires c !in s
    ensures IndexOf(s, c) == |s|
  {
    if s != "" {
      Absent(s[1..], c);
    }
  }

  /** The pieces with a delimiter between each two. */
  function JoinWith(pieces: seq<string>, delimiter: char): string {
    if pieces == [] then ""
    else if |pieces| == 1 then pieces[0]
    else pieces[0] + [delimiter] + JoinWith(pieces[1..], delimiter)
  }

  /** Everything between delimiters; always at least one piece. */
  function Split(s: string, delimiter: char): (pieces: seq<string>)
    ensures |pieces| >= 1
    ensures forall p :: p in pieces ==> delimiter !in p
    ensures JoinWith(pieces, delimiter) == s
    decreases |s|
  {
    var i := IndexOf(s, delimiter);
    if i == |s| then
      assert s[..i] == s;
      [s]
    else
      var later := Split(s[i + 1..], delimiter);
      assert ([s[..i]] + later)[1..] == later;
      [s[..i]] + later
  }

  /** Splitting undoes joining. */
  lemma {:induction false} SplitJoined(pieces: seq<string>, delimiter: char)
    requires pieces != [] && forall p :: p in pieces ==> delimiter !in p
    ensures Split(JoinWith(pieces, delimiter), delimiter) == pieces
    decreases |pieces|
  {
    var first, s := pieces[0], JoinWith(pieces, delimiter);
    if |pieces| == 1 {
      Absent(s, delimiter);
    } else {
      var later := JoinWith(pieces[1..], delimiter);
      assert s == first + ([delimiter] + later);
      FoundAt(first, later, delimiter);
      assert s[..|first|] == first && s[|first| + 1..] == later;
      SplitJoined(pieces[1..], delimiter);
    }
  }

  lemma {:induction false} FoundAt(first: string, later: string, c: char)
    requires c !in first
    ensures IndexOf(first + ([c] + later), c) == |first|
  {
    var s := first + ([c] + later);
    if first == "" {
      assert s[0] == c;
    } else {
      assert s[1..] == first[1..] + ([c] + later) && s[0] == first[0];
      FoundAt(first[1..], later, c);
    }
  }

  predicate Sign(c: char) {
    c == '+' || c == '-'
  }

  /** The last sign before this position is a plus, or there is none. */
  ghost predicate PlusAt(s: string, i: nat)
    requires i <= |s|
  {
    forall j :: 0 <= j < i && s[j] == '-' ==> exists k :: j < k < i && s[k] == '+'
  }

  lemma PlusNext(s: string, i: nat)
    requires i < |s|
    ensures PlusAt(s, i + 1) <==> s[i] == '+' || (s[i] != '-' && PlusAt(s, i))
  {
  }

  function LowerChar(c: char): char {
    if 'A' <= c <= 'Z' then c - 'A' + 'a' else c
  }

  /** ASCII letters in lower case (`uncapitalizeString`, `toLower`). */
  function Lower(s: string): (r: string)
    ensures |r| == |s| && forall i :: 0 <= i < |s| ==> r[i] == LowerChar(s[i])
    ensures forall i :: 0 <= i < |s| ==> r[i] as int == if 65 <= s[i] as int <= 90 then s[i] as int + 32 else s[i] as int
  {
    seq(|s|, i requires 0 <= i < |s| => LowerChar(s[i]))
  }

  lemma LowerTwice(s: string)
    ensures Lower(Lower(s)) == Lower(s)
  {
  }
}
