/** mariia: the lists of targets of JOIN and PART, taken apart at commas, sorted and without repeats. */
module Targets {
  import opened Strings
  import opened Net

  /** What follows the last delimiter if that is nothing. */
  function EmptyEnd(s: string): seq<string> {
    if s == "" || s[|s| - 1] == ',' then [""] else []
  }

  lemma FirstOfPieces(s: string)
    requires s != ""
    ensures var i := IndexOf(s, ',');
            Pieces(s) == if i < |s| then [s[..i]] + Pieces(s[i + 1..]) else [s]
  {
    hide IndexOf;
  }

  lemma FirstOfSplit(s: string)
    ensures var i := IndexOf(s, ',');
            Split(s, ',') == if i < |s| then [s[..i]] + Split(s[i + 1..], ',') else [s]
  {
    hide IndexOf, JoinWith;
  }

  lemma EndStays(s: string)
    requires s != ""
    ensures var i := IndexOf(s, ',');
            EmptyEnd(s) == if i < |s| then EmptyEnd(s[i + 1..]) else []
  {
    hide IndexOf;
    var i := IndexOf(s, ',');
    if i == |s| {
      assert s[|s| - 1] in s[..i];
    }
  }

  /** The pieces between commas, but for an empty one at the end. */
  lemma {:induction false} PiecesAre(s: string)
    ensures Pieces(s) + EmptyEnd(s) == Split(s, ',')
    decreases |s|
  {
    FirstOfSplit(s);
    if s != "" {
      FirstOfPieces(s);
      EndStays(s);
      hide IndexOf, Pieces, Split, EmptyEnd, JoinWith;
      var i := IndexOf(s, ',');
      if i < |s| {
        PiecesAre(s[i + 1..]);
        Regroup(s[..i], Pieces(s[i + 1..]), EmptyEnd(s[i + 1..]));
      }
    }
  }

  lemma Regroup(first: string, middle: seq<string>, end: seq<string>)
    ensures ([first] + middle) + end == [first] + (middle + end)
    ensures [first] + [] == [first]
  {
  }

  /** The order of `std::string`: the first difference decides, and a beginning comes before the whole. */
  ghost predicate Earlier(a: string, b: string) {
    exists k :: DiffersAt(a, b, k)
  }

  predicate DiffersAt(a: string, b: string, k: nat) {
    k <= |a| && k < |b| && a[..k] == b[..k] && (k < |a| ==> a[k] < b[k])
  }

  lemma {:induction false} BeforeIs(a: string, b: string)
    ensures Before(a, b) <==> Earlier(a, b)
  {
    if a == "" {
      if b != "" {
        assert DiffersAt(a, b, 0);
      }
    } else if b != "" {
      BeforeIs(a[1..], b[1..]);
      if a[0] < b[0] {
        assert DiffersAt(a, b, 0);
      } else if a[0] == b[0] {
        if k: nat :| DiffersAt(a[1..], b[1..], k) {
          assert a[..k + 1] == [a[0]] + a[1..][..k] && b[..k + 1] == [b[0]] + b[1..][..k];
          assert DiffersAt(a, b, k + 1);
        }
        if k: nat :| DiffersAt(a, b, k) {
          assert k > 0 && a[1..][..k - 1] == a[..k][1..] && b[1..][..k - 1] == b[..k][1..];
          assert DiffersAt(a[1..], b[1..], k - 1);
        }
      } else {
        LaterFirst(a, b);
      }
    }
  }

  lemma LaterFirst(a: string, b: string)
    requires a != "" && b != "" && a[0] > b[0]
    ensures !Earlier(a, b)
  {
    forall k: nat ensures !DiffersAt(a, b, k) {
      if 0 < k <= |a| && k < |b| {
        assert a[..k][0] == a[0] && b[..k][0] == b[0];
      }
    }
  }

  lemma {:induction false} BeforeOrder(a: string, b: string, c: string)
    ensures Before(a, b) && Before(b, c) ==> Before(a, c)
    ensures !Before(a, b) && a != b ==> Before(b, a)
    ensures !Before(a, a)
    decreases |a|
  {
    if a != "" {
      assert b != "" && a != b && a[0] == b[0] ==> a[1..] != b[1..] by {
        if b != "" && a[0] == b[0] && a[1..] == b[1..] {
          assert a == [a[0]] + a[1..] && b == [b[0]] + b[1..];
        }
      }
      BeforeOrder(a[1..], if b == "" then "" else b[1..], if c == "" then "" else c[1..]);
    }
  }

  ghost predicate Sorted(names: seq<string>) {
    forall i, j :: 0 <= i < j < |names| ==> Before(names[i], names[j])
  }

  lemma {:induction false} InsertSorted(names: seq<string>, s: string)
    requires Sorted(names)
    ensures Sorted(Insert(names, s))
    ensures forall x :: x in Insert(names, s) <==> x in names || x == s
    decreases |names|
  {
    hide Before;
    if names != [] && names[0] != s {
      if Before(s, names[0]) {
        forall x | x in names ensures Before(s, x) {
          BeforeOrder(s, names[0], x);
        }
      } else {
        InsertSorted(names[1..], s);
        BeforeOrder(s, names[0], s);
        assert names == [names[0]] + names[1..];
        forall x | x in Insert(names[1..], s) ensures Before(names[0], x) {
          if x != s {
            assert x in names[1..];
          }
        }
      }
    }
  }

  /** The targets of a request: the pieces, each once, in strictly increasing order. */
  lemma {:induction false} TargetsAre(pieces: seq<string>)
    ensures forall x :: x in UniqueSorted(pieces) <==> x in pieces
    ensures forall i, j :: 0 <= i < j < |UniqueSorted(pieces)| ==> Earlier(UniqueSorted(pieces)[i], UniqueSorted(pieces)[j])
    ensures Sorted(UniqueSorted(pieces))
    decreases |pieces|
  {
    hide Insert, Before, Earlier;
    if pieces != [] {
      var front, last := pieces[..|pieces| - 1], pieces[|pieces| - 1];
      TargetsAre(front);
      InsertSorted(UniqueSorted(front), last);
      assert pieces == front + [last];
    }
    forall i, j | 0 <= i < j < |UniqueSorted(pieces)| ensures Earlier(UniqueSorted(pieces)[i], UniqueSorted(pieces)[j]) {
      BeforeIs(UniqueSorted(pieces)[i], UniqueSorted(pieces)[j]);
    }
  }
}
