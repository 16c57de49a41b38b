/** What it means for a wildcard mask to match a text (section 2.5 of RFC 2812, without the `\` escape).
    `*` stands for any run of characters, `?` for exactly one, every other character for itself. */
module Mask {

  /** `piece` is what the single mask character `m` may stand for. */
  predicate Fits(m: char, piece: string) {
    if m == '*' then true
    else if m == '?' then |piece| == 1
    else piece == [m]
  }

  /** Between its two cuts, mask character `k` gets a piece of the text that fits it. */
  ghost predicate PieceFits(mask: string, text: string, cuts: seq<nat>, k: nat)
    requires k < |mask| && |cuts| == |mask| + 1
  {
    cuts[k] <= cuts[k + 1] <= |text| && Fits(mask[k], text[cuts[k]..cuts[k + 1]])
  }

  /** `cuts` divides `text` into one consecutive piece for each mask character, and every piece fits. */
  ghost predicate IsSplit(mask: string, text: string, cuts: seq<nat>) {
    && |cuts| == |mask| + 1
    && cuts[0] == 0
    && cuts[|mask|] == |text|
    && forall k :: 0 <= k < |mask| ==> PieceFits(mask, text, cuts, k)
  }

  /** The reference definition: some division of the text fits the mask. */
  ghost predicate Matches(mask: string, text: string) {
    exists cuts :: IsSplit(mask, text, cuts)
  }

  /** The same relation, by recursion over the first characters. */
  predicate Suffix(mask: string, text: string)
    decreases |mask| + |text|
  {
    if mask == "" then text == ""
    else if mask[0] == '*' then Suffix(mask[1..], text) || (text != "" && Suffix(mask, text[1..]))
    else text != "" && Fits(mask[0], text[..1]) && Suffix(mask[1..], text[1..])
  }

  /** A mask with a first character matches exactly when some prefix fits that character
      and the rest matches the remaining mask. */
  lemma {:induction false} SuffixSplit(mask: string, text: string)
    requires mask != ""
    ensures Suffix(mask, text) <==>
            exists k :: 0 <= k <= |text| && Fits(mask[0], text[..k]) && Suffix(mask[1..], text[k..])
    decreases |text|
  {
    if mask[0] != '*' {
      assert forall k :: 0 <= k <= |text| && Fits(mask[0], text[..k]) ==> k == 1;
    } else {
      assert text[0..] == text;
      if Suffix(mask[1..], text) {
        assert Fits(mask[0], text[..0]) && Suffix(mask[1..], text[0..]);
      } else if text != "" {
        SuffixSplit(mask, text[1..]);
        if Suffix(mask, text[1..]) {
          var k :| 0 <= k <= |text[1..]| && Suffix(mask[1..], text[1..][k..]);
          assert text[1..][k..] == text[k + 1..];
          assert Fits(mask[0], text[..k + 1]);
        }
        forall k | 0 <= k <= |text| && Suffix(mask[1..], text[k..])
          ensures Suffix(mask, text[1..])
        {
          assert k != 0;
          assert text[1..][k - 1..] == text[k..];
          assert Fits(mask[0], text[1..][..k - 1]);
        }
      }
    }
  }

  /** The recursion decides the reference definition. */
  lemma {:induction false} SuffixIsMatches(mask: string, text: string)
    ensures Suffix(mask, text) <==> Matches(mask, text)
    decreases |mask|
  {
    if mask == "" {
      if text == "" {
        assert IsSplit(mask, text, [0]);
      }
    } else {
      SuffixSplit(mask, text);
      if Suffix(mask, text) {
        var k :| 0 <= k <= |text| && Fits(mask[0], text[..k]) && Suffix(mask[1..], text[k..]);
        SuffixIsMatches(mask[1..], text[k..]);
        var rest :| IsSplit(mask[1..], text[k..], rest);
        ConsCut(mask, text, k, rest);
      }
      if Matches(mask, text) {
        var cuts :| IsSplit(mask, text, cuts);
        var k := cuts[1];
        assert PieceFits(mask, text, cuts, 0);
        assert text[0..k] == text[..k];
        TailCut(mask, text, cuts);
        SuffixIsMatches(mask[1..], text[k..]);
      }
    }
  }

  lemma ConsCut(mask: string, text: string, k: nat, rest: seq<nat>)
    requires mask != "" && k <= |text| && Fits(mask[0], text[..k])
    requires IsSplit(mask[1..], text[k..], rest)
    ensures Matches(mask, text)
  {
    var cuts := [0] + seq(|rest|, i requires 0 <= i < |rest| => rest[i] + k);
    assert text[0..k] == text[..k];
    forall i | 0 <= i < |mask|
      ensures PieceFits(mask, text, cuts, i)
    {
      if i > 0 {
        assert PieceFits(mask[1..], text[k..], rest, i - 1);
        assert cuts[i] == rest[i - 1] + k && cuts[i + 1] == rest[i] + k;
        assert text[k..][rest[i - 1]..rest[i]] == text[cuts[i]..cuts[i + 1]];
      }
    }
    assert IsSplit(mask, text, cuts);
  }

  lemma TailCut(mask: string, text: string, cuts: seq<nat>)
    requires mask != "" && IsSplit(mask, text, cuts)
    ensures cuts[1] <= |text| && Matches(mask[1..], text[cuts[1]..])
  {
    var k := cuts[1];
    assert PieceFits(mask, text, cuts, 0);
    CutsOrdered(mask, text, cuts, 1);
    var rest: seq<nat> := seq(|cuts| - 1, i requires 0 <= i < |cuts| - 1 => cuts[i + 1] - k);
    forall i | 0 <= i < |mask[1..]|
      ensures PieceFits(mask[1..], text[k..], rest, i)
    {
      assert PieceFits(mask, text, cuts, i + 1);
      assert rest[i] == cuts[i + 1] - k && rest[i + 1] == cuts[i + 2] - k;
      assert text[k..][rest[i]..rest[i + 1]] == text[cuts[i + 1]..cuts[i + 2]];
    }
    assert IsSplit(mask[1..], text[k..], rest);
  }

  lemma {:induction false} CutsOrdered(mask: string, text: string, cuts: seq<nat>, from: nat)
    requires IsSplit(mask, text, cuts) && from <= |mask|
    ensures forall i :: from <= i <= |mask| ==> cuts[from] <= cuts[i]
    decreases |mask| - from
  {
    if from < |mask| {
      CutsOrdered(mask, text, cuts, from + 1);
      assert PieceFits(mask, text, cuts, from);
    }
  }

  /** A star absorbs whatever precedes what the rest of the mask matches. */
  lemma {:induction false} StarSkips(mask: string, text: string, k: nat)
    requires k <= |text| && Suffix("*" + mask, text[k..])
    ensures Suffix("*" + mask, text)
    decreases k
  {
    if k == 0 {
      assert text[0..] == text;
    } else {
      assert text[1..][k - 1..] == text[k..];
      StarSkips(mask, text[1..], k - 1);
    }
  }

  ghost predicate StarFree(segment: string) {
    '*' !in segment
  }

  /** A star-free segment takes one character of text for each of its own. */
  lemma {:induction false} SegmentTakes(segment: string, rest: string, text: string)
    requires StarFree(segment) && Suffix(segment + rest, text)
    ensures |segment| <= |text| && Suffix(rest, text[|segment|..])
    decreases |segment|
  {
    if segment == "" {
      assert segment + rest == rest;
      assert text[0..] == text;
    } else {
      assert (segment + rest)[1..] == segment[1..] + rest;
      SegmentTakes(segment[1..], rest, text[1..]);
      assert text[1..][|segment[1..]|..] == text[|segment|..];
    }
  }

  /** Matching a mask in two parts is matching the parts on the two sides of some cut of the text. */
  lemma {:induction false} Append(left: string, right: string, text: string)
    ensures Suffix(left + right, text) <==> exists k :: 0 <= k <= |text| && Suffix(left, text[..k]) && Suffix(right, text[k..])
    decreases |left| + |text|
  {
    if left == "" {
      assert left + right == right;
      assert text[0..] == text;
      if Suffix(right, text) {
        assert Suffix(left, text[..0]) && Suffix(right, text[0..]);
      }
    } else {
      AppendForth(left, right, text);
      forall k | 0 <= k <= |text| && Suffix(left, text[..k]) && Suffix(right, text[k..])
        ensures Suffix(left + right, text)
      {
        AppendBack(left, right, text, k);
      }
    }
  }

  lemma {:induction false} AppendForth(left: string, right: string, text: string)
    requires left != ""
    ensures Suffix(left + right, text) ==> exists k :: 0 <= k <= |text| && Suffix(left, text[..k]) && Suffix(right, text[k..])
    decreases |left| + |text|, 0
  {
    var whole := left + right;
    assert whole[1..] == left[1..] + right;
    if Suffix(whole, text) {
      if left[0] == '*' && Suffix(whole[1..], text) {
        Append(left[1..], right, text);
        var k :| 0 <= k <= |text| && Suffix(left[1..], text[..k]) && Suffix(right, text[k..]);
        assert Suffix(left, text[..k]);
      } else {
        var tail := if left[0] == '*' then left else left[1..];
        assert Suffix(tail + right, text[1..]);
        Append(tail, right, text[1..]);
        var k :| 0 <= k <= |text[1..]| && Suffix(tail, text[1..][..k]) && Suffix(right, text[1..][k..]);
        assert text[1..][..k] == text[..k + 1][1..] && text[1..][k..] == text[k + 1..];
        assert text[..k + 1][..1] == text[..1];
        assert Suffix(left, text[..k + 1]);
      }
    }
  }

  lemma {:induction false} AppendBack(left: string, right: string, text: string, k: nat)
    requires k <= |text| && Suffix(left, text[..k]) && Suffix(right, text[k..])
    ensures Suffix(left + right, text)
    decreases |left| + |text|
  {
    if left == "" {
      assert left + right == right && text[0..] == text;
    } else {
      var whole := left + right;
      assert whole[1..] == left[1..] + right;
      if left[0] == '*' && Suffix(left[1..], text[..k]) {
        AppendBack(left[1..], right, text, k);
      } else {
        var tail := if left[0] == '*' then left else left[1..];
        assert k > 0;
        assert text[..k][1..] == text[1..][..k - 1] && text[k..] == text[1..][k - 1..];
        assert text[..k][..1] == text[..1];
        AppendBack(tail, right, text[1..], k - 1);
      }
    }
  }

  /** The recursion over the last characters, which is the one a table filled from the left uses. */
  lemma LastStep(mask: string, text: string)
    requires mask != ""
    ensures var m := mask[|mask| - 1];
            var front := mask[..|mask| - 1];
            Suffix(mask, text) <==>
            if m == '*' then Suffix(front, text) || (text != "" && Suffix(mask, text[..|text| - 1]))
            else text != "" && Fits(m, text[|text| - 1..]) && Suffix(front, text[..|text| - 1])
  {
    var m, front := mask[|mask| - 1], mask[..|mask| - 1];
    assert mask == front + [m];
    Append(front, [m], text);
    if m == '*' {
      forall t: string ensures Suffix([m], t) { AloneStar(t); }
      assert text[..|text|] == text;
      if text != "" {
        var shorter := text[..|text| - 1];
        Append(front, [m], shorter);
        forall k | 0 <= k <= |shorter| ensures shorter[..k] == text[..k] {}
      }
    } else {
      forall t: string ensures Suffix([m], t) <==> |t| == 1 && Fits(m, t) {
        if t != "" { assert t[..1] + t[1..] == t; }
      }
    }
  }

  lemma {:induction false} AloneStar(text: string)
    ensures Suffix("*", text)
    decreases |text|
  {
    if text != "" {
      AloneStar(text[1..]);
    }
  }
}
