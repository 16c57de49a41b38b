/** `Kernel::isStringFitsMask`: two pointers and one remembered star. */
module Greedy {
  import opened CString
  import opened Mask

  /** What is still to be decided at mask position `p` and text position `s`, when the star remembered
      at `rp` has been tried up to text position `rs`. */
  ghost predicate Pending(mask: string, text: string, p: nat, s: nat, rp: int, rs: int) {
    && p <= |mask| && s <= |text|
    && (rs == -1 ==> rp == -1)
    && (rs != -1 ==>
          && 0 <= rp <= p && 0 <= rs <= s && p - rp == s - rs
          && StarFree(mask[rp..p])
          && (Suffix(mask[rp..], text[rs..]) <==> Suffix(mask[p..], text[s..])))
  }

  ghost predicate Answer(mask: string, text: string, p: nat, s: nat, rp: int, rs: int)
    requires Pending(mask, text, p, s, rp, rs)
  {
    if rs == -1 then Suffix(mask[p..], text[s..]) else Suffix("*" + mask[rp..], text[rs..])
  }

  /** Exchange argument: when a second star is reached, giving the first star more text than
      its earliest success cannot help, so the first star can be forgotten. */
  lemma ForgetStar(mask: string, text: string, p: nat, s: nat, rp: int, rs: int)
    requires Pending(mask, text, p, s, rp, rs) && p < |mask| && mask[p] == '*'
    ensures Pending(mask, text, p + 1, s, p + 1, s)
    ensures Answer(mask, text, p, s, rp, rs) <==> Answer(mask, text, p + 1, s, p + 1, s)
  {
    assert mask[p..] == "*" + mask[p + 1..];
    assert mask[p + 1..p + 1] == "";
    if rs != -1 {
      var segment := mask[rp..p];
      var rest := mask[p..];
      assert mask[rp..] == segment + rest;
      var star := "*" + mask[rp..];
      SuffixSplit(star, text[rs..]);
      assert star[1..] == mask[rp..];
      if Suffix(star, text[rs..]) {
        var k :| 0 <= k <= |text[rs..]| && Suffix(mask[rp..], text[rs..][k..]);
        SegmentTakes(segment, rest, text[rs..][k..]);
        assert text[rs..][k..][|segment|..] == text[s..][k..];
        StarSkips(mask[p + 1..], text[s..], k);
      }
    }
  }

  /** Moving the remembered star one character on after a failed attempt loses nothing. */
  lemma AdvanceStar(mask: string, text: string, p: nat, s: nat, rp: int, rs: int)
    requires Pending(mask, text, p, s, rp, rs) && rs != -1 && s < |text|
    requires At(mask, p) != '*' && At(mask, p) != '?' && At(mask, p) != text[s]
    ensures Pending(mask, text, rp, rs + 1, rp, rs + 1)
    ensures Answer(mask, text, p, s, rp, rs) <==> Answer(mask, text, rp, rs + 1, rp, rs + 1)
  {
    assert !Suffix(mask[p..], text[s..]);
    assert mask[rp..rp] == "";
    assert ("*" + mask[rp..])[1..] == mask[rp..];
    assert text[rs..][1..] == text[rs + 1..];
  }

  /** Once the text is used up, a mask that still wants a character cannot match anywhere. */
  lemma TextExhausted(mask: string, text: string, p: nat, rp: int, rs: int)
    requires Pending(mask, text, p, |text|, rp, rs)
    requires p < |mask| ==> mask[p] != '*'
    ensures Answer(mask, text, p, |text|, rp, rs) <==> p == |mask|
  {
    if rs != -1 {
      var star := "*" + mask[rp..];
      assert star[1..] == mask[rp..];
      SuffixSplit(star, text[rs..]);
      if p < |mask| && Suffix(star, text[rs..]) {
        var k :| 0 <= k <= |text[rs..]| && Suffix(mask[rp..], text[rs..][k..]);
        assert mask[rp..] == mask[rp..p + 1] + mask[p + 1..];
        assert mask[rp..p + 1] == mask[rp..p] + [mask[p]];
        SegmentTakes(mask[rp..p + 1], mask[p + 1..], text[rs..][k..]);
      }
      if p == |mask| {
        assert text[rs..][0..] == text[rs..];
      }
    }
  }

  /** A mask character that equals the text character, or is `?`, is used up together with it. */
  lemma TakeOne(mask: string, text: string, p: nat, s: nat, rp: int, rs: int)
    requires Pending(mask, text, p, s, rp, rs) && p < |mask| && s < |text|
    requires mask[p] != '*' && (text[s] == mask[p] || mask[p] == '?')
    ensures Pending(mask, text, p + 1, s + 1, rp, rs)
    ensures Answer(mask, text, p, s, rp, rs) <==> Answer(mask, text, p + 1, s + 1, rp, rs)
  {
    assert mask[p..][1..] == mask[p + 1..];
    assert text[s..][1..] == text[s + 1..];
    if rs != -1 {
      assert mask[rp..p + 1] == mask[rp..p] + [mask[p]];
    }
  }

  lemma NoStarNoMatch(mask: string, text: string, p: nat, s: nat)
    requires Pending(mask, text, p, s, -1, -1) && s < |text|
    requires At(mask, p) != '*' && At(mask, p) != '?' && At(mask, p) != text[s]
    ensures !Answer(mask, text, p, s, -1, -1)
  {
  }

  lemma Start(mask: string, text: string)
    ensures Pending(mask, text, 0, 0, -1, -1)
    ensures Answer(mask, text, 0, 0, -1, -1) <==> Matches(mask, text)
  {
    assert mask[0..] == mask && text[0..] == text;
    SuffixIsMatches(mask, text);
  }

  /** Accepts exactly the texts that the reference definition matches, on every pair of strings
      (each read up to its first NUL). A null pointer is -1. */
  method IsStringFitsMask(mask: string, str: string) returns (fits: bool)
    ensures fits <==> Matches(CStr(mask), CStr(str))
  {
    hide Suffix, CStr;
    ghost var m, t := CStr(mask), CStr(str);
    var p: nat, s: nat := 0, 0;
    var rp: int, rs: int := -1, -1;
    Start(m, t);
    while true
      invariant Pending(m, t, p, s, rp, rs)
      invariant Matches(m, t) <==> Answer(m, t, p, s, rp, rs)
      decreases if rp == -1 then |m| + 1 else |m| - rp, |t| - rs, |t| - s
    {
      Reads(mask, p);
      Reads(str, s);
      if At(mask, p) == '*' {
        ForgetStar(m, t, p, s, rp, rs);
        rs := s;
        p := p + 1;
        rp := p;
      } else if At(str, s) == NUL {
        TextExhausted(m, t, p, rp, rs);
        return At(mask, p) == NUL;
      } else if At(str, s) == At(mask, p) || At(mask, p) == '?' {
        TakeOne(m, t, p, s, rp, rs);
        s, p := s + 1, p + 1;
      } else if rs != -1 {
        AdvanceStar(m, t, p, s, rp, rs);
        rs := rs + 1;
        s := rs;
        p := rp;
      } else {
        NoStarNoMatch(m, t, p, s);
        return false;
      }
    }
  }
}
