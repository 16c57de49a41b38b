/** `irc::strmatch`: the same wildcards decided by a table of all prefixes. */
module Table {
  import opened CString
  import opened Mask

  /** Every cell of the table up to (i, j) in row order says whether that mask prefix matches that text prefix. */
  ghost predicate Filled(lookup: array2<bool>, text: string, mask: string, rows: nat)
    requires lookup.Length0 == |text| + 1 && lookup.Length1 == |mask| + 1
    requires rows <= |text| + 1
    reads lookup
  {
    forall i, j :: 0 <= i < rows && 0 <= j <= |mask| ==> (lookup[i, j] <==> Suffix(mask[..j], text[..i]))
  }

  /** The recurrence the table is filled by. */
  lemma Recurrence(text: string, mask: string, i: nat, j: nat)
    requires i <= |text| && 1 <= j <= |mask|
    ensures Suffix(mask[..j], text[..i]) <==>
            if mask[j - 1] == '*' then
              Suffix(mask[..j - 1], text[..i]) || (i > 0 && Suffix(mask[..j], text[..i - 1]))
            else
              i > 0 && (mask[j - 1] == '?' || text[i - 1] == mask[j - 1]) && Suffix(mask[..j - 1], text[..i - 1])
  {
    LastStep(mask[..j], text[..i]);
    assert mask[..j][..j - 1] == mask[..j - 1];
    if i > 0 {
      assert text[..i][..i - 1] == text[..i - 1];
      assert text[..i][i - 1..] == [text[i - 1]];
    }
  }

  lemma FirstCell()
    ensures Suffix("", "") && forall text: string :: text != "" ==> !Suffix("", text)
  {
  }

  method Strmatch(str: string, pattern: string) returns (fits: bool)
    ensures fits <==> str != "" && pattern != "" && Matches(pattern, str)
  {
    hide Suffix;
    FirstCell();
    if |str| == 0 || |pattern| == 0 {
      return false;
    }
    var lookup := new bool[|str| + 1, |pattern| + 1]((i, j) => false);
    lookup[0, 0] := true;
    for j := 1 to |pattern| + 1
      invariant forall k :: 0 <= k < j ==> (lookup[0, k] <==> Suffix(pattern[..k], str[..0]))
      invariant forall i, k :: 0 <= i <= |str| && 0 <= k <= |pattern| && (i > 0 || k >= j) ==> !lookup[i, k]
    {
      Recurrence(str, pattern, 0, j);
      if pattern[j - 1] == '*' {
        lookup[0, j] := lookup[0, j - 1];
      }
    }
    for i := 1 to |str| + 1
      invariant Filled(lookup, str, pattern, i)
      invariant forall r, k :: i <= r <= |str| && 0 <= k <= |pattern| ==> !lookup[r, k]
    {
      FillRow(lookup, str, pattern, i);
    }
    assert pattern[..|pattern|] == pattern && str[..|str|] == str;
    SuffixIsMatches(pattern, str);
    return lookup[|str|, |pattern|];
  }

  /** The inner loop: one row from the row above it. */
  method FillRow(lookup: array2<bool>, str: string, pattern: string, i: nat)
    requires lookup.Length0 == |str| + 1 && lookup.Length1 == |pattern| + 1 && 1 <= i <= |str|
    requires Filled(lookup, str, pattern, i)
    requires forall r, k :: i <= r <= |str| && 0 <= k <= |pattern| ==> !lookup[r, k]
    modifies lookup
    ensures Filled(lookup, str, pattern, i + 1)
    ensures forall r, k :: i < r <= |str| && 0 <= k <= |pattern| ==> !lookup[r, k]
  {
    hide Suffix;
    FirstCell();
    for j := 1 to |pattern| + 1
      invariant Filled(lookup, str, pattern, i)
      invariant forall k :: 0 <= k < j ==> (lookup[i, k] <==> Suffix(pattern[..k], str[..i]))
      invariant forall r, k :: i < r <= |str| && 0 <= k <= |pattern| ==> !lookup[r, k]
    {
      Recurrence(str, pattern, i, j);
      if pattern[j - 1] == '*' {
        lookup[i, j] := lookup[i, j - 1] || lookup[i - 1, j];
      } else if pattern[j - 1] == '?' || str[i - 1] == pattern[j - 1] {
        lookup[i, j] := lookup[i - 1, j - 1];
      } else {
        lookup[i, j] := false;
      }
    }
  }

  /** What `Strmatch` answers, as its contract says. */
  ghost predicate TableAnswer(mask: string, text: string) {
    text != "" && mask != "" && Matches(mask, text)
  }

  /** What `Greedy.IsStringFitsMask` answers, as its contract says. */
  ghost predicate GreedyAnswer(mask: string, text: string) {
    Matches(CStr(mask), CStr(text))
  }

  /** The empty text matches exactly the masks made of stars. */
  lemma {:induction false} EmptyText(mask: string)
    ensures Matches(mask, "") <==> forall m :: m in mask ==> m == '*'
    decreases |mask|
  {
    SuffixIsMatches(mask, "");
    if mask != "" {
      EmptyText(mask[1..]);
      SuffixIsMatches(mask[1..], "");
      assert forall m :: m in mask <==> m == mask[0] || m in mask[1..];
      assert mask[0] != '*' ==> mask[0] in mask;
    }
  }

  /** On strings as C reads them, the two matchers differ only on the empty text under a mask of nothing but stars
      (the empty mask among them), which the table refuses and the greedy form accepts. */
  lemma MatchersAgree(mask: string, text: string)
    ensures var m, t := CStr(mask), CStr(text);
            (TableAnswer(m, t) <==> GreedyAnswer(mask, text)) <==> (t != "" || exists c :: c in m && c != '*')
  {
    EmptyText(CStr(mask));
    SuffixIsMatches(CStr(mask), CStr(text));
  }

  lemma {:induction false} NoNul(s: string)
    requires NUL !in s
    ensures CStr(s) == s
  {
    if s != "" {
      NoNul(s[1..]);
    }
  }

  /** Without a NUL they read the same strings. With one they need not agree: the table compares what stands
      behind it. */
  lemma MatchersOnPlainStrings(mask: string, text: string)
    requires NUL !in mask && NUL !in text
    ensures (TableAnswer(mask, text) <==> GreedyAnswer(mask, text)) <==> (text != "" || exists c :: c in mask && c != '*')
  {
    NoNul(mask);
    NoNul(text);
    MatchersAgree(mask, text);
  }

  lemma NulTellsApart()
    ensures GreedyAnswer("a\0", "a") && !TableAnswer("a\0", "a")
  {
    SuffixIsMatches("a", "a");
    SuffixIsMatches("a\0", "a");
    assert "a"[1..] == "" && "a\0"[1..] == "\0" && "a"[..1] == "a";
    NoNul("a");
    assert CStr("\0") == "";
    assert CStr("a\0") == "a" + CStr("a\0"[1..]);
  }
}
