/** Strings as a C pointer reads them. */
module CString {
  const NUL: char := '\0'

  /** Everything before the first NUL. */
  function CStr(s: string): (r: string)
    ensures NUL !in r
    ensures r <= s
    ensures r == s || s[|r|] == NUL
  {
    if s == "" || s[0] == NUL then "" else [s[0]] + CStr(s[1..])
  }

  /** The terminator reads as a NUL. */
  function At(s: string, i: nat): char {
    if i < |s| then s[i] else NUL
  }

  /** Up to its terminator a C string reads like the string itself. */
  lemma {:induction false} Reads(s: string, i: nat)
    requires i <= |CStr(s)|
    ensures At(s, i) == At(CStr(s), i)
    ensures At(s, i) == NUL <==> i == |CStr(s)|
  {
    var c := CStr(s);
    if i < |c| {
      assert c[i] in c;
    }
  }
}
