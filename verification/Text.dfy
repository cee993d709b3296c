/** Python's `str.strip`. */
module Text {

  /** The characters `str.strip` removes. */
  predicate IsSpace(c: char) {
    var n := c as int;
    || 0x09 <= n <= 0x0d || 0x1c <= n <= 0x20 || n == 0x85 || n == 0xa0 || n == 0x1680
    || 0x2000 <= n <= 0x200a || n == 0x2028 || n == 0x2029 || n == 0x202f || n == 0x205f || n == 0x3000
  }

  function StripLeft(s: string): string {
    if s != [] && IsSpace(s[0]) then StripLeft(s[1..]) else s
  }

  function StripRight(s: string): string {
    if s != [] && IsSpace(s[|s| - 1]) then StripRight(s[..|s| - 1]) else s
  }

  function Strip(s: string): string {
    StripLeft(StripRight(s))
  }

  lemma {:induction false} StripLeftShape(s: string)
    ensures |StripLeft(s)| <= |s|
    ensures |StripLeft(s)| == |s| <==> s == [] || !IsSpace(s[0])
  {
    if s != [] && IsSpace(s[0]) {
      StripLeftShape(s[1..]);
    }
  }

  lemma {:induction false} StripRightShape(s: string)
    ensures |StripRight(s)| <= |s|
    ensures |StripRight(s)| == |s| <==> s == [] || !IsSpace(s[|s| - 1])
  {
    if s != [] && IsSpace(s[|s| - 1]) {
      StripRightShape(s[..|s| - 1]);
    }
  }

  /** A string is left alone exactly when it neither starts nor ends with white space. */
  lemma StripUnchangedIff(s: string)
    ensures Strip(s) == s <==> s == [] || (!IsSpace(s[0]) && !IsSpace(s[|s| - 1]))
  {
    StripRightShape(s);
    StripLeftShape(StripRight(s));
  }
}
