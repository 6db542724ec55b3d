/** Python's `str.rstrip`, `str.lstrip` and `str.strip` with an explicit
    set of characters. */
module Strings {

  /** `s.rstrip(chars)`: the longest prefix of `s` that does not end in one
      of `chars`; everything removed is in `chars`. */
  function RStrip(s: string, chars: set<char>): (r: string)
    ensures |r| <= |s| && r == s[..|r|]
    ensures r == [] || r[|r| - 1] !in chars
    ensures forall i :: |r| <= i < |s| ==> s[i] in chars
    decreases |s|
  {
    if s == [] || s[|s| - 1] !in chars then s
    else RStrip(s[..|s| - 1], chars)
  }

  /** `s.lstrip(chars)`: the longest suffix of `s` that does not start with
      one of `chars`; everything removed is in `chars`. */
  function LStrip(s: string, chars: set<char>): (r: string)
    ensures |r| <= |s| && r == s[|s| - |r|..]
    ensures r == [] || r[0] !in chars
    ensures forall i :: 0 <= i < |s| - |r| ==> s[i] in chars
    decreases |s|
  {
    if s == [] || s[0] !in chars then s
    else LStrip(s[1..], chars)
  }

  /** `s.strip(chars)`: a prefix of `s.lstrip(chars)` that neither starts
      nor ends with one of `chars`, everything removed on either side being
      in `chars`, and `s` itself when it already does not. */
  function Strip(s: string, chars: set<char>): (r: string)
    ensures |r| <= |LStrip(s, chars)| && r == LStrip(s, chars)[..|r|]
    ensures r == [] || (r[0] !in chars && r[|r| - 1] !in chars)
    ensures forall i :: |r| <= i < |LStrip(s, chars)| ==> LStrip(s, chars)[i] in chars
    ensures s == [] || (s[0] !in chars && s[|s| - 1] !in chars) ==> r == s
  {
    var l := LStrip(s, chars);
    var r := RStrip(l, chars);
    assert s == [] || (s[0] !in chars && s[|s| - 1] !in chars) ==> l == s && r == s;
    r
  }
}
