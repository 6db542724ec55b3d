/** `smart_trim` (src/api/src/create_book/utils.py): cut a text at line
    boundaries so that it stays under a length, marking line ends with
    `<br />`. Two quirks of the code are kept: each accepted line REPLACES
    the result so far, and `rstrip("<br />")` strips any trailing
    character of the set `{'<', 'b', 'r', ' ', '/', '>'}`, not the suffix. */
module Trim {

  import opened Strings

  const BrTag := "<br />"

  /** The characters `str.rstrip("<br />")` removes. */
  const BrChars: set<char> := {'<', 'b', 'r', ' ', '/', '>'}

  const DefaultMaxLength := 400

  // ---------------------------------------------------------------------
  // `text.split("\n")` and the filter that keeps the non-empty pieces

  /** The pieces joined back with `"\n"`. */
  function JoinLines(ls: seq<string>): string
    requires |ls| >= 1
    decreases |ls|
  {
    if |ls| == 1 then ls[0] else ls[0] + "\n" + JoinLines(ls[1..])
  }

  /** `s.split("\n")`: always at least one piece, none holding a newline,
      and joining them back gives `s`. */
  function SplitLines(s: string): (ls: seq<string>)
    ensures |ls| >= 1
    ensures forall i :: 0 <= i < |ls| ==> '\n' !in ls[i]
    ensures JoinLines(ls) == s
    decreases |s|
  {
    if s == [] then [""]
    else
      var rest := SplitLines(s[1..]);
      if s[0] == '\n' then [""] + rest
      else
        var ls := [[s[0]] + rest[0]] + rest[1..];
        assert ls[1..] == rest[1..];
        ls
  }

  /** `[t for t in text.split("\n") if t]`. */
  function NonEmpty(ls: seq<string>): (cs: seq<string>)
    ensures forall i :: 0 <= i < |cs| ==> cs[i] != "" && cs[i] in ls
    ensures forall x :: x in ls && x != "" ==> x in cs
    decreases |ls|
  {
    if ls == [] then []
    else if ls[0] == "" then NonEmpty(ls[1..])
    else [ls[0]] + NonEmpty(ls[1..])
  }

  function Chunks(text: string): (cs: seq<string>)
    ensures forall i :: 0 <= i < |cs| ==> cs[i] != "" && '\n' !in cs[i]
    ensures forall x :: x in SplitLines(text) && x != "" ==> x in cs
  {
    NonEmpty(SplitLines(text))
  }

  /** The filter keeps the order: the non-empty pieces of `a + b` are those
      of `a` followed by those of `b`. */
  lemma {:induction false} NonEmptyAppend(a: seq<string>, b: seq<string>)
    ensures NonEmpty(a + b) == NonEmpty(a) + NonEmpty(b)
    decreases |a|
  {
    if a == [] {
      assert a + b == b;
    } else {
      assert (a + b)[0] == a[0];
      assert (a + b)[1..] == a[1..] + b;
      NonEmptyAppend(a[1..], b);
    }
  }

  /** One piece is kept exactly when it is non-empty. */
  lemma NonEmptySingle(l: string)
    ensures NonEmpty([l]) == if l == "" then [] else [l]
  {
    assert [l][1..] == [];
  }

  // ---------------------------------------------------------------------
  // The loop as written

  /** The loop of utils.py:13-19 from a given state: `acc` is `to_return`. */
  function TrimFrom(chunks: seq<string>, acc: string, maxLength: int): string
    decreases |chunks|
  {
    if chunks == [] then acc
    else if |acc| + |chunks[0]| < maxLength then TrimFrom(chunks[1..], chunks[0] + BrTag, maxLength)
    else RStrip(acc, BrChars)
  }

  function Trimmed(text: string, maxLength: int): string {
    TrimFrom(Chunks(text), "", maxLength)
  }

  /** utils.py:9-21. */
  method SmartTrim(text: string, maxLength: int) returns (r: string)
    ensures r == Trimmed(text, maxLength)
  {
    var chunks := Chunks(text);
    r := "";
    var i := 0;
    while i < |chunks|
      invariant 0 <= i <= |chunks|
      invariant TrimFrom(chunks[i..], r, maxLength) == Trimmed(text, maxLength)
    {
      assert chunks[i..][0] == chunks[i];
      assert chunks[i..][1..] == chunks[i + 1..];
      if |r| + |chunks[i]| < maxLength {
        r := chunks[i] + BrTag;
      } else {
        r := RStrip(r, BrChars);
        return;
      }
      i := i + 1;
    }
  }

  // ---------------------------------------------------------------------
  // Properties of the loop as written

  /** Nothing is returned when there is no non-empty line, or when the first
      one is already too long. */
  lemma TrimmedEmpty(text: string, maxLength: int)
    requires Chunks(text) == [] || |Chunks(text)[0]| >= maxLength
    ensures Trimmed(text, maxLength) == ""
  {
  }

  /** Every line fits the check: the result is the LAST line and a `<br />`,
      since each accepted line replaces the result so far. */
  lemma {:induction false} TrimFromAllFit(chunks: seq<string>, acc: string, maxLength: int)
    requires chunks != []
    requires |acc| + |chunks[0]| < maxLength
    requires forall j :: 0 < j < |chunks| ==> |chunks[j - 1]| + |BrTag| + |chunks[j]| < maxLength
    ensures TrimFrom(chunks, acc, maxLength) == chunks[|chunks| - 1] + BrTag
    decreases |chunks|
  {
    if |chunks| > 1 {
      var tail := chunks[1..];
      assert forall j :: 0 < j < |tail| ==> tail[j - 1] == chunks[j] && tail[j] == chunks[j + 1];
      TrimFromAllFit(tail, chunks[0] + BrTag, maxLength);
    }
  }

  lemma TrimmedAllFit(text: string, maxLength: int)
    requires Chunks(text) != [] && |Chunks(text)[0]| < maxLength
    requires forall j :: 0 < j < |Chunks(text)| ==>
      |Chunks(text)[j - 1]| + |BrTag| + |Chunks(text)[j]| < maxLength
    ensures Trimmed(text, maxLength) == Chunks(text)[|Chunks(text)| - 1] + BrTag
  {
    TrimFromAllFit(Chunks(text), "", maxLength);
  }

  /** The result is built from a single line: it is empty, or one line
      followed by `<br />`, or that with the trailing `BrChars` stripped. */
  lemma {:induction false} TrimFromOneLine(chunks: seq<string>, acc: string, maxLength: int)
    ensures var r := TrimFrom(chunks, acc, maxLength);
      r == "" || r == acc || r == RStrip(acc, BrChars) ||
      exists c :: c in chunks && (r == c + BrTag || r == RStrip(c + BrTag, BrChars))
    decreases |chunks|
  {
    var r := TrimFrom(chunks, acc, maxLength);
    if chunks != [] && |acc| + |chunks[0]| < maxLength {
      var next := chunks[0] + BrTag;
      TrimFromOneLine(chunks[1..], next, maxLength);
      if r != "" && r != next && r != RStrip(next, BrChars) {
        var c :| c in chunks[1..] && (r == c + BrTag || r == RStrip(c + BrTag, BrChars));
        assert c in chunks;
      } else if r != "" {
        assert chunks[0] in chunks;
      }
    }
  }

  lemma TrimmedOneLine(text: string, maxLength: int)
    ensures var r := Trimmed(text, maxLength);
      r == "" || exists c :: c in Chunks(text) && (r == c + BrTag || r == RStrip(c + BrTag, BrChars))
  {
    TrimFromOneLine(Chunks(text), "", maxLength);
  }

  /** No newline survives, and a non-empty result is shorter than
      `maxLength + 6`: the accepted line was shorter than `maxLength`. */
  lemma {:induction false} TrimFromBounds(chunks: seq<string>, acc: string, maxLength: int)
    requires forall i :: 0 <= i < |chunks| ==> '\n' !in chunks[i]
    requires '\n' !in acc
    requires acc != "" ==> |acc| < maxLength + |BrTag|
    ensures '\n' !in TrimFrom(chunks, acc, maxLength)
    ensures TrimFrom(chunks, acc, maxLength) != "" ==> |TrimFrom(chunks, acc, maxLength)| < maxLength + |BrTag|
    decreases |chunks|
  {
    if chunks != [] && |acc| + |chunks[0]| < maxLength {
      TrimFromBounds(chunks[1..], chunks[0] + BrTag, maxLength);
    } else if chunks != [] {
      var r := RStrip(acc, BrChars);
      assert r == acc[..|r|];
      assert forall i :: 0 <= i < |r| ==> r[i] == acc[i];
    }
  }

  lemma TrimmedBounds(text: string, maxLength: int)
    ensures '\n' !in Trimmed(text, maxLength)
    ensures Trimmed(text, maxLength) != "" ==> |Trimmed(text, maxLength)| < maxLength + 6
  {
    TrimFromBounds(Chunks(text), "", maxLength);
  }

  // ---------------------------------------------------------------------
  // The evidently intended loop: accumulate the accepted lines
  // (`to_return += chunk + "<br />"`) and drop only the final `<br />`
  // suffix when a line no longer fits (`removesuffix`).

  /** `s.removesuffix(suffix)`. */
  function RemoveSuffix(s: string, suffix: string): (r: string)
    ensures r + suffix == s || r == s
    ensures |suffix| <= |s| && s[|s| - |suffix|..] == suffix ==> r + suffix == s
  {
    if |suffix| <= |s| && s[|s| - |suffix|..] == suffix then s[..|s| - |suffix|] else s
  }

  /** Each line followed by `<br />`, in order. */
  function Joined(cs: seq<string>): string
    decreases |cs|
  {
    if cs == [] then "" else Joined(cs[..|cs| - 1]) + cs[|cs| - 1] + BrTag
  }

  function TrimIntendedFrom(chunks: seq<string>, acc: string, maxLength: int): string
    decreases |chunks|
  {
    if chunks == [] then acc
    else if |acc| + |chunks[0]| < maxLength then TrimIntendedFrom(chunks[1..], acc + chunks[0] + BrTag, maxLength)
    else RemoveSuffix(acc, BrTag)
  }

  function TrimmedIntended(text: string, maxLength: int): string {
    TrimIntendedFrom(Chunks(text), "", maxLength)
  }

  /** Line `j` passes the length check once the lines before it are kept. */
  predicate Fits(cs: seq<string>, j: nat, maxLength: int)
    requires j < |cs|
  {
    |Joined(cs[..j])| + |cs[j]| < maxLength
  }

  /** `r` keeps the first `k` lines intact and in order: all of them when
      every line fits, otherwise exactly those before the first line that
      does not fit, without the last `<br />` and under `maxLength`. */
  predicate KeepsFirstLines(cs: seq<string>, k: nat, r: string, maxLength: int)
    requires k <= |cs|
  {
    (forall j :: 0 <= j < k ==> Fits(cs, j, maxLength)) &&
    (k == |cs| ==> r == Joined(cs)) &&
    (k < |cs| ==>
      !Fits(cs, k, maxLength) &&
      r + (if k == 0 then "" else BrTag) == Joined(cs[..k]) &&
      (k > 0 ==> |r| < maxLength))
  }

  lemma {:induction false} TrimIntendedFromKeeps(cs: seq<string>, i: nat, maxLength: int)
    requires i <= |cs|
    requires forall j :: 0 <= j < i ==> Fits(cs, j, maxLength)
    ensures exists k: nat ::
              i <= k <= |cs| &&
              KeepsFirstLines(cs, k, TrimIntendedFrom(cs[i..], Joined(cs[..i]), maxLength), maxLength)
    decreases |cs| - i
  {
    var acc := Joined(cs[..i]);
    var r := TrimIntendedFrom(cs[i..], acc, maxLength);
    if i == |cs| {
      assert cs[..i] == cs;
      assert KeepsFirstLines(cs, i, r, maxLength);
    } else {
      assert cs[i..][0] == cs[i];
      assert cs[i..][1..] == cs[i + 1..];
      assert cs[..i + 1][..i] == cs[..i];
      assert Joined(cs[..i + 1]) == acc + cs[i] + BrTag;
      if Fits(cs, i, maxLength) {
        TrimIntendedFromKeeps(cs, i + 1, maxLength);
      } else {
        assert r == RemoveSuffix(acc, BrTag);
        if i > 0 {
          assert cs[..i][..i - 1] == cs[..i - 1];
          assert acc == Joined(cs[..i - 1]) + cs[i - 1] + BrTag;
          assert acc[|acc| - |BrTag|..] == BrTag;
          assert Fits(cs, i - 1, maxLength);
        }
        assert KeepsFirstLines(cs, i, r, maxLength);
      }
    }
  }

  /** `r` keeps some number of first lines, as `KeepsFirstLines` says. */
  predicate KeepsLeadingLines(cs: seq<string>, r: string, maxLength: int) {
    exists k: nat :: k <= |cs| && KeepsFirstLines(cs, k, r, maxLength)
  }

  /** The intended result keeps the longest run of first lines that fits,
      each line whole. */
  lemma TrimmedIntendedKeepsLines(text: string, maxLength: int)
    ensures KeepsLeadingLines(Chunks(text), TrimmedIntended(text, maxLength), maxLength)
  {
    var cs := Chunks(text);
    assert cs[..0] == [] && cs[0..] == cs;
    TrimIntendedFromKeeps(cs, 0, maxLength);
    var k: nat :| 0 <= k <= |cs| && KeepsFirstLines(cs, k, TrimIntendedFrom(cs[0..], Joined(cs[..0]), maxLength), maxLength);
    assert KeepsFirstLines(cs, k, TrimmedIntended(text, maxLength), maxLength);
  }

  /** The loop of utils.py:13-19 as evidently intended: accumulate the
      accepted lines, and on the first line that does not fit drop only
      the final `<br />`. */
  method SmartTrimIntended(text: string, maxLength: int) returns (r: string)
    ensures r == TrimmedIntended(text, maxLength)
    ensures KeepsLeadingLines(Chunks(text), r, maxLength)
  {
    TrimmedIntendedKeepsLines(text, maxLength);
    var chunks := Chunks(text);
    r := "";
    var i := 0;
    while i < |chunks|
      invariant 0 <= i <= |chunks|
      invariant TrimIntendedFrom(chunks[i..], r, maxLength) == TrimmedIntended(text, maxLength)
    {
      assert chunks[i..][0] == chunks[i];
      assert chunks[i..][1..] == chunks[i + 1..];
      if |r| + |chunks[i]| < maxLength {
        r := r + chunks[i] + BrTag;
      } else {
        r := RemoveSuffix(r, BrTag);
        return;
      }
      i := i + 1;
    }
  }

  /** As written, a two-line text loses its first line. */
  lemma SmartTrimDropsEarlierLines()
    ensures Chunks("a\nb") == ["a", "b"]
    ensures Trimmed("a\nb", DefaultMaxLength) == "b<br />"
    ensures TrimmedIntended("a\nb", DefaultMaxLength) == "a<br />b<br />"
  {
    ABLines();
    var cs := ["a", "b"];
    assert cs[1..] == ["b"] && ["b"][1..] == [];
    assert "a" + BrTag == "a<br />" && "b" + BrTag == "b<br />";
    assert TrimFrom(cs, "", DefaultMaxLength) == TrimFrom(["b"], "a<br />", DefaultMaxLength);
    assert TrimIntendedFrom(cs, "", DefaultMaxLength) == TrimIntendedFrom(["b"], "" + "a" + BrTag, DefaultMaxLength);
    assert "" + "a" + BrTag == "a<br />";
    assert "a<br />" + "b" + BrTag == "a<br />b<br />";
  }

  lemma ABLines()
    ensures Chunks("a\nb") == ["a", "b"]
  {
    assert "a\nb"[1..] == "\nb" && "\nb"[1..] == "b" && "b"[1..] == "";
    assert SplitLines("") == [""];
    assert SplitLines("b") == ["b"];
    assert SplitLines("\nb") == ["", "b"];
    assert ['a'] + "" == "a";
    assert ["", "b"][1..] == ["b"];
    assert SplitLines("a\nb") == ["a", "b"];
    assert ["a", "b"][1..] == ["b"] && ["b"][1..] == [];
  }

  /** As written, the `rstrip` eats the `b` of "ab" along with the tag. */
  lemma SmartTrimStripsIntoLine()
    ensures Trimmed("ab\nc", 3) == "a"
    ensures TrimmedIntended("ab\nc", 3) == "ab"
  {
    AbLines();
    AbStripped();
    var cs := ["ab", "c"];
    assert cs[1..] == ["c"];
    assert "ab" + BrTag == "ab<br />";
    assert TrimFrom(cs, "", 3) == TrimFrom(["c"], "ab<br />", 3);
    assert TrimIntendedFrom(cs, "", 3) == TrimIntendedFrom(["c"], "" + "ab" + BrTag, 3);
    assert "" + "ab" + BrTag == "ab<br />";
    assert RemoveSuffix("ab<br />", BrTag) == "ab" by {
      assert "ab<br />"[2..] == BrTag;
    }
  }

  lemma AbLines()
    ensures Chunks("ab\nc") == ["ab", "c"]
  {
    assert "ab\nc"[1..] == "b\nc" && "b\nc"[1..] == "\nc" && "\nc"[1..] == "c";
    assert SplitLines("c") == ["c"];
    assert SplitLines("\nc") == ["", "c"];
    assert ['b'] + "" == "b" && ['a'] + "b" == "ab";
    assert ["", "c"][1..] == ["c"];
    assert SplitLines("b\nc") == ["b", "c"];
    assert ["b", "c"][1..] == ["c"];
    assert SplitLines("ab\nc") == ["ab", "c"];
    assert ["ab", "c"][1..] == ["c"] && ["c"][1..] == [];
  }

  lemma AbStripped()
    ensures RStrip("ab<br />", BrChars) == "a"
  {
    assert "ab<br />"[..7] == "ab<br /";
    assert "ab<br /"[..6] == "ab<br ";
    assert "ab<br "[..5] == "ab<br";
    assert "ab<br"[..4] == "ab<b";
    assert "ab<b"[..3] == "ab<";
    assert "ab<"[..2] == "ab";
    assert "ab"[..1] == "a";
    assert RStrip("a", BrChars) == "a";
  }
}
