/** `slugify` (src/api/src/create_book/utils.py), on the path taken for
    ASCII input with `allow_unicode` false: the NFKD normalisation and the
    ASCII round trip leave such input unchanged, so the result is
    `re.sub(r"[-\s]+", "-", re.sub(r"[^\w\s-]", "", value.lower())).strip("-_")`. */
module Slug {

  import opened Strings

  predicate IsAscii(s: string) {
    forall i :: 0 <= i < |s| ==> s[i] as int < 128
  }

  predicate IsUpper(c: char) {
    'A' <= c <= 'Z'
  }

  /** `\w` on ASCII. */
  predicate IsWordChar(c: char) {
    'a' <= c <= 'z' || IsUpper(c) || '0' <= c <= '9' || c == '_'
  }

  /** `\s` on ASCII: Python counts the separators `\x1c`-`\x1f` as
      whitespace along with `\t`, `\n`, `\v`, `\f`, `\r` and the space. */
  predicate IsSpace(c: char) {
    c == ' ' || 9 <= c as int <= 13 || 28 <= c as int <= 31
  }

  /** `[-\s]`. */
  predicate IsSeparator(c: char) {
    c == '-' || IsSpace(c)
  }

  /** What `[^\w\s-]` does not match. */
  predicate IsKept(c: char) {
    IsWordChar(c) || IsSeparator(c)
  }

  /** The alphabet of a slug. */
  predicate IsSlugChar(c: char) {
    'a' <= c <= 'z' || '0' <= c <= '9' || c == '_' || c == '-'
  }

  /** The characters `.strip("-_")` removes. */
  const EdgeChars: set<char> := {'-', '_'}

  /** Only slug characters and no `--`. */
  predicate IsSlugBody(s: string) {
    (forall i :: 0 <= i < |s| ==> IsSlugChar(s[i])) &&
    (forall i :: 0 <= i < |s| - 1 ==> !(s[i] == '-' && s[i + 1] == '-'))
  }

  /** A slug body with no `-` or `_` at either end. */
  predicate IsSlug(s: string) {
    IsSlugBody(s) && (s == [] || (s[0] !in EdgeChars && s[|s| - 1] !in EdgeChars))
  }

  // ---------------------------------------------------------------------
  // The four steps

  function LowerChar(c: char): (d: char)
    ensures !IsUpper(d)
    ensures IsUpper(c) || d == c
  {
    if IsUpper(c) then (c as int + 32) as char else c
  }

  /** `value.lower()` on ASCII: only `A`-`Z` change. */
  function Lower(s: string): (r: string)
    ensures |r| == |s|
    ensures forall i :: 0 <= i < |r| ==> r[i] == LowerChar(s[i])
    decreases |s|
  {
    if s == [] then [] else [LowerChar(s[0])] + Lower(s[1..])
  }

  /** `re.sub(r"[^\w\s-]", "", s)`: the kept characters of `s`, in order. */
  function RemoveDisallowed(s: string): (r: string)
    ensures |r| <= |s|
    ensures forall i :: 0 <= i < |r| ==> IsKept(r[i]) && r[i] in s
    decreases |s|
  {
    if s == [] then []
    else if IsKept(s[0]) then [s[0]] + RemoveDisallowed(s[1..])
    else RemoveDisallowed(s[1..])
  }

  /** The rest of `s` after its leading run of separators. */
  function DropSeparators(s: string): (r: string)
    ensures |r| <= |s| && r == s[|s| - |r|..]
    ensures r == [] || !IsSeparator(r[0])
    decreases |s|
  {
    if s == [] || !IsSeparator(s[0]) then s else DropSeparators(s[1..])
  }

  /** Everything `DropSeparators` removes is a separator. */
  lemma {:induction false} DroppedAreSeparators(s: string)
    ensures forall i :: 0 <= i < |s| - |DropSeparators(s)| ==> IsSeparator(s[i])
    decreases |s|
  {
    if s != [] && IsSeparator(s[0]) {
      DroppedAreSeparators(s[1..]);
    }
  }

  /** `re.sub(r"[-\s]+", "-", s)`: every maximal run of separators becomes
      a single `-`. The result is empty exactly when `s` is, and starts
      with `-` or with `s`'s first character. */
  function CollapseSeparators(s: string): (r: string)
    ensures |r| == 0 <==> |s| == 0
    ensures |r| > 0 ==> r[0] == (if IsSeparator(s[0]) then '-' else s[0])
    decreases |s|
  {
    if s == [] then []
    else if IsSeparator(s[0]) then "-" + CollapseSeparators(DropSeparators(s))
    else [s[0]] + CollapseSeparators(s[1..])
  }

  /** No whitespace and no `--` in `r`, and every other character of `r`
      is one of `s`'s. */
  predicate IsCollapsedFrom(r: string, s: string) {
    (forall i :: 0 <= i < |r| ==> r[i] == '-' || (r[i] in s && !IsSeparator(r[i]))) &&
    (forall i :: 0 <= i < |r| - 1 ==> !(r[i] == '-' && r[i + 1] == '-'))
  }

  /** After collapsing no whitespace and no `--` remain, and every other
      character comes from the input. */
  lemma {:induction false} CollapseShape(s: string)
    ensures IsCollapsedFrom(CollapseSeparators(s), s)
    decreases |s|
  {
    if s != [] {
      var r := CollapseSeparators(s);
      if IsSeparator(s[0]) {
        var rest := DropSeparators(s);
        var cr := CollapseSeparators(rest);
        CollapseShape(rest);
        CollapseAtSeparator(s);
        assert r == "-" + cr;
        assert forall c :: c in rest ==> c in s;
        assert cr != [] ==> cr[0] != '-';
        assert forall i :: 0 < i < |r| ==> r[i] == cr[i - 1];
      } else {
        var cr := CollapseSeparators(s[1..]);
        CollapseShape(s[1..]);
        assert r == [s[0]] + cr;
        assert r[0] == s[0] && s[0] in s && s[0] != '-';
        forall i | 0 < i < |r|
          ensures r[i] == '-' || (r[i] in s && !IsSeparator(r[i]))
        {
          assert r[i] == cr[i - 1];
          var k := i - 1;
          assert 0 <= k < |cr|;
          assert cr[k] == '-' || (cr[k] in s[1..] && !IsSeparator(cr[k]));
          assert cr[k] in s[1..] ==> cr[k] in s;
        }
        forall i | 0 < i < |r| - 1
          ensures !(r[i] == '-' && r[i + 1] == '-')
        {
          var k := i - 1;
          assert r[i] == cr[k] && r[i + 1] == cr[k + 1];
          assert 0 <= k < |cr| - 1;
          assert !(cr[k] == '-' && cr[k + 1] == '-');
        }
      }
    }
  }

  /** utils.py:88-108. */
  function Slugify(value: string): (r: string)
    requires IsAscii(value)
    ensures IsSlug(r)
  {
    var collapsed := CollapseSeparators(RemoveDisallowed(Lower(value)));
    CollapsedIsSlugBody(value);
    StripKeepsSlugBody(collapsed);
    Strip(collapsed, EdgeChars)
  }

  lemma CollapsedIsSlugBody(value: string)
    ensures IsSlugBody(CollapseSeparators(RemoveDisallowed(Lower(value))))
  {
    var lowered := Lower(value);
    var kept := RemoveDisallowed(lowered);
    CollapseShape(kept);
    assert forall c :: c in lowered ==> !IsUpper(c);
    assert forall c :: c in kept ==> !IsUpper(c);
  }

  lemma SlugBodySlice(s: string, a: nat, b: nat)
    requires IsSlugBody(s) && a <= b <= |s|
    ensures IsSlugBody(s[a..b])
  {
    assert forall i :: 0 <= i < b - a ==> s[a..b][i] == s[a + i];
  }

  lemma StripKeepsSlugBody(s: string)
    requires IsSlugBody(s)
    ensures IsSlugBody(Strip(s, EdgeChars))
  {
    var l := LStrip(s, EdgeChars);
    SlugBodySlice(s, |s| - |l|, |s|);
    SlugBodySlice(l, 0, |Strip(s, EdgeChars)|);
  }

  // ---------------------------------------------------------------------
  // Each step leaves a slug unchanged, hence idempotence

  lemma {:induction false} LowerKeepsLower(s: string)
    requires forall i :: 0 <= i < |s| ==> !IsUpper(s[i])
    ensures Lower(s) == s
  {
    assert forall i :: 0 <= i < |s| ==> Lower(s)[i] == s[i];
  }

  lemma {:induction false} RemoveDisallowedKeepsKept(s: string)
    requires forall i :: 0 <= i < |s| ==> IsKept(s[i])
    ensures RemoveDisallowed(s) == s
    decreases |s|
  {
    if s != [] {
      RemoveDisallowedKeepsKept(s[1..]);
      assert [s[0]] + s[1..] == s;
    }
  }

  lemma {:induction false} CollapseKeepsCollapsed(s: string)
    requires forall i :: 0 <= i < |s| ==> !IsSpace(s[i])
    requires forall i :: 0 <= i < |s| - 1 ==> !(s[i] == '-' && s[i + 1] == '-')
    ensures CollapseSeparators(s) == s
    decreases |s|
  {
    if s != [] {
      var tail := s[1..];
      if IsSeparator(s[0]) {
        assert s[0] == '-';
        assert DropSeparators(s) == tail by {
          assert tail == [] || !IsSeparator(tail[0]);
          assert DropSeparators(s) == DropSeparators(tail);
        }
      }
      CollapseKeepsCollapsed(tail);
      assert [s[0]] + tail == s;
    }
  }

  /** `slugify(slugify(v)) == slugify(v)`. */
  lemma SlugifyIdempotent(value: string)
    requires IsAscii(value)
    ensures IsAscii(Slugify(value))
    ensures Slugify(Slugify(value)) == Slugify(value)
  {
    var s := Slugify(value);
    SlugIsFixed(s);
  }

  /** A slug is a fixed point of every step. */
  lemma SlugIsFixed(s: string)
    requires IsSlug(s)
    ensures IsAscii(s)
    ensures Slugify(s) == s
  {
    LowerKeepsLower(s);
    RemoveDisallowedKeepsKept(s);
    CollapseKeepsCollapsed(s);
  }

  // ---------------------------------------------------------------------
  // The filter keeps exactly the allowed characters, in order

  lemma RemoveDisallowedChar(c: char)
    ensures RemoveDisallowed([c]) == if IsKept(c) then [c] else []
  {
    assert [c][1..] == [];
  }

  lemma {:induction false} RemoveDisallowedAppend(a: string, b: string)
    ensures RemoveDisallowed(a + b) == RemoveDisallowed(a) + RemoveDisallowed(b)
    decreases |a|
  {
    if a == [] {
      assert a + b == b;
    } else {
      assert (a + b)[0] == a[0];
      assert (a + b)[1..] == a[1..] + b;
      RemoveDisallowedAppend(a[1..], b);
    }
  }

  // ---------------------------------------------------------------------
  // Each run of separators becomes one `-`, and nothing else changes

  /** The characters of `s` that are not separators, in order. */
  function NonSeparators(s: string): (r: string)
    ensures forall i :: 0 <= i < |r| ==> !IsSeparator(r[i])
    decreases |s|
  {
    if s == [] then []
    else if IsSeparator(s[0]) then NonSeparators(s[1..])
    else [s[0]] + NonSeparators(s[1..])
  }

  lemma {:induction false} NonSeparatorsAppend(a: string, b: string)
    ensures NonSeparators(a + b) == NonSeparators(a) + NonSeparators(b)
    decreases |a|
  {
    if a == [] {
      assert a + b == b;
    } else {
      assert (a + b)[0] == a[0];
      assert (a + b)[1..] == a[1..] + b;
      NonSeparatorsAppend(a[1..], b);
    }
  }

  lemma {:induction false} NonSeparatorsNone(s: string)
    requires forall i :: 0 <= i < |s| ==> IsSeparator(s[i])
    ensures NonSeparators(s) == []
    decreases |s|
  {
    if s != [] {
      NonSeparatorsNone(s[1..]);
    }
  }

  /** Collapsing keeps every non-separator of the input, in order, and adds
      none. */
  lemma {:induction false} CollapseKeepsNonSeparators(s: string)
    ensures NonSeparators(CollapseSeparators(s)) == NonSeparators(s)
    decreases |s|
  {
    if s != [] {
      if IsSeparator(s[0]) {
        var rest := DropSeparators(s);
        var k := |s| - |rest|;
        DroppedAreSeparators(s);
        assert s == s[..k] + rest;
        NonSeparatorsNone(s[..k]);
        NonSeparatorsAppend(s[..k], rest);
        CollapseKeepsNonSeparators(rest);
        assert ("-" + CollapseSeparators(rest))[1..] == CollapseSeparators(rest);
      } else {
        CollapseKeepsNonSeparators(s[1..]);
        assert ([s[0]] + CollapseSeparators(s[1..]))[1..] == CollapseSeparators(s[1..]);
      }
    }
  }

  lemma {:induction false} DropSeparatorsRun(sep: string, b: string)
    requires forall i :: 0 <= i < |sep| ==> IsSeparator(sep[i])
    requires b == [] || !IsSeparator(b[0])
    ensures DropSeparators(sep + b) == b
    decreases |sep|
  {
    if sep == [] {
      assert sep + b == b;
    } else {
      assert (sep + b)[0] == sep[0];
      assert (sep + b)[1..] == sep[1..] + b;
      DropSeparatorsRun(sep[1..], b);
    }
  }

  lemma {:induction false} DropSeparatorsAppend(x: string, y: string)
    requires x != [] && !IsSeparator(x[|x| - 1])
    ensures DropSeparators(x + y) == DropSeparators(x) + y
    decreases |x|
  {
    assert (x + y)[0] == x[0];
    if IsSeparator(x[0]) {
      assert (x + y)[1..] == x[1..] + y;
      DropSeparatorsAppend(x[1..], y);
    }
  }

  /** Collapsing distributes over a cut made just after a non-separator. */
  lemma {:induction false} CollapseAppend(a: string, r: string)
    requires a != [] && !IsSeparator(a[|a| - 1])
    ensures CollapseSeparators(a + r) == CollapseSeparators(a) + CollapseSeparators(r)
    decreases |a|
  {
    if IsSeparator(a[0]) {
      DropSeparatorsKeepsLast(a);
      CollapseAppend(DropSeparators(a), r);
      CollapseAppendSeparator(a, r);
    } else {
      var t := a[1..];
      if t == [] {
        CollapseAppendNil(r);
      } else {
        assert t[|t| - 1] == a[|a| - 1];
        CollapseAppend(t, r);
      }
      CollapseAppendChar(a[0], t, r);
      SplitFirst(a, r);
    }
  }

  lemma DropSeparatorsKeepsLast(a: string)
    requires a != [] && IsSeparator(a[0]) && !IsSeparator(a[|a| - 1])
    ensures var d := DropSeparators(a);
      d != [] && |d| < |a| && d[|d| - 1] == a[|a| - 1]
  {
    DroppedAreSeparators(a);
  }

  lemma CollapseAppendNil(r: string)
    ensures CollapseSeparators([] + r) == CollapseSeparators([]) + CollapseSeparators(r)
  {
    assert [] + r == r;
    assert [] + CollapseSeparators(r) == CollapseSeparators(r);
  }

  // Sequence identity stated apart: asserted inline, it leaves the collapse
  // equations of the caller in the same proof context and the proof runs out
  // of resource.
  lemma SplitFirst(a: string, r: string)
    requires a != []
    ensures a == [a[0]] + a[1..] && a + r == [a[0]] + (a[1..] + r)
  {
  }

  lemma CollapseAppendSeparator(a: string, r: string)
    requires a != [] && IsSeparator(a[0]) && !IsSeparator(a[|a| - 1])
    requires CollapseSeparators(DropSeparators(a) + r)
          == CollapseSeparators(DropSeparators(a)) + CollapseSeparators(r)
    ensures CollapseSeparators(a + r) == CollapseSeparators(a) + CollapseSeparators(r)
  {
    var d := DropSeparators(a);
    DropSeparatorsAppend(a, r);
    CollapseAfterSeparator(a, r, d);
    CollapseAtSeparator(a);
    ConcatAssoc("-", CollapseSeparators(d), CollapseSeparators(r));
  }

  lemma CollapseAppendChar(c: char, t: string, r: string)
    requires !IsSeparator(c)
    requires CollapseSeparators(t + r) == CollapseSeparators(t) + CollapseSeparators(r)
    ensures CollapseSeparators([c] + (t + r)) == CollapseSeparators([c] + t) + CollapseSeparators(r)
  {
    assert ([c] + (t + r))[1..] == t + r;
    assert ([c] + t)[1..] == t;
  }

  // One unfolding of the collapse, kept as a lemma so that the proofs that
  // use it see this equation alone and not the whole definition.
  lemma CollapseAtSeparator(w: string)
    requires w != [] && IsSeparator(w[0])
    ensures CollapseSeparators(w) == "-" + CollapseSeparators(DropSeparators(w))
  {
  }

  lemma CollapseAfterSeparator(a: string, r: string, d: string)
    requires a != [] && IsSeparator(a[0])
    requires DropSeparators(a + r) == d + r
    ensures CollapseSeparators(a + r) == "-" + CollapseSeparators(d + r)
  {
    assert (a + r)[0] == a[0];
    CollapseAtSeparator(a + r);
  }

  // Associativity of concatenation stated apart, for the same reason as
  // `SplitFirst`.
  lemma ConcatAssoc(x: string, y: string, z: string)
    ensures x + (y + z) == (x + y) + z
  {
  }

  /** A run of separators collapses to one `-`. */
  lemma CollapseRun(sep: string, b: string)
    requires sep != [] && forall i :: 0 <= i < |sep| ==> IsSeparator(sep[i])
    requires b == [] || !IsSeparator(b[0])
    ensures CollapseSeparators(sep + b) == "-" + CollapseSeparators(b)
  {
    assert (sep + b)[0] == sep[0];
    DropSeparatorsRun(sep, b);
  }

  /** A run of separators between two stretches without separators at the
      join becomes a single `-`. */
  lemma CollapseJoin(a: string, sep: string, b: string)
    requires a != [] && !IsSeparator(a[|a| - 1])
    requires sep != [] && forall i :: 0 <= i < |sep| ==> IsSeparator(sep[i])
    requires b == [] || !IsSeparator(b[0])
    ensures CollapseSeparators(a + sep + b) == CollapseSeparators(a) + "-" + CollapseSeparators(b)
  {
    assert a + sep + b == a + (sep + b);
    CollapseAppend(a, sep + b);
    CollapseRun(sep, b);
  }

  /** "Convert spaces or repeated dashes to single dashes": two slugs
      separated by any run of whitespace and dashes slugify to the two
      slugs joined by one `-`. */
  lemma SlugifyJoin(x: string, sep: string, y: string)
    requires IsSlug(x) && IsSlug(y) && x != [] && y != []
    requires sep != [] && forall i :: 0 <= i < |sep| ==> IsSeparator(sep[i])
    ensures IsAscii(x + sep + y)
    ensures Slugify(x + sep + y) == x + "-" + y
  {
    JoinPrepared(x, sep, y);
    JoinCollapsed(x, sep, y);
    JoinStripped(x, y);
    SlugifySteps(x + sep + y);
  }

  // Unfolds `Slugify` into its three stages once, so that the proofs that
  // use it do not carry the body's own contract obligations.
  lemma SlugifySteps(v: string)
    requires IsAscii(v)
    ensures Slugify(v) == Strip(CollapseSeparators(RemoveDisallowed(Lower(v))), EdgeChars)
  {
  }

  lemma JoinPrepared(x: string, sep: string, y: string)
    requires IsSlug(x) && IsSlug(y)
    requires forall i :: 0 <= i < |sep| ==> IsSeparator(sep[i])
    ensures IsAscii(x + sep + y)
    ensures RemoveDisallowed(Lower(x + sep + y)) == x + sep + y
  {
    var v := x + sep + y;
    JoinAlphabet(x, sep, y);
    LowerKeepsLower(v);
    RemoveDisallowedKeepsKept(v);
  }

  lemma JoinCollapsed(x: string, sep: string, y: string)
    requires IsSlug(x) && IsSlug(y) && x != [] && y != []
    requires sep != [] && forall i :: 0 <= i < |sep| ==> IsSeparator(sep[i])
    ensures CollapseSeparators(x + sep + y) == x + "-" + y
  {
    CollapseJoin(x, sep, y);
    CollapseKeepsCollapsed(x);
    CollapseKeepsCollapsed(y);
  }

  lemma JoinStripped(x: string, y: string)
    requires IsSlug(x) && IsSlug(y) && x != [] && y != []
    ensures Strip(x + "-" + y, EdgeChars) == x + "-" + y
  {
    var j := x + "-" + y;
    assert j[0] == x[0] && j[|j| - 1] == y[|y| - 1];
  }

  lemma JoinAlphabet(x: string, sep: string, y: string)
    requires IsSlug(x) && IsSlug(y)
    requires forall i :: 0 <= i < |sep| ==> IsSeparator(sep[i])
    ensures forall i :: 0 <= i < |x + sep + y| ==>
      IsSlugChar((x + sep + y)[i]) || IsSeparator((x + sep + y)[i])
  {
    var v := x + sep + y;
    forall i | 0 <= i < |v|
      ensures IsSlugChar(v[i]) || IsSeparator(v[i])
    {
      if i < |x| {
        assert v[i] == x[i];
      } else if i < |x| + |sep| {
        assert v[i] == sep[i - |x|];
      } else {
        assert v[i] == y[i - |x| - |sep|];
      }
    }
  }

  // ---------------------------------------------------------------------
  // No letter or digit is lost

  predicate IsAlnum(c: char) {
    'a' <= c <= 'z' || IsUpper(c) || '0' <= c <= '9'
  }

  /** The letters and digits of `s`, in order. */
  function Alnums(s: string): (r: string)
    ensures forall i :: 0 <= i < |r| ==> IsAlnum(r[i])
    decreases |s|
  {
    if s == [] then []
    else if IsAlnum(s[0]) then [s[0]] + Alnums(s[1..])
    else Alnums(s[1..])
  }

  lemma {:induction false} AlnumsAppend(a: string, b: string)
    ensures Alnums(a + b) == Alnums(a) + Alnums(b)
    decreases |a|
  {
    if a == [] {
      assert a + b == b;
    } else {
      assert (a + b)[0] == a[0];
      assert (a + b)[1..] == a[1..] + b;
      AlnumsAppend(a[1..], b);
    }
  }

  /** A string none of whose characters is a letter or a digit. */
  lemma {:induction false} AlnumsNone(s: string)
    requires forall i :: 0 <= i < |s| ==> !IsAlnum(s[i])
    ensures Alnums(s) == []
    decreases |s|
  {
    if s != [] {
      AlnumsNone(s[1..]);
    }
  }

  lemma {:induction false} AlnumsRemoveDisallowed(s: string)
    ensures Alnums(RemoveDisallowed(s)) == Alnums(s)
    decreases |s|
  {
    if s != [] {
      AlnumsRemoveDisallowed(s[1..]);
      if IsKept(s[0]) {
        assert ([s[0]] + RemoveDisallowed(s[1..]))[1..] == RemoveDisallowed(s[1..]);
      }
    }
  }

  lemma {:induction false} AlnumsCollapse(s: string)
    ensures Alnums(CollapseSeparators(s)) == Alnums(s)
    decreases |s|
  {
    if s != [] {
      if IsSeparator(s[0]) {
        var rest := DropSeparators(s);
        var k := |s| - |rest|;
        DroppedAreSeparators(s);
        assert s == s[..k] + rest;
        AlnumsNone(s[..k]);
        AlnumsAppend(s[..k], rest);
        AlnumsCollapse(rest);
        assert ("-" + CollapseSeparators(rest))[1..] == CollapseSeparators(rest);
      } else {
        AlnumsCollapse(s[1..]);
        assert ([s[0]] + CollapseSeparators(s[1..]))[1..] == CollapseSeparators(s[1..]);
      }
    }
  }

  lemma AlnumsLStrip(s: string)
    ensures Alnums(LStrip(s, EdgeChars)) == Alnums(s)
  {
    var l := LStrip(s, EdgeChars);
    var k := |s| - |l|;
    assert s == s[..k] + l;
    assert forall i :: 0 <= i < k ==> s[..k][i] == s[i];
    AlnumsNone(s[..k]);
    AlnumsAppend(s[..k], l);
  }

  lemma AlnumsRStrip(s: string)
    ensures Alnums(RStrip(s, EdgeChars)) == Alnums(s)
  {
    var r := RStrip(s, EdgeChars);
    assert s == r + s[|r|..];
    assert forall i :: 0 <= i < |s| - |r| ==> s[|r|..][i] == s[|r| + i];
    AlnumsNone(s[|r|..]);
    AlnumsAppend(r, s[|r|..]);
  }

  /** Every letter and digit of the lower-cased input survives, in order. */
  lemma SlugifyKeepsAlnums(value: string)
    requires IsAscii(value)
    ensures Alnums(Slugify(value)) == Alnums(Lower(value))
  {
    var lowered := Lower(value);
    var kept := RemoveDisallowed(lowered);
    AlnumsRemoveDisallowed(lowered);
    AlnumsCollapse(kept);
    AlnumsLStrip(CollapseSeparators(kept));
    AlnumsRStrip(LStrip(CollapseSeparators(kept), EdgeChars));
  }

  // ---------------------------------------------------------------------
  // Underscores survive except at the ends

  const Underscore: set<char> := {'_'}

  predicate NoSpace(s: string) {
    forall i :: 0 <= i < |s| ==> !IsSpace(s[i])
  }

  lemma {:induction false} NonSeparatorsLStrip(s: string)
    requires NoSpace(s)
    ensures NonSeparators(LStrip(s, EdgeChars)) == LStrip(NonSeparators(s), Underscore)
    decreases |s|
  {
    if s != [] {
      var n := NonSeparators(s);
      if s[0] in EdgeChars {
        NonSeparatorsLStrip(s[1..]);
        if s[0] == '_' {
          assert n == "_" + NonSeparators(s[1..]);
          assert n[1..] == NonSeparators(s[1..]);
        }
      } else {
        assert n == [s[0]] + NonSeparators(s[1..]);
      }
    }
  }

  lemma RStripDropLast(t: string, c: char)
    requires c in Underscore
    ensures RStrip(t + [c], Underscore) == RStrip(t, Underscore)
  {
    assert (t + [c])[..|t|] == t;
  }

  lemma {:induction false} NonSeparatorsRStrip(s: string)
    requires NoSpace(s)
    ensures NonSeparators(RStrip(s, EdgeChars)) == RStrip(NonSeparators(s), Underscore)
    decreases |s|
  {
    if s != [] {
      var n := |s| - 1;
      var init := s[..n];
      assert s == init + [s[n]];
      NonSeparatorsAppend(init, [s[n]]);
      assert [s[n]][1..] == [];
      var ni := NonSeparators(init);
      if s[n] in EdgeChars {
        NonSeparatorsRStrip(init);
        if s[n] == '_' {
          RStripDropLast(ni, '_');
        } else {
          assert ni + [] == ni;
        }
      } else {
        var ns := ni + [s[n]];
        assert NonSeparators(s) == ns;
        assert ns[|ns| - 1] == s[n];
      }
    }
  }

  lemma NonSeparatorsStrip(s: string)
    requires NoSpace(s)
    ensures NonSeparators(Strip(s, EdgeChars)) == Strip(NonSeparators(s), Underscore)
  {
    var l := LStrip(s, EdgeChars);
    NonSeparatorsLStrip(s);
    assert forall i :: 0 <= i < |l| ==> l[i] == s[|s| - |l| + i];
    NonSeparatorsRStrip(l);
  }

  /** The word characters of the lower-cased input, underscores included,
      all reach the slug in order; only underscores at either end are
      lost. */
  lemma SlugifyKeepsWordChars(value: string)
    requires IsAscii(value)
    ensures NonSeparators(Slugify(value)) == Strip(NonSeparators(RemoveDisallowed(Lower(value))), Underscore)
  {
    var kept := RemoveDisallowed(Lower(value));
    var collapsed := CollapseSeparators(kept);
    CollapseShape(kept);
    assert NoSpace(collapsed);
    CollapseKeepsNonSeparators(kept);
    NonSeparatorsStrip(collapsed);
    SlugifySteps(value);
  }
}
