/** An already-parsed HTML tree, as BeautifulSoup hands it to the chapter
    normalisers: a node is a string or an element with a tag name, an
    attribute dictionary and an ordered list of children. */
module Html {

  datatype Option<+T> = None | Some(value: T)

  datatype Result<+T> = Ok(value: T) | Err(error: Error)

  /** The only way the two normalisers fail: `child["src"]` on an `img`
      that has no `src` attribute raises `KeyError`. */
  datatype Error = MissingSrc

  /** Attribute values are optional because a dictionary built in code may
      hold `None` (rendered as a valueless attribute); the parser itself
      always stores strings. */
  type Attrs = map<string, Option<string>>

  datatype Node =
    | Text(text: string)
    | Element(name: string, attrs: Attrs, children: seq<Node>)

  /** An `img` on which `child["src"]` raises. */
  predicate LacksSrc(n: Node) {
    IsElementNamed(n, "img") && "src" !in n.attrs
  }

  predicate IsElementNamed(n: Node, name: string) {
    n.Element? && n.name == name
  }

  /** `attrs.get(key)`: a missing key and a `None` value both read as
      `None`. */
  function Get(attrs: Attrs, key: string): (r: Option<string>)
    ensures r.Some? ==> key in attrs && attrs[key] == r
    ensures key in attrs && attrs[key].Some? ==> r == attrs[key]
  {
    if key in attrs then attrs[key] else None
  }

  /** Python truthiness of an optional attribute value: present and not the
      empty string. */
  predicate Truthy(v: Option<string>) {
    v.Some? && v.value != ""
  }

  /** `xs` followed by the nodes of `r`, or `r`'s error. */
  function Prepend(xs: seq<Node>, r: Result<seq<Node>>): Result<seq<Node>> {
    match r
    case Ok(ys) => Ok(xs + ys)
    case Err(e) => Err(e)
  }

  lemma PrependNil(xs: seq<Node>)
    ensures Prepend(xs, Ok([])) == Ok(xs)
  {
    assert xs + [] == xs;
  }

  lemma PrependEmpty(r: Result<seq<Node>>)
    ensures Prepend([], r) == r
  {
    if r.Ok? {
      assert [] + r.value == r.value;
    }
  }

  lemma PrependPrepend(xs: seq<Node>, ys: seq<Node>, r: Result<seq<Node>>)
    ensures Prepend(xs, Prepend(ys, r)) == Prepend(xs + ys, r)
  {
    if r.Ok? {
      assert xs + (ys + r.value) == (xs + ys) + r.value;
    }
  }

  /** `tag.text`: every string below the node, concatenated in document
      order. */
  function TextContent(n: Node): (r: string)
    decreases n, 1
  {
    match n
    case Text(s) => s
    case Element(_, _, children) => TextContentAll(children)
  }

  function TextContentAll(ns: seq<Node>): (r: string)
    ensures |ns| == 1 ==> r == TextContent(ns[0])
    decreases ns, 0
  {
    if ns == [] then "" else TextContent(ns[0]) + TextContentAll(ns[1..])
  }

  /** Decimal rendering of an integer, as Python's `str(int)` and an
      f-string give it. */
  function DigitChar(d: nat): (c: char)
    requires d < 10
    ensures '0' <= c <= '9'
  {
    "0123456789"[d]
  }

  function NatToString(n: nat): (s: string)
    ensures |s| > 0
    ensures forall i :: 0 <= i < |s| ==> '0' <= s[i] <= '9'
    decreases n
  {
    if n < 10 then [DigitChar(n)] else NatToString(n / 10) + [DigitChar(n % 10)]
  }

  function IntToString(i: int): (s: string)
    ensures |s| > 0
    ensures i >= 0 ==> forall k :: 0 <= k < |s| ==> '0' <= s[k] <= '9'
    ensures i < 0 ==> s[0] == '-'
  {
    if i < 0 then "-" + NatToString(-i) else NatToString(i)
  }

  /** The value a string of decimal digits denotes. */
  function DigitsValue(s: string): nat
    requires forall k :: 0 <= k < |s| ==> '0' <= s[k] <= '9'
    decreases |s|
  {
    if s == [] then 0
    else 10 * DigitsValue(s[..|s| - 1]) + (s[|s| - 1] as int - '0' as int)
  }

  /** The value a rendered integer denotes: an optional `-`, then digits. */
  function IntValue(s: string): int
    requires s != []
    requires s[0] == '-' ==> forall k :: 1 <= k < |s| ==> '0' <= s[k] <= '9'
    requires s[0] != '-' ==> forall k :: 0 <= k < |s| ==> '0' <= s[k] <= '9'
  {
    if s[0] == '-' then 0 - DigitsValue(s[1..]) as int else DigitsValue(s)
  }

  /** Reading the decimal rendering back gives the number. */
  lemma {:induction false} NatToStringRoundTrip(n: nat)
    ensures DigitsValue(NatToString(n)) == n
    decreases n
  {
    var s := NatToString(n);
    if n < 10 {
      assert s[..0] == [];
    } else {
      NatToStringRoundTrip(n / 10);
      assert s[..|s| - 1] == NatToString(n / 10);
    }
  }

  /** `str(i)` denotes `i`, so distinct ids render differently. */
  lemma IntToStringRoundTrip(i: int)
    ensures i < 0 ==> forall k :: 1 <= k < |IntToString(i)| ==> '0' <= IntToString(i)[k] <= '9'
    ensures IntValue(IntToString(i)) == i
  {
    if i < 0 {
      NatToStringRoundTrip(-i);
      assert IntToString(i)[1..] == NatToString(-i);
    } else {
      NatToStringRoundTrip(i);
    }
  }

  lemma IntToStringInjective(i: int, j: int)
    requires IntToString(i) == IntToString(j)
    ensures i == j
  {
    IntToStringRoundTrip(i);
    IntToStringRoundTrip(j);
  }
}
