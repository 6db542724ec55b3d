/** `clean_tree` (src/api/src/create_book/parser.py): reshape the top-level
    blocks of a chapter's `<body>` into a heading followed by a
    `chapter-body` section holding text paragraphs, images and breaks. */
module Parser {
  import opened Html

  /** What `clean_tree` returns: the heading and the section built from the
      template (the `html`/`body` wrapping the parser adds is not modelled). */
  datatype Chapter = Chapter(heading: Node, section: Node)

  /** The heading template is a plain string, not an f-string: its `{id}`
      and `{title}` are literal text and are never substituted. */
  const HeadingTemplate: Node :=
    Element("h1", map["class" := Some("chapter-name"), "id" := Some("{id}")], [Text("{title}")])

  function Section(nodes: seq<Node>): (s: Node)
    ensures s.Element? && s.name == "section" && s.children == nodes
    ensures Get(s.attrs, "class") == Some("chapter-body")
  {
    Element("section", map["class" := Some("chapter-body")], nodes)
  }

  /** A child whose `name` is `None`, `b`, `i` or `u`: text, possibly
      wrapped in emphasis. */
  predicate IsTextKind(n: Node) {
    n.Text? || n.name in ["b", "i", "u"]
  }

  /** The attributes a rebuilt node gets from its paragraph's `style`:
      it is set only when truthy. */
  function StyleAttrs(style: Option<string>): (a: Attrs)
    ensures a.Keys <= {"style"}
    ensures "style" in a <==> Truthy(style)
    ensures "style" in a ==> a["style"] == style
  {
    if Truthy(style) then map["style" := style] else map[]
  }

  /** The paragraph itself, its attributes cleared and `style` put back;
      its children are kept untouched, emphasis markup included. */
  function TextParagraph(p: Node, style: Option<string>): (r: Node)
    requires p.Element?
    ensures r.Element? && r.name == p.name && r.children == p.children
    ensures r.attrs.Keys <= {"style"}
    ensures "style" in r.attrs <==> Truthy(style)
    ensures "style" in r.attrs ==> r.attrs["style"] == style
  {
    Element(p.name, StyleAttrs(style), p.children)
  }

  /** A fresh `img` whose size hints are copied verbatim (or left `None`)
      from the `data-original-*` attributes. */
  function ImageFrom(child: Node, style: Option<string>): (r: Node)
    requires child.Element? && "src" in child.attrs
    ensures r.Element? && r.name == "img" && r.children == []
    ensures r.attrs.Keys == {"height", "width", "src"} + StyleAttrs(style).Keys
    ensures r.attrs["height"] == Get(child.attrs, "data-original-height")
    ensures r.attrs["width"] == Get(child.attrs, "data-original-width")
    ensures r.attrs["src"] == child.attrs["src"]
    ensures "style" in r.attrs ==> Truthy(style) && r.attrs["style"] == style
  {
    var a: Attrs := map[
      "height" := Get(child.attrs, "data-original-height"),
      "width" := Get(child.attrs, "data-original-width"),
      "src" := child.attrs["src"]];
    Element("img", a + StyleAttrs(style), [])
  }

  function BreakFrom(style: Option<string>): (r: Node)
    ensures r.Element? && r.name == "br" && r.children == []
    ensures r.attrs == StyleAttrs(style)
  {
    Element("br", StyleAttrs(style), [])
  }

  /** The inner loop over a `p`'s children: text stops the scan, an image
      or a break adds a node and the scan goes on, anything else is
      skipped. */
  function ScanChildren(style: Option<string>, p: Node, cs: seq<Node>): Result<seq<Node>>
    requires p.Element?
    decreases |cs|
  {
    if cs == [] then Ok([])
    else if IsTextKind(cs[0]) then Ok([TextParagraph(p, style)])
    else if IsElementNamed(cs[0], "img") then
      if "src" !in cs[0].attrs then Err(MissingSrc)
      else Prepend([ImageFrom(cs[0], style)], ScanChildren(style, p, cs[1..]))
    else if IsElementNamed(cs[0], "br") then
      Prepend([BreakFrom(style)], ScanChildren(style, p, cs[1..]))
    else ScanChildren(style, p, cs[1..])
  }

  /** The nodes one top-level block adds to the section. */
  function CleanBlock(b: Node): Result<seq<Node>> {
    if IsElementNamed(b, "p") then ScanChildren(Get(b.attrs, "style"), b, b.children)
    else Ok([])
  }

  /** The nodes all blocks add, one block after the other. */
  function CleanBlocks(bs: seq<Node>): Result<seq<Node>>
    decreases |bs|
  {
    if bs == [] then Ok([])
    else
      match CleanBlock(bs[0])
      case Err(e) => Err(e)
      case Ok(xs) => Prepend(xs, CleanBlocks(bs[1..]))
  }

  /** parser.py:4-50, with the section as a local sequence that only
      receives appends. */
  method CleanTree(title: string, id: int, body: seq<Node>) returns (r: Result<Chapter>)
    ensures r.Ok? <==> CleanBlocks(body).Ok?
    ensures r.Ok? ==> r.value == Chapter(HeadingTemplate, Section(CleanBlocks(body).value))
  {
    var section: seq<Node> := [];
    var i := 0;
    while i < |body|
      invariant 0 <= i <= |body|
      invariant CleanBlocks(body[..i]) == Ok(section)
    {
      var tag := body[i];
      assert body[..i + 1] == body[..i] + [tag];
      CleanBlocksAppend(body[..i], [tag]);
      CleanBlocksSingle(tag);
      PrependNil(section);
      if !IsElementNamed(tag, "p") {
        // The source prints the block's name here and moves on.
        i := i + 1;
        continue;
      }
      var style := Get(tag.attrs, "style");
      var j := 0;
      assert tag.children[j..] == tag.children;
      while j < |tag.children|
        invariant 0 <= j <= |tag.children|
        invariant CleanBlocks(body[..i + 1]) == Prepend(section, ScanChildren(style, tag, tag.children[j..]))
      {
        var child := tag.children[j];
        assert tag.children[j..][0] == child;
        assert tag.children[j..][1..] == tag.children[j + 1..];
        if IsTextKind(child) {
          PrependPrepend(section, [TextParagraph(tag, style)], Ok([]));
          PrependNil(section + [TextParagraph(tag, style)]);
          section := section + [TextParagraph(tag, style)];
          break;
        } else if IsElementNamed(child, "img") {
          if "src" !in child.attrs {
            // `child["src"]` raises and the whole call fails.
            assert body == body[..i + 1] + body[i + 1..];
            CleanBlocksAppend(body[..i + 1], body[i + 1..]);
            return Err(MissingSrc);
          }
          PrependPrepend(section, [ImageFrom(child, style)], ScanChildren(style, tag, tag.children[j + 1..]));
          section := section + [ImageFrom(child, style)];
        } else if IsElementNamed(child, "br") {
          PrependPrepend(section, [BreakFrom(style)], ScanChildren(style, tag, tag.children[j + 1..]));
          section := section + [BreakFrom(style)];
        }
        j := j + 1;
      }
      PrependNil(section);
      i := i + 1;
    }
    assert body[..i] == body;
    r := Ok(Chapter(HeadingTemplate, Section(section)));
  }

  // ---------------------------------------------------------------------
  // Properties of the specification functions

  /** The section only ever receives appends: the nodes of `a + b` are the
      nodes of `a` followed by those of `b`, and an error in `a` is final. */
  lemma {:induction false} CleanBlocksAppend(a: seq<Node>, b: seq<Node>)
    ensures CleanBlocks(a + b) ==
      match CleanBlocks(a)
      case Err(e) => Err(e)
      case Ok(xs) => Prepend(xs, CleanBlocks(b))
    decreases |a|
  {
    if a == [] {
      assert a + b == b;
      PrependEmpty(CleanBlocks(b));
    } else {
      assert (a + b)[0] == a[0];
      assert (a + b)[1..] == a[1..] + b;
      CleanBlocksAppend(a[1..], b);
      if CleanBlock(a[0]).Ok? && CleanBlocks(a[1..]).Ok? {
        PrependPrepend(CleanBlock(a[0]).value, CleanBlocks(a[1..]).value, CleanBlocks(b));
      }
    }
  }

  lemma CleanBlocksSingle(b: Node)
    ensures CleanBlocks([b]) == CleanBlock(b)
  {
    assert [b][1..] == [];
    if CleanBlock(b).Ok? {
      PrependNil(CleanBlock(b).value);
    }
  }

  /** A block that is not a `p` adds no node, wherever it stands. */
  lemma NonParagraphAddsNothing(a: seq<Node>, b: Node, c: seq<Node>)
    requires !IsElementNamed(b, "p")
    ensures CleanBlocks(a + [b] + c) == CleanBlocks(a + c)
  {
    CleanBlocksAppend(a + [b], c);
    CleanBlocksAppend(a, [b]);
    CleanBlocksAppend(a, c);
    CleanBlocksSingle(b);
    if CleanBlocks(a).Ok? {
      PrependNil(CleanBlocks(a).value);
    }
    assert CleanBlocks(a + [b]) == CleanBlocks(a);
  }

  /** A body without any `p` block yields an empty section. */
  lemma {:induction false} NoParagraphsEmptySection(bs: seq<Node>)
    requires forall k :: 0 <= k < |bs| ==> !IsElementNamed(bs[k], "p")
    ensures CleanBlocks(bs) == Ok([])
    decreases |bs|
  {
    if bs != [] {
      assert forall k :: 0 <= k < |bs[1..]| ==> bs[1..][k] == bs[k + 1];
      NoParagraphsEmptySection(bs[1..]);
      PrependNil([]);
    }
  }

  /** Once the scan reaches a text child, the children after it are never
      looked at. */
  lemma {:induction false} TextStopsScan(style: Option<string>, p: Node, cs: seq<Node>, rest: seq<Node>)
    requires p.Element?
    requires exists k :: 0 <= k < |cs| && IsTextKind(cs[k])
    ensures ScanChildren(style, p, cs + rest) == ScanChildren(style, p, cs)
    decreases |cs|
  {
    assert (cs + rest)[0] == cs[0];
    if !IsTextKind(cs[0]) {
      assert (cs + rest)[1..] == cs[1..] + rest;
      var k :| 0 <= k < |cs| && IsTextKind(cs[k]);
      assert cs[1..][k - 1] == cs[k];
      TextStopsScan(style, p, cs[1..], rest);
    }
  }

  /** Images and breaks do not stop the scan: as long as no text child has
      been seen, the scan of `cs + rest` is that of `cs` followed by that of
      `rest`. */
  lemma {:induction false} MediaContinuesScan(style: Option<string>, p: Node, cs: seq<Node>, rest: seq<Node>)
    requires p.Element?
    requires forall k :: 0 <= k < |cs| ==> !IsTextKind(cs[k])
    ensures ScanChildren(style, p, cs + rest) ==
      match ScanChildren(style, p, cs)
      case Err(e) => Err(e)
      case Ok(xs) => Prepend(xs, ScanChildren(style, p, rest))
    decreases |cs|
  {
    if cs == [] {
      assert cs + rest == rest;
      PrependEmpty(ScanChildren(style, p, rest));
    } else {
      assert (cs + rest)[0] == cs[0];
      assert (cs + rest)[1..] == cs[1..] + rest;
      assert forall k :: 0 <= k < |cs[1..]| ==> cs[1..][k] == cs[k + 1];
      MediaContinuesScan(style, p, cs[1..], rest);
      var head: seq<Node> := if IsElementNamed(cs[0], "img") && "src" in cs[0].attrs then [ImageFrom(cs[0], style)]
        else if IsElementNamed(cs[0], "br") then [BreakFrom(style)] else [];
      if ScanChildren(style, p, cs[1..]).Ok? {
        PrependPrepend(head, ScanChildren(style, p, cs[1..]).value, ScanChildren(style, p, rest));
      }
    }
  }

  // ---------------------------------------------------------------------
  // An independent description of one paragraph's nodes: filter the
  // children reached before the first text child down to images and
  // breaks, convert each, then add the paragraph if a text child exists.

  /** Index of the first text child, or `|cs|` when there is none. */
  function FirstTextIndex(cs: seq<Node>): (k: nat)
    ensures k <= |cs|
    ensures forall j :: 0 <= j < k ==> !IsTextKind(cs[j])
    ensures k < |cs| ==> IsTextKind(cs[k])
    decreases |cs|
  {
    if cs == [] then 0
    else if IsTextKind(cs[0]) then 0
    else 1 + FirstTextIndex(cs[1..])
  }

  predicate IsMedia(n: Node) {
    IsElementNamed(n, "img") || IsElementNamed(n, "br")
  }

  /** The image and break children, in order. */
  function MediaOf(cs: seq<Node>): (ms: seq<Node>)
    ensures forall x :: x in ms ==> x in cs && IsMedia(x)
    ensures |ms| <= |cs|
    decreases |cs|
  {
    if cs == [] then []
    else if IsMedia(cs[0]) then [cs[0]] + MediaOf(cs[1..])
    else MediaOf(cs[1..])
  }

  function MediaNode(style: Option<string>, m: Node): Node
    requires IsMedia(m) && !LacksSrc(m)
  {
    if IsElementNamed(m, "img") then ImageFrom(m, style) else BreakFrom(style)
  }

  function ConvertMedia(style: Option<string>, ms: seq<Node>): (r: seq<Node>)
    requires forall x :: x in ms ==> IsMedia(x) && !LacksSrc(x)
    ensures |r| == |ms|
  {
    seq(|ms|, i requires 0 <= i < |ms| => MediaNode(style, ms[i]))
  }

  /** The reference result for one paragraph. */
  function ParagraphReference(style: Option<string>, p: Node, cs: seq<Node>): Result<seq<Node>>
    requires p.Element?
  {
    var reached := cs[..FirstTextIndex(cs)];
    if exists x :: x in reached && LacksSrc(x) then Err(MissingSrc)
    else
      Ok(ConvertMedia(style, MediaOf(reached))
         + (if FirstTextIndex(cs) < |cs| then [TextParagraph(p, style)] else []))
  }

  lemma {:induction false} ConvertMediaCons(style: Option<string>, m: Node, ms: seq<Node>)
    requires IsMedia(m) && !LacksSrc(m)
    requires forall x :: x in ms ==> IsMedia(x) && !LacksSrc(x)
    ensures ConvertMedia(style, [m] + ms) == [MediaNode(style, m)] + ConvertMedia(style, ms)
  {
    var l := ConvertMedia(style, [m] + ms);
    var r := [MediaNode(style, m)] + ConvertMedia(style, ms);
    assert |l| == |r|;
    forall i | 0 <= i < |l| ensures l[i] == r[i] {
      if i > 0 {
        assert ([m] + ms)[i] == ms[i - 1];
      }
    }
  }

  /** The scan agrees with the reference on every paragraph: it fails
      exactly when an `img` without `src` comes before the first text
      child, and otherwise yields the converted images and breaks that
      come before it, then the paragraph when there is a text child. */
  lemma {:induction false} ScanMatchesReference(style: Option<string>, p: Node, cs: seq<Node>)
    requires p.Element?
    ensures ScanChildren(style, p, cs) == ParagraphReference(style, p, cs)
    decreases |cs|
  {
    if cs == [] {
      assert cs[..0] == [];
      assert ConvertMedia(style, MediaOf([])) == [];
      assert ConvertMedia(style, MediaOf([])) + [] == [];
    } else if IsTextKind(cs[0]) {
      assert cs[..0] == [];
      assert ConvertMedia(style, MediaOf([])) == [];
      assert [] + [TextParagraph(p, style)] == [TextParagraph(p, style)];
    } else {
      ScanMatchesReference(style, p, cs[1..]);
      ReferenceStep(style, p, cs);
    }
  }

  /** How the reference result of a paragraph relates to that of its
      children after the first, when the first is not text. */
  lemma ReferenceStep(style: Option<string>, p: Node, cs: seq<Node>)
    requires p.Element? && cs != [] && !IsTextKind(cs[0])
    ensures ParagraphReference(style, p, cs) ==
      if LacksSrc(cs[0]) then Err(MissingSrc)
      else if IsMedia(cs[0]) then Prepend([MediaNode(style, cs[0])], ParagraphReference(style, p, cs[1..]))
      else ParagraphReference(style, p, cs[1..])
  {
    var k := FirstTextIndex(cs);
    var tail := cs[1..];
    assert FirstTextIndex(tail) == k - 1;
    var reached := cs[..k];
    var reachedTail := tail[..k - 1];
    assert reached == [cs[0]] + reachedTail;
    var bad := exists x :: x in reached && LacksSrc(x);
    var badTail := exists x :: x in reachedTail && LacksSrc(x);
    assert bad == (LacksSrc(cs[0]) || badTail);
    if !bad {
      var suffix := if k < |cs| then [TextParagraph(p, style)] else [];
      var rest := ConvertMedia(style, MediaOf(reachedTail));
      assert ParagraphReference(style, p, tail) == Ok(rest + suffix);
      if IsMedia(cs[0]) {
        assert MediaOf(reached) == [cs[0]] + MediaOf(reachedTail);
        ConvertMediaCons(style, cs[0], MediaOf(reachedTail));
        assert [MediaNode(style, cs[0])] + (rest + suffix) == ([MediaNode(style, cs[0])] + rest) + suffix;
      } else {
        assert MediaOf(reached) == MediaOf(reachedTail);
      }
    }
  }

  /** Every node in the section is a `p`, an `img` or a `br`. */
  lemma {:induction false} SectionShape(bs: seq<Node>)
    requires CleanBlocks(bs).Ok?
    ensures forall x :: x in CleanBlocks(bs).value ==>
      x.Element? && (x.name == "img" || x.name == "br" || IsElementNamed(x, "p"))
    decreases |bs|
  {
    if bs != [] {
      SectionShape(bs[1..]);
      var b := bs[0];
      if IsElementNamed(b, "p") {
        ScanShape(Get(b.attrs, "style"), b, b.children);
      }
    }
  }

  lemma {:induction false} ScanShape(style: Option<string>, p: Node, cs: seq<Node>)
    requires IsElementNamed(p, "p")
    requires ScanChildren(style, p, cs).Ok?
    ensures forall x :: x in ScanChildren(style, p, cs).value ==>
      x.Element? && (x.name == "img" || x.name == "br" || IsElementNamed(x, "p"))
    decreases |cs|
  {
    if cs != [] && !IsTextKind(cs[0]) {
      ScanShape(style, p, cs[1..]);
    }
  }
}
