/** `generate_clean_part_html` (src/api/src/create_book/utils.py): rebuild
    the paragraphs of one chapter into a fresh `<section>` that opens with
    the chapter's `h1`; images are hoisted out of their paragraph into the
    section, each followed by a `br`. */
module PartHtml {
  import opened Html
  import opened Models

  const DefaultStyle := "text-align: left;"

  /** The `h1` the template builds, with the id and title filled in. */
  function HeadingFor(part: Part): (h: Node)
    ensures h.Element? && h.name == "h1"
    ensures Get(h.attrs, "id") == Some(IntToString(part.id))
    ensures Get(h.attrs, "class") == Some("chapter-title")
    ensures TextContent(h) == part.title
  {
    Element("h1", map["id" := Some(IntToString(part.id)), "class" := Some("chapter-title")],
            if part.title == "" then [] else [Text(part.title)])
  }

  /** The section's own children as `html.parser` builds them from the
      template: the whitespace around the `h1` is kept as text. */
  function TemplateChildren(part: Part): seq<Node> {
    [Text("\n        "), HeadingFor(part), Text("\n    ")]
  }

  /** The section returned for `part`, given the nodes appended to it. */
  function SectionFor(part: Part, appended: seq<Node>): (s: Node)
    ensures s.Element? && s.name == "section"
    ensures Get(s.attrs, "id") == Some("section_" + IntToString(part.id))
    ensures Get(s.attrs, "class") == Some("chapitre")
    ensures |s.children| == 3 + |appended| && s.children[3..] == appended
    ensures s.children[1] == HeadingFor(part)
    ensures s.children[0].Text? && s.children[2].Text?
  {
    Element("section", map["id" := Some("section_" + IntToString(part.id)), "class" := Some("chapitre")],
            TemplateChildren(part) + appended)
  }

  /** `child.get("style", "text-align: left;")`: the stored value when the
      key is present, the default otherwise. */
  function StyleOrDefault(attrs: Attrs): (s: Option<string>)
    ensures "style" in attrs ==> s == attrs["style"]
    ensures "style" !in attrs ==> s == Some(DefaultStyle)
  {
    if "style" in attrs then attrs["style"] else Some(DefaultStyle)
  }

  function NewParagraph(style: Option<string>, contents: seq<Node>): Node {
    Element("p", map["style" := style], contents)
  }

  /** The fresh `img` that carries only the `src` of the original. */
  function ImageOnlySrc(img: Node): (r: Node)
    requires IsElementNamed(img, "img") && !LacksSrc(img)
    ensures r.Element? && r.name == "img" && r.children == []
    ensures r.attrs.Keys == {"src"} && r.attrs["src"] == img.attrs["src"]
  {
    Element("img", map["src" := img.attrs["src"]], [])
  }

  const NewBreak: Node := Element("br", map[], [])

  /** What the scan of a paragraph's children produces: the nodes it appends
      to the section straight away, and the new paragraph's contents. */
  datatype Rebuilt = Rebuilt(hoisted: seq<Node>, contents: seq<Node>)

  /** `hs` and `ps` put in front of what `r` holds. */
  function PrependRebuilt(hs: seq<Node>, ps: seq<Node>, r: Result<Rebuilt>): Result<Rebuilt> {
    match r
    case Err(e) => Err(e)
    case Ok(rb) => Ok(Rebuilt(hs + rb.hoisted, ps + rb.contents))
  }

  /** One turn of the loop over a paragraph's children (utils.py:55-76),
      given what the remaining children produce: an empty string and a
      `br` add nothing, an `img` is hoisted with a `br` after it, `b`/`i`
      are flattened to their text, strings and any other tag are kept. */
  function ScanStep(c: Node, rest: Result<Rebuilt>): Result<Rebuilt> {
    match c
    case Text(s) =>
      if s == "" then rest else PrependRebuilt([], [Text(s)], rest)
    case Element(name, attrs, _) =>
      if name == "br" then rest
      else if name == "img" then
        if "src" !in attrs then Err(MissingSrc)
        else PrependRebuilt([ImageOnlySrc(c), NewBreak], [], rest)
      else if name in ["b", "i"] then
        PrependRebuilt([], [Element(name, map[], [Text(TextContent(c))])], rest)
      else PrependRebuilt([], [c], rest)
  }

  /** The loop over one paragraph's children. */
  function ScanParagraph(cs: seq<Node>): Result<Rebuilt>
    decreases |cs|
  {
    if cs == [] then Ok(Rebuilt([], [])) else ScanStep(cs[0], ScanParagraph(cs[1..]))
  }

  /** What one paragraph adds to the section: its hoisted images, then the
      rebuilt paragraph when it has contents. */
  function RebuildParagraph(p: Node): Result<seq<Node>>
    requires p.Element?
  {
    match ScanParagraph(p.children)
    case Err(e) => Err(e)
    case Ok(rb) =>
      Ok(rb.hoisted + if rb.contents == [] then [] else [NewParagraph(StyleOrDefault(p.attrs), rb.contents)])
  }

  predicate AllParagraphs(ps: seq<Node>) {
    forall k :: 0 <= k < |ps| ==> IsElementNamed(ps[k], "p")
  }

  function RebuildAll(ps: seq<Node>): Result<seq<Node>>
    requires AllParagraphs(ps)
    decreases |ps|
  {
    if ps == [] then Ok([])
    else
      match RebuildParagraph(ps[0])
      case Err(e) => Err(e)
      case Ok(xs) => Prepend(xs, RebuildAll(ps[1..]))
  }

  /** The section as the loop has it mid-paragraph, completed with the scan
      of the children still to come. */
  function Assemble(section: seq<Node>, style: Option<string>, paragraph: seq<Node>, r: Result<Rebuilt>): Result<seq<Node>> {
    match r
    case Err(e) => Err(e)
    case Ok(rb) =>
      var contents := paragraph + rb.contents;
      Ok(section + rb.hoisted + if contents == [] then [] else [NewParagraph(style, contents)])
  }

  /** utils.py:24-85. `paragraphs` is what `find_all("p")` returns; the
      section starts as the template built and only receives appends. */
  method GenerateCleanPartHtml(part: Part, paragraphs: seq<Node>) returns (r: Result<Node>)
    requires AllParagraphs(paragraphs)
    ensures r.Ok? <==> RebuildAll(paragraphs).Ok?
    ensures r.Ok? ==> r.value == SectionFor(part, RebuildAll(paragraphs).value)
  {
    var section := TemplateChildren(part);
    var i := 0;
    PrependNil(section);
    while i < |paragraphs|
      invariant 0 <= i <= |paragraphs|
      invariant Prepend(TemplateChildren(part), RebuildAll(paragraphs[..i])) == Ok(section)
    {
      var child := paragraphs[i];
      assert paragraphs[..i + 1] == paragraphs[..i] + [child];
      RebuildAllAppend(paragraphs[..i], [child]);
      RebuildAllSingle(child);
      PrependPrepend(TemplateChildren(part), RebuildAll(paragraphs[..i]).value, RebuildParagraph(child));
      var next := AppendRebuiltParagraph(section, child);
      if next.Err? {
        assert paragraphs == paragraphs[..i + 1] + paragraphs[i + 1..];
        RebuildAllAppend(paragraphs[..i + 1], paragraphs[i + 1..]);
        return Err(next.error);
      }
      section := next.value;
      i := i + 1;
    }
    assert paragraphs[..i] == paragraphs;
    r := Ok(SectionFor(part, RebuildAll(paragraphs).value));
    assert TemplateChildren(part) + RebuildAll(paragraphs).value == section;
  }

  /** The body of the loop over paragraphs (utils.py:52-79): images go to
      the section as they are met, the other children to a new paragraph
      that is appended last, when it has contents. */
  method AppendRebuiltParagraph(section: seq<Node>, child: Node) returns (r: Result<seq<Node>>)
    requires child.Element?
    ensures r == Prepend(section, RebuildParagraph(child))
  {
    var style := StyleOrDefault(child.attrs);
    var out := section;
    var paragraph: seq<Node> := [];
    var j := 0;
    assert child.children[j..] == child.children;
    AssembleStart(section, child);
    while j < |child.children|
      invariant 0 <= j <= |child.children|
      invariant Prepend(section, RebuildParagraph(child))
        == Assemble(out, style, paragraph, ScanParagraph(child.children[j..]))
    {
      var pChild := child.children[j];
      ghost var rest := ScanParagraph(child.children[j + 1..]);
      assert child.children[j..][0] == pChild;
      assert child.children[j..][1..] == child.children[j + 1..];
      assert ScanParagraph(child.children[j..]) == ScanStep(pChild, rest);
      match pChild {
        case Text(s) =>
          if s != "" {
            AssembleShift(out, style, paragraph, [], [Text(s)], rest);
            assert out + [] == out;
            paragraph := paragraph + [Text(s)];
          }
        case Element(name, attrs, _) =>
          if name == "br" {
            // The break is decomposed and contributes nothing.
          } else if name == "img" {
            if "src" !in attrs {
              // `p_child["src"]` raises and the whole call fails.
              return Err(MissingSrc);
            }
            AssembleShift(out, style, paragraph, [ImageOnlySrc(pChild), NewBreak], [], rest);
            assert paragraph + [] == paragraph;
            out := out + [ImageOnlySrc(pChild), NewBreak];
          } else if name in ["b", "i"] {
            var styled := Element(name, map[], [Text(TextContent(pChild))]);
            assert ScanStep(pChild, rest) == PrependRebuilt([], [styled], rest);
            AssembleShift(out, style, paragraph, [], [styled], rest);
            assert out + [] == out;
            paragraph := paragraph + [styled];
          } else {
            // Any other tag is moved over as it is.
            assert ScanStep(pChild, rest) == PrependRebuilt([], [pChild], rest);
            AssembleShift(out, style, paragraph, [], [pChild], rest);
            assert out + [] == out;
            paragraph := paragraph + [pChild];
          }
      }
      j := j + 1;
    }
    assert child.children[j..] == [];
    assert out + [] == out;
    assert paragraph + [] == paragraph;
    if paragraph != [] {
      out := out + [NewParagraph(style, paragraph)];
    }
    r := Ok(out);
  }

  // ---------------------------------------------------------------------
  // Proof steps of the method

  lemma AssembleShift(section: seq<Node>, style: Option<string>, paragraph: seq<Node>,
                      hs: seq<Node>, ps: seq<Node>, r: Result<Rebuilt>)
    ensures Assemble(section, style, paragraph, PrependRebuilt(hs, ps, r))
         == Assemble(section + hs, style, paragraph + ps, r)
  {
    if r.Ok? {
      assert section + (hs + r.value.hoisted) == (section + hs) + r.value.hoisted;
      assert paragraph + (ps + r.value.contents) == (paragraph + ps) + r.value.contents;
    }
  }

  lemma AssembleStart(section: seq<Node>, p: Node)
    requires p.Element?
    ensures Prepend(section, RebuildParagraph(p))
         == Assemble(section, StyleOrDefault(p.attrs), [], ScanParagraph(p.children))
  {
    var r := ScanParagraph(p.children);
    if r.Ok? {
      assert [] + r.value.contents == r.value.contents;
      var tail := if r.value.contents == [] then [] else [NewParagraph(StyleOrDefault(p.attrs), r.value.contents)];
      assert section + (r.value.hoisted + tail) == section + r.value.hoisted + tail;
    }
  }

  lemma RebuildAllSingle(p: Node)
    requires IsElementNamed(p, "p")
    ensures RebuildAll([p]) == RebuildParagraph(p)
  {
    assert [p][1..] == [];
    if RebuildParagraph(p).Ok? {
      PrependNil(RebuildParagraph(p).value);
    }
  }

  // ---------------------------------------------------------------------
  // Properties of the specification functions

  /** The section only ever receives appends: the nodes for `a + b` are
      those for `a` followed by those for `b`, and an error in `a` is final. */
  lemma {:induction false} RebuildAllAppend(a: seq<Node>, b: seq<Node>)
    requires AllParagraphs(a) && AllParagraphs(b)
    ensures AllParagraphs(a + b)
    ensures RebuildAll(a + b) ==
      match RebuildAll(a)
      case Err(e) => Err(e)
      case Ok(xs) => Prepend(xs, RebuildAll(b))
    decreases |a|
  {
    assert forall k :: 0 <= k < |a + b| ==> (a + b)[k] == if k < |a| then a[k] else b[k - |a|];
    if a == [] {
      assert a + b == b;
      PrependEmpty(RebuildAll(b));
    } else {
      assert (a + b)[0] == a[0];
      assert (a + b)[1..] == a[1..] + b;
      RebuildAllAppend(a[1..], b);
      if RebuildParagraph(a[0]).Ok? && RebuildAll(a[1..]).Ok? {
        PrependPrepend(RebuildParagraph(a[0]).value, RebuildAll(a[1..]).value, RebuildAll(b));
      }
    }
  }

  /** Scanning `a + b` is scanning `a`, then `b`. */
  lemma {:induction false} ScanParagraphAppend(a: seq<Node>, b: seq<Node>)
    ensures ScanParagraph(a + b) ==
      match ScanParagraph(a)
      case Err(e) => Err(e)
      case Ok(rb) => PrependRebuilt(rb.hoisted, rb.contents, ScanParagraph(b))
    decreases |a|
  {
    if a == [] {
      assert a + b == b;
      var r := ScanParagraph(b);
      if r.Ok? {
        assert [] + r.value.hoisted == r.value.hoisted;
        assert [] + r.value.contents == r.value.contents;
      }
    } else {
      assert (a + b)[0] == a[0];
      assert (a + b)[1..] == a[1..] + b;
      ScanParagraphAppend(a[1..], b);
      var ra := ScanParagraph(a[1..]);
      var r := ScanParagraph(b);
      if ra.Ok? && r.Ok? {
        var h := ScanStep(a[0], Ok(Rebuilt([], [])));
        if h.Ok? {
          forall xs: seq<Node>, ys: seq<Node>, zs: seq<Node> ensures xs + (ys + zs) == (xs + ys) + zs { }
        }
      }
    }
  }

  /** A `br` child of a paragraph contributes nothing, wherever it stands. */
  lemma BreakContributesNothing(pre: seq<Node>, br: Node, post: seq<Node>)
    requires IsElementNamed(br, "br")
    ensures ScanParagraph(pre + [br] + post) == ScanParagraph(pre + post)
  {
    ScanParagraphAppend(pre + [br], post);
    ScanParagraphAppend(pre, [br]);
    ScanParagraphAppend(pre, post);
    assert [br][1..] == [];
    var r := ScanParagraph(pre);
    if r.Ok? {
      assert r.value.hoisted + [] == r.value.hoisted;
      assert r.value.contents + [] == r.value.contents;
    }
  }

  // ---------------------------------------------------------------------
  // An independent description of one paragraph: filter its children into
  // the images and the children the new paragraph keeps, then convert each.

  /** The `img` children, in order. */
  function ImagesOf(cs: seq<Node>): (r: seq<Node>)
    ensures forall x :: x in r ==> x in cs && IsElementNamed(x, "img")
    decreases |cs|
  {
    if cs == [] then []
    else if IsElementNamed(cs[0], "img") then [cs[0]] + ImagesOf(cs[1..])
    else ImagesOf(cs[1..])
  }

  /** A child that ends up in the new paragraph: a non-empty string or a tag
      other than `br` and `img`. */
  predicate Kept(c: Node) {
    if c.Text? then c.text != "" else c.name != "br" && c.name != "img"
  }

  /** The kept children, in order. */
  function KeptOf(cs: seq<Node>): (r: seq<Node>)
    ensures forall x :: x in r ==> x in cs && Kept(x)
    decreases |cs|
  {
    if cs == [] then []
    else if Kept(cs[0]) then [cs[0]] + KeptOf(cs[1..])
    else KeptOf(cs[1..])
  }

  /** What a kept child becomes in the new paragraph: `b`/`i` are rebuilt
      around their text alone, anything else is the child itself. */
  function Carried(c: Node): (r: Node)
    requires Kept(c)
    ensures c.Text? ==> r == c
    ensures c.Element? && c.name !in ["b", "i"] ==> r == c
    ensures c.Element? && c.name in ["b", "i"] ==>
      r.Element? && r.name == c.name && r.attrs == map[] && TextContent(r) == TextContent(c) &&
      r.children == [Text(TextContent(c))]
  {
    if c.Element? && c.name in ["b", "i"] then Element(c.name, map[], [Text(TextContent(c))]) else c
  }

  /** A paragraph's scan fails exactly when one of its children is an `img`
      without `src`. */
  lemma {:induction false} ScanFailsIffMissingSrc(cs: seq<Node>)
    ensures ScanParagraph(cs).Err? <==> exists x :: x in cs && LacksSrc(x)
    decreases |cs|
  {
    if cs != [] {
      ScanFailsIffMissingSrc(cs[1..]);
      assert forall x :: x in cs <==> x == cs[0] || x in cs[1..];
      var rest := ScanParagraph(cs[1..]);
      match cs[0] {
        case Text(s) =>
        case Element(name, attrs, _) =>
          if name == "img" && "src" in attrs {
            assert ScanParagraph(cs) == PrependRebuilt([ImageOnlySrc(cs[0]), NewBreak], [], rest);
          }
      }
      assert ScanParagraph(cs).Err? <==> LacksSrc(cs[0]) || rest.Err?;
    }
  }

  /** Each `img` child, in order, becomes an `img` carrying only its `src`
      followed by a fresh `br`; nothing else is hoisted. */
  lemma {:induction false} ScanHoistsImages(cs: seq<Node>)
    requires ScanParagraph(cs).Ok?
    ensures forall x :: x in ImagesOf(cs) ==> !LacksSrc(x)
    ensures |ScanParagraph(cs).value.hoisted| == 2 * |ImagesOf(cs)|
    ensures forall k :: 0 <= k < |ImagesOf(cs)| ==>
      ScanParagraph(cs).value.hoisted[2 * k] == ImageOnlySrc(ImagesOf(cs)[k]) &&
      ScanParagraph(cs).value.hoisted[2 * k + 1] == NewBreak
    decreases |cs|
  {
    ScanFailsIffMissingSrc(cs);
    if cs != [] {
      var tail := cs[1..];
      assert ScanParagraph(tail).Ok? by {
        ScanFailsIffMissingSrc(tail);
      }
      ScanHoistsImages(tail);
      var h := ScanParagraph(cs).value.hoisted;
      var ht := ScanParagraph(tail).value.hoisted;
      if IsElementNamed(cs[0], "img") {
        assert ImagesOf(cs) == [cs[0]] + ImagesOf(tail);
        assert h == [ImageOnlySrc(cs[0]), NewBreak] + ht;
        forall k | 0 <= k < |ImagesOf(cs)|
          ensures h[2 * k] == ImageOnlySrc(ImagesOf(cs)[k]) && h[2 * k + 1] == NewBreak
        {
          if k > 0 {
            assert ImagesOf(cs)[k] == ImagesOf(tail)[k - 1];
            assert h[2 * k] == ht[2 * (k - 1)];
            assert h[2 * k + 1] == ht[2 * (k - 1) + 1];
          }
        }
      } else {
        assert ImagesOf(cs) == ImagesOf(tail);
        assert h == ht;
      }
    }
  }

  /** The new paragraph's contents are the kept children, in order, each
      carried over as `Carried` says. */
  lemma {:induction false} ScanKeepsContents(cs: seq<Node>)
    requires ScanParagraph(cs).Ok?
    ensures |ScanParagraph(cs).value.contents| == |KeptOf(cs)|
    ensures forall k :: 0 <= k < |KeptOf(cs)| ==>
      ScanParagraph(cs).value.contents[k] == Carried(KeptOf(cs)[k])
    decreases |cs|
  {
    if cs != [] {
      var tail := cs[1..];
      assert ScanParagraph(tail).Ok? by {
        ScanFailsIffMissingSrc(cs);
        ScanFailsIffMissingSrc(tail);
      }
      ScanKeepsContents(tail);
      var c := ScanParagraph(cs).value.contents;
      var ct := ScanParagraph(tail).value.contents;
      if Kept(cs[0]) {
        assert KeptOf(cs) == [cs[0]] + KeptOf(tail);
        assert c == [Carried(cs[0])] + ct;
      } else {
        assert KeptOf(cs) == KeptOf(tail);
        assert c == ct;
      }
    }
  }

  /** What one paragraph adds: its hoisted images first, then the new
      paragraph, styled with the original `style` or the default, exactly
      when some child is kept. */
  lemma RebuiltParagraphShape(p: Node)
    requires p.Element? && RebuildParagraph(p).Ok?
    ensures ScanParagraph(p.children).Ok?
    ensures var xs := RebuildParagraph(p).value;
      |xs| == 2 * |ImagesOf(p.children)| + (if KeptOf(p.children) == [] then 0 else 1) &&
      xs[..2 * |ImagesOf(p.children)|] == ScanParagraph(p.children).value.hoisted &&
      (KeptOf(p.children) != [] ==>
        xs[|xs| - 1].Element? && xs[|xs| - 1].name == "p" &&
        xs[|xs| - 1].attrs == map["style" := StyleOrDefault(p.attrs)] &&
        xs[|xs| - 1].children == ScanParagraph(p.children).value.contents &&
        |xs[|xs| - 1].children| == |KeptOf(p.children)|)
  {
    ScanHoistsImages(p.children);
    ScanKeepsContents(p.children);
  }
}
