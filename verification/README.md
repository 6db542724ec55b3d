# Chapter normalisation of the book builder, in Dafny

This project models the part of the book builder that reshapes scraped
chapter HTML before it is rendered to PDF or EPUB, and proves what that code
does. It covers four routines of `src/api/src/create_book/`:

- `clean_tree` (`parser.py`). It walks the top-level blocks of a chapter
  body. For each `<p>` it appends to a `chapter-body` section one of three
  things:
  - the paragraph itself, stripped to its `style`, when a text child is
    reached;
  - a fresh `<img>` for each image child reached before that text;
  - a fresh `<br>` for each break child reached before that text.

  The heading is a fixed template. Modelled as the method `Parser.CleanTree`
  with nested loops over a local section sequence. The method is proved equal
  to the recursive specification `Parser.CleanBlocks`, and that specification
  is proved equal to an independent filter-and-convert description
  (`Parser.ParagraphReference`).
- `generate_clean_part_html` (`utils.py`). It rebuilds each `<p>` into a
  fresh paragraph:
  - the paragraph keeps its style, or gets `text-align: left;` when it has
    none;
  - `b`/`i` are flattened to their text;
  - images are hoisted into the section, each followed by a `<br>`;
  - breaks are dropped.

  Modelled as the method `PartHtml.GenerateCleanPartHtml` (outer loop) and
  `PartHtml.AppendRebuiltParagraph` (inner loop). They are proved against
  `PartHtml.RebuildAll`, and that function is related to filters of the
  children (`ImagesOf`, `KeptOf`).
- `smart_trim` (`utils.py`). It cuts a text at line boundaries under a
  length. The method `Trim.SmartTrim` reproduces the code as written. Its two
  defects are listed under Findings, next to the corrected
  `Trim.SmartTrimIntended`.
- `slugify` (`utils.py`), on the ASCII path: lower-case, drop disallowed
  characters, collapse separator runs to `-`, strip `-` and `_` at both
  ends. `Slug.Slugify` is proved to return a well-formed slug, to be
  idempotent and to keep every letter and digit.

A parsed HTML tree is the value type `Html.Node`: a string, or an element
with a name, an attribute map and children. Attribute values are
`Option<string>` because a dictionary built in code may hold `None`. Within
the blocks it reads, the only failure of either normaliser is `child["src"]`
on an `img` without `src`, which raises `KeyError`. The model returns
`Err(MissingSrc)` there. `clean_tree` can also fail before reading any block,
when the parsed document has no `<body>` (see "## Left out").

Where the code and its documentation disagree, the model follows the code:

- `clean_tree`'s heading is the literal `{id}`/`{title}` template, because
  the string is not an f-string.
- `clean_tree` fails on an `img` without `src`.
- A text child stops the scan of its paragraph. Images and breaks do not stop
  it.
- One paragraph may yield several section nodes.
- The section built by `generate_clean_part_html` starts with the whitespace
  strings `html.parser` keeps around the `h1`. Its first element child, not
  its first child, is the `h1`.

Files:

- `html.dfy`: the tree, `Option`/`Result` and integer rendering;
- `models.dfy`: `Part`;
- `strings.dfy`: `rstrip`, `lstrip`, `strip`;
- `parser.dfy`, `part_html.dfy`, `trim.dfy`, `slug.dfy`: one per routine.

## Model

| member | source | states |
|---|---|---|
| Parser.CleanTree | src/api/src/create_book/parser.py:4-50 | Succeeds exactly when the block-by-block specification does. The heading is then the literal template with `{id}` and `{title}` unsubstituted, and the section holds exactly the nodes the blocks add, in block order. |
| Parser.Section | src/api/src/create_book/parser.py:6-11 | The insertion point is a `section` with class `chapter-body` whose children are the appended nodes. |
| Parser.StyleAttrs | src/api/src/create_book/parser.py:26-27 | A rebuilt node gets a `style` attribute exactly when the paragraph's style is non-empty, holding that style, and no other attribute from it. |
| Parser.TextParagraph | src/api/src/create_book/parser.py:22-28 | The appended paragraph keeps its name and children, and of its attributes keeps only `style`, present exactly when non-empty. |
| Parser.ImageFrom | src/api/src/create_book/parser.py:31-41 | The new `img` has exactly `height`, `width` and `src`, plus `style` when non-empty. `height` and `width` are copied verbatim from `data-original-*`, or `None` when absent. `src` is the child's. |
| Parser.BreakFrom | src/api/src/create_book/parser.py:43-48 | The new `br` carries only the paragraph's non-empty style. |
| Parser.CleanBlocksAppend | src/api/src/create_book/parser.py:11-48 | The section only receives appends: the nodes for `a + b` are those for `a` followed by those for `b`, and an error in `a` is final. |
| Parser.NonParagraphAddsNothing | src/api/src/create_book/parser.py:13-16 | Inserting a non-`p` block anywhere in the body changes nothing in the result. |
| Parser.NoParagraphsEmptySection | src/api/src/create_book/parser.py:13-16 | A body without `p` blocks gives an empty section. |
| Parser.TextStopsScan | src/api/src/create_book/parser.py:22-29 | Once a text, `b`, `i` or `u` child is reached, later children of the paragraph are never looked at. |
| Parser.MediaContinuesScan | src/api/src/create_book/parser.py:31-48 | Before any text child, scanning `cs + rest` is scanning `cs`, then `rest`. Images and breaks never stop the scan. |
| Parser.ScanMatchesReference | src/api/src/create_book/parser.py:19-48 | A paragraph fails exactly when an `img` without `src` comes before its first text child. Otherwise it yields its images and breaks before that child, converted in order, then itself once if a text child exists. |
| Parser.SectionShape | src/api/src/create_book/parser.py:13-48 | Every node of the section is a `p`, an `img` or a `br`. |
| Parser.ScanShape | src/api/src/create_book/parser.py:19-48 | Every node one paragraph adds is a `p`, an `img` or a `br`. |
| PartHtml.GenerateCleanPartHtml | src/api/src/create_book/utils.py:24-85 | Succeeds exactly when every paragraph's rebuild does. The result is then the templated section followed by each paragraph's nodes, in paragraph order. |
| PartHtml.AppendRebuiltParagraph | src/api/src/create_book/utils.py:49-79 | Appends exactly what one paragraph produces (hoisted images, then the rebuilt paragraph), or fails on an `img` without `src`. |
| PartHtml.HeadingFor | src/api/src/create_book/utils.py:29-36 | The `h1` has `id` equal to the part's id rendered in decimal, class `chapter-title`, and text equal to the part's title. |
| Html.IntToStringRoundTrip | src/api/src/create_book/utils.py:31-32 | The decimal rendering used in the `id` attributes reads back as the id itself. |
| Html.IntToStringInjective | src/api/src/create_book/utils.py:31-32 | Distinct part ids give distinct `id` attributes. |
| PartHtml.SectionFor | src/api/src/create_book/utils.py:29-36 | The section has `id` `section_<id>` and class `chapitre`. Its children are the template's whitespace, the `h1` and whitespace, then exactly the appended nodes. |
| PartHtml.StyleOrDefault | src/api/src/create_book/utils.py:52 | The new paragraph's style is the original value when the key is present, and `text-align: left;` otherwise. |
| PartHtml.ImageOnlySrc | src/api/src/create_book/utils.py:60-63 | A hoisted image has no attribute but the original `src`. |
| PartHtml.Carried | src/api/src/create_book/utils.py:66-76 | `b`/`i` children are flattened into same-named tags with no attributes whose only child is one string holding the original's text. Strings and other tags are carried as they are. |
| PartHtml.RebuildAllAppend | src/api/src/create_book/utils.py:48-79 | The section only receives appends: paragraphs `a + b` add `a`'s nodes then `b`'s, and an error in `a` is final. |
| PartHtml.ScanParagraphAppend | src/api/src/create_book/utils.py:54-76 | Scanning children `a + b` hoists and keeps `a`'s contributions followed by `b`'s. |
| PartHtml.BreakContributesNothing | src/api/src/create_book/utils.py:58-59 | A `br` child anywhere in a paragraph contributes nothing. |
| PartHtml.ScanFailsIffMissingSrc | src/api/src/create_book/utils.py:60-61 | A paragraph's rebuild fails exactly when one of its children is an `img` without `src`. |
| PartHtml.ScanHoistsImages | src/api/src/create_book/utils.py:60-65 | The hoisted nodes are, for each `img` child in order, an `img` with only its `src` followed by a bare `br`, and nothing else. |
| PartHtml.ScanKeepsContents | src/api/src/create_book/utils.py:54-76 | The new paragraph's contents are the non-empty strings and the tags other than `br`/`img`, in order, each carried over. |
| PartHtml.RebuiltParagraphShape | src/api/src/create_book/utils.py:49-79 | One paragraph adds its hoisted images first. It then adds a `p` styled with the original or default style, exactly when some child is kept; that `p`'s children are the scan's contents, one per kept child. |
| Trim.SplitLines | src/api/src/create_book/utils.py:11 | `split("\n")` gives at least one piece, none contains a newline, and joining the pieces with newlines gives back the text. |
| Trim.Chunks | src/api/src/create_book/utils.py:11 | The chunks are non-empty and newline-free, and every non-empty piece of the split is among them. |
| Trim.NonEmptyAppend | src/api/src/create_book/utils.py:11 | The filter keeps order: the non-empty pieces of `a + b` are those of `a` followed by those of `b`. |
| Trim.NonEmptySingle | src/api/src/create_book/utils.py:11 | One piece is kept exactly when it is non-empty. |
| Strings.RStrip | src/api/src/create_book/utils.py:18 | `rstrip(chars)` returns a prefix that does not end in `chars`, and every removed character is in `chars`. |
| Trim.SmartTrim | src/api/src/create_book/utils.py:9-21 | The loop computes the as-written trim of the non-empty lines. |
| Trim.TrimmedEmpty | src/api/src/create_book/utils.py:11-19 | The result is empty when there is no non-empty line, or when the first one is at least `max_length` long. |
| Trim.TrimmedAllFit | src/api/src/create_book/utils.py:14-16 | When every line passes the check, the result is the last line followed by `<br />`. |
| Trim.TrimmedOneLine | src/api/src/create_book/utils.py:14-19 | The result is empty, or one line plus `<br />`, or that string right-stripped of the `<br />` characters. |
| Trim.TrimmedBounds | src/api/src/create_book/utils.py:11-19 | The result contains no newline, and a non-empty result is shorter than `max_length + 6`. |
| Trim.SmartTrimDropsEarlierLines | src/api/src/create_book/utils.py:16 | On `"a\nb"` the code returns `b<br />`, while the accumulating version returns `a<br />b<br />`. |
| Trim.SmartTrimStripsIntoLine | src/api/src/create_book/utils.py:18 | On `"ab\nc"` with limit 3 the code returns `a`, while the intended version returns `ab`. |
| Trim.TrimmedIntendedKeepsLines | src/api/src/create_book/utils.py:13-19 | The intended trim keeps whole first lines in order: all of them when all fit, or else exactly those before the first line that does not fit, minus the last `<br />`. |
| Trim.SmartTrimIntended | src/api/src/create_book/utils.py:13-19 | The corrected loop computes the intended trim and keeps whole first lines as above. |
| Slug.Lower | src/api/src/create_book/utils.py:107 | Each character is lower-cased: `A`-`Z` map to `a`-`z` and nothing else changes. |
| Slug.RemoveDisallowed | src/api/src/create_book/utils.py:107 | Only word characters, whitespace and `-` of the input remain. |
| Slug.RemoveDisallowedChar | src/api/src/create_book/utils.py:107 | A single character is kept exactly when it is a word character, whitespace or `-`. |
| Slug.RemoveDisallowedAppend | src/api/src/create_book/utils.py:107 | The filter keeps order: filtering `a + b` is filtering `a`, then `b`. |
| Slug.CollapseSeparators | src/api/src/create_book/utils.py:108 | The result is empty exactly when the input is, and starts with `-` when the input starts with a separator, otherwise with the input's first character. |
| Slug.CollapseShape | src/api/src/create_book/utils.py:108 | No whitespace and no `--` remain, and every other character comes from the input. |
| Slug.CollapseKeepsNonSeparators | src/api/src/create_book/utils.py:108 | The non-separators of the result are exactly those of the input, in order. |
| Slug.CollapseAppend | src/api/src/create_book/utils.py:108 | Collapsing distributes over a cut made just after a non-separator. |
| Slug.CollapseRun | src/api/src/create_book/utils.py:108 | A non-empty run of separators followed by a non-separator collapses to a single `-`. |
| Slug.CollapseJoin | src/api/src/create_book/utils.py:108 | A separator run between two stretches becomes one `-` between their collapses. |
| Strings.Strip | src/api/src/create_book/utils.py:108 | The result is a slice that neither starts nor ends with a stripped character, every character removed on either side is a stripped character, and the input comes back unchanged when it already does not start or end with one. |
| Slug.Slugify | src/api/src/create_book/utils.py:88-108 | For ASCII input the result uses only `a-z`, `0-9`, `_`, `-`, has no `--`, and does not start or end with `-` or `_`. |
| Slug.SlugIsFixed | src/api/src/create_book/utils.py:98-108 | A well-formed slug is returned unchanged. |
| Slug.SlugifyIdempotent | src/api/src/create_book/utils.py:98-108 | `slugify(slugify(v)) == slugify(v)`. |
| Slug.SlugifyKeepsAlnums | src/api/src/create_book/utils.py:107-108 | Every letter and digit of the lower-cased input is in the slug, in order, and the slug has no other letters or digits. |
| Slug.SlugifyKeepsWordChars | src/api/src/create_book/utils.py:107-108 | The slug's characters other than `-` are the input's word characters, lower-cased and in order, with only the underscores at either end removed. |
| Slug.SlugifyJoin | src/api/src/create_book/utils.py:107-108 | Two slugs separated by any run of whitespace and dashes become the two slugs joined by exactly one `-`. |
| Slug.LowerKeepsLower | src/api/src/create_book/utils.py:107 | Lower-casing leaves a string without capitals unchanged. |
| Slug.RemoveDisallowedKeepsKept | src/api/src/create_book/utils.py:107 | The filter leaves a string of allowed characters unchanged. |
| Slug.CollapseKeepsCollapsed | src/api/src/create_book/utils.py:108 | Collapsing leaves a string without whitespace and without `--` unchanged. |

## Left out

- HTML parsing and serialisation by BeautifulSoup, `lxml` and `html.parser`
  (parser.py:5-9, utils.py:29-38). The model starts from the parsed tree:
  - for `clean_tree`, the children of `<body>`;
  - for `generate_clean_part_html`, the list `find_all("p")` returns.

  Implicit `html`/`body` wrapping, tag lower-casing, entity decoding, markup
  inside a part title and multi-valued `class` attributes are therefore not
  modelled. Comments are parser output too: they are strings and are treated
  as text, except inside a flattened `b`/`i` (see `PartHtml.Carried` below).
- Parser.CleanTree: the model takes the children of a parsed `<body>` as its
  input, so it assumes that `<body>` exists. The source calls `.children` on
  `find("body")` (parser.py:13), which is `None` when the document has no
  `<body>`, e.g. an empty string; there it raises `AttributeError` before any
  block is read, and the model has no such error case.
- PartHtml.Carried: a comment inside a `b`/`i` is kept by `TextContent`, so
  `<p><b>x<!--c-->y</b></p>` gives `<b>xcy</b>` in the model. The source's
  `p_child.text` (utils.py:68) collects only text strings and skips comments,
  giving `<b>xy</b>`. The model does not distinguish comments from text.
- Parser.CleanTree: the `print(tag.name)` diagnostic (parser.py:15) is a side
  effect only and is dropped. The `html`/`body` wrapper of the returned soup is
  not modelled; the result is the heading and the section.
- Parser.CleanTree: clearing `tag.attrs` in place and moving the `p` out of the
  original tree are modelled by value. The original tree is not returned, so
  the aliasing is unobservable here.
- PartHtml.GenerateCleanPartHtml: the two tree-cleaning passes that only
  mutate the input tree are not modelled:
  - the pre-pass that deletes a `br` with nothing after it (utils.py:39-42);
  - the deletion of emptied `p` tags (utils.py:81-83).

  A `br` child of a paragraph is dropped by the scan either way. The model
  differs only for a `br` nested inside another tag that is carried over as
  it is, which the pre-pass may have removed. The
  `raise Exception()` for a missing section (utils.py:45-46) cannot fire,
  because the template always contains one.
- PartHtml.GenerateCleanPartHtml: `find_all("p")` also returns nested
  paragraphs, and moving a child into the new paragraph detaches it from a
  paragraph visited later. The model takes the list as given and treats
  paragraphs independently.
- Slug.Slugify: requires ASCII input and models `allow_unicode=False` only.
  NFKD/NFKC normalisation and Unicode `\w`/`\s` need the Unicode tables.
  `str(value)` is taken to be the string itself.
- The rest of `create_book` is not part of this model: network fetches and
  caching, the PDF and EPUB generators, and the `Part` typed dictionary
  beyond its `id` and `title`.

## Findings

| source | as written | input that shows it | evidently intended | confidence | as-written member | corrected member |
|---|---|---|---|---|---|---|
| src/api/src/create_book/utils.py:16 | `to_return = chunk + "<br />"` replaces the result, so only the last accepted line survives | `smart_trim("a\nb")` gives `"b<br />"` | `to_return += chunk + "<br />"`: the fitting first lines are kept, giving `"a<br />b<br />"` | high, not executed | Trim.SmartTrimDropsEarlierLines | Trim.SmartTrimIntended |
| src/api/src/create_book/utils.py:18 | `rstrip("<br />")` strips any trailing `<`, `b`, `r`, space, `/` or `>`, eating into the line's own text | `smart_trim("ab\nc", 3)` gives `"a"` | `removesuffix("<br />")`, giving `"ab"` | high, not executed | Trim.SmartTrimStripsIntoLine | Trim.TrimmedIntendedKeepsLines |
