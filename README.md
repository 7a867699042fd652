# A verified model of a small Markdown-to-HTML pipeline

The program turns a Markdown document into a tree of HTML nodes in three stages:

- **Inline spans** (`src/textnode.py`, module `TextNodes`). A `TextNode` is a run
  of text with a type (TEXT, BOLD, ITALIC, CODE, LINK, IMAGE) and an optional url.
  `split_nodes_delimiter` scans each TEXT node character by character and cuts it
  at a delimiter (`*`, `**` or a backtick) into plain and typed nodes. It raises a
  `SyntaxError` when the delimiters do not pair up. `split_nodes_images_and_links`
  finds `![alt](url)` and `[text](url)` with two regular expressions, searches the
  text again for every match it found, sorts the parts and cuts the text around
  them. `from_markdown` runs the `*`, `**` and backtick passes and then the image
  and link pass.
- **HTML nodes** (`src/htmlnode.py`, module `HtmlNodes`). There are three node
  classes: `HTMLNode`, `LeafNode` and `ParentNode`. Their attributes are written as
  ` key="value"`, and `to_html` serialises a tree or raises: the base class always
  raises, a leaf raises without a value, and a parent raises without a tag or
  without children. `text_node_to_html_node` maps every inline type to a leaf.
- **Blocks** (`src/utils.py`, module `Utils`). `markdown_to_blocks` cuts a document
  at empty lines. `block_to_block_type` names one of six block kinds by rules
  applied in order. `block_to_html_node` is a stub that gives a bare `HTMLNode()`
  for every kind. `markdown_to_html_node` wraps one node per block in a `div`.

Every `for` and `while` loop of the program is a method proved equal to a
specification function. The `all(...)` generator tests in `src/utils.py` are the
predicates `AllQuoted`, `AllBulleted` and `AllNumbered`.
The properties the program promises are lemmas about those functions. The Python
string operations the code relies on (`startswith`, slicing, `replace(…, 1)`,
`strip`, `split`, `splitlines`, `str(n)`, string order) are written out in module
`Strings`. Python's `None` and raised exceptions are modelled with `Option` and
`Result` in module `Wrappers`.

## Model

| member | source | states |
|---|---|---|
| TextNodes.SplitNodesDelimiter | src/textnode.py:81-124 | the result is the delimiter pass over the nodes in order: each TEXT node is scanned and emitted as its plain and typed pieces, every other node is kept, and the first TEXT node with an odd delimiter count makes the whole call fail |
| TextNodes.ScanText | src/textnode.py:84-108 | the parts and the delimiter count are those of `Parts`: a leading delimiter opens with an empty part, `**` is kept literally on the `*` pass, empty parts between delimiters are dropped, and the final part is always appended. The leading check comes before the `**` guard, as written |
| TextNodes.EmitPairs | src/textnode.py:113-119 | the nodes are the (text, typed) pairs `parts[2j]`, `parts[2j+1]` (with "" when the typed part is missing), empty parts are dropped, and a typed part loses its first remaining delimiter |
| TextNodes.DelimiterPassConcat | src/textnode.py:82-124 | the pass over two lists in a row is the pass over the first, then the pass over the second; a failure in the first wins |
| TextNodes.DelimiterKeepsOthersInPlace | src/textnode.py:121-122 | a non-TEXT node comes out unchanged, in its place, between the results for the nodes before and after it, and it never causes a failure |
| TextNodes.DelimiterPassIdentity | src/textnode.py:82-124 | a list whose TEXT nodes are non-empty, have no url and hold no delimiter comes back unchanged; the empty list gives the empty list |
| TextNodes.NoDelimiterIdentity | src/textnode.py:95-117 | a TEXT node without the delimiter becomes exactly one identical TEXT node, or no node when its text is empty |
| TextNodes.DelimiterNoEmptyNodes | src/textnode.py:116-119 | every node the pass emits is either an original non-TEXT node or a node with non-empty text, no url, and type TEXT or the pass's type |
| TextNodes.DelimitedWhole | src/textnode.py:89-93 | a text that starts and ends with the delimiter and has none inside becomes a single typed node with no TEXT node |
| TextNodes.OneSpan | src/textnode.py:95-119 | `a` + delimiter + `m` + delimiter + `b` becomes TEXT `a`, typed `m`, TEXT `b`, with empty ends dropped |
| TextNodes.SingleCharDelimiterParity | src/textnode.py:110-111 | for a one-character delimiter other than `*`, the pass fails exactly when the character occurs an odd number of times |
| TextNodes.DelimiterParity | src/textnode.py:99-111 | for any delimiter other than `*`, the pass fails exactly when the number of non-overlapping left-to-right occurrences is odd |
| TextNodes.StarParity | src/textnode.py:89-111 | the `*` pass fails exactly when the stars outside `**` pairs are odd in number, where a leading star counts alone even when it begins a `**` (the code as written) |
| TextNodes.StarParityIntended | src/textnode.py:53-54 | with the leading check corrected, the `*` pass fails exactly when the stars outside `**` pairs are odd in number |
| TextNodes.StarPassKeepsPairs | src/textnode.py:96-98 | on the `*` pass, a text that does not start with a star and holds one `**…**` pair stays a single TEXT node |
| TextNodes.StarPassKeepsPairsIntended | src/textnode.py:53-54 | with the leading check corrected, a `**…**` pair stays a single TEXT node on the `*` pass wherever it stands, the start included |
| TextNodes.LeadingPairAsWritten | src/textnode.py:89-98 | on the `*` pass, `**m**b` gives the parts `""` and `m**b` with two delimiters counted, and so the single node ITALIC `m*b` |
| TextNodes.BoldAtStartAsWritten | src/textnode.py:38-42 | `from_markdown("**m**b")` gives the single node ITALIC `m*b` and no BOLD node |
| TextNodes.FindAllSound | src/textnode.py:199-209 | every pair the image or link pattern reports has groups without brackets (text) or parentheses (url), and its Markdown occurs in the text, for a link somewhere not right after a `!` |
| TextNodes.FindAllFinds | src/textnode.py:199-209 | well-formed image or link Markdown at index `i`, with no match between the search start and `i`, is reported first and the search goes on after it; a link needs no `!` right before it |
| TextNodes.OneLinkFound | src/textnode.py:207 | a text holding one link, with no `!` or `[` before it and no `[` after it, reports exactly that link |
| TextNodes.ImageNotLink | src/textnode.py:207 | the link pattern reports nothing for a text whose only bracket opens an image: the lookbehind rejects a `[` preceded by `!` |
| TextNodes.OccurrencesSound | src/textnode.py:162 | every start the literal re-search reports is a match at or after the search start, and the matches do not overlap |
| TextNodes.ExtractParts | src/textnode.py:155-179 | the parts are, for each reported pair in order, one part per literal occurrence of its Markdown, with span, groups and kind |
| TextNodes.AppendParts | src/textnode.py:174-178 | the inner loop appends one part per occurrence start, in order, after the parts already listed |
| TextNodes.PartsOfSound | src/textnode.py:155-179 | every extracted part is the Markdown of its groups written exactly at its span |
| TextNodes.SortPartsSound | src/textnode.py:188 | `sorted(parts)` gives the same parts as a multiset, ordered by the tuple (start, end, text, url, kind) |
| TextNodes.SplitTextByParts | src/textnode.py:181-197 | the nodes are the sorted parts' nodes with the non-empty text before, between and after them, each gap cut from the end of the previous part |
| TextNodes.SlicesShape | src/textnode.py:186-197 | the image and link nodes are exactly one per part, in the order of the parts, and every TEXT node between them is non-empty and has no url |
| TextNodes.SlicesReconstruct | src/textnode.py:186-197 | for parts that sit where their Markdown is and do not overlap, the Markdown of the nodes spells out the text from the starting index on |
| TextNodes.SplitNodesImagesAndLinks | src/textnode.py:140-153 | each TEXT node with parts is cut at its sorted image and link parts; a TEXT node without parts and every other node are kept as they are, in order |
| TextNodes.ImagesLinksKeepsOthersInPlace | src/textnode.py:151-152 | a non-TEXT node comes out unchanged, in its place, between the results for the nodes before and after it |
| TextNodes.NoBracketUnchanged | src/textnode.py:147-150 | a TEXT node without `[`, the empty one included, is returned unchanged |
| TextNodes.KeptIffNoMatches | src/textnode.py:143-150 | a TEXT node is returned as it is exactly when neither the image nor the link pattern reports a match |
| TextNodes.ImagesLinksRoundTrip | src/textnode.py:140-153 | when the sorted parts of a text do not overlap, the Markdown of the nodes made from it is the text again |
| TextNodes.DuplicateLinks | src/textnode.py:174-178 | the same link written twice gives four link nodes, because each reported pair is searched for again |
| TextNodes.FromMarkdown | src/textnode.py:27-43 | the result is the `*`, `**` and backtick passes and then the image and link pass, applied to one TEXT node; the first failing pass decides the error |
| TextNodes.PlainRoundTrip | src/textnode.py:38-43 | a text without `*`, backtick or `[` comes back as one TEXT node, or as no node when it is empty |
| TextNodes.ItalicSpan | src/textnode.py:38-42 | `a*m*b` becomes TEXT `a`, ITALIC `m`, TEXT `b` |
| TextNodes.BoldSpan | src/textnode.py:38-42 | `a**m**b` with `a` non-empty becomes TEXT `a`, BOLD `m`, TEXT `b`: the `*` pass keeps the pair and the `**` pass cuts it |
| TextNodes.CodeSpan | src/textnode.py:38-42 | a backtick span becomes TEXT, CODE, TEXT |
| TextNodes.LinkSpan | src/textnode.py:38-43 | text around one link becomes TEXT, LINK with its url, TEXT |
| TextNodes.ItalicAndBold | src/textnode.py:38-42 | an italic span followed by a bold span gives five nodes: TEXT, ITALIC, TEXT, BOLD, TEXT |
| HtmlNodes.PropsToHtml | src/htmlnode.py:39-50 | the attribute string is the ` key="value"` of each pair, concatenated in order |
| HtmlNodes.PropsStringEmpty | src/htmlnode.py:46-50 | the attribute string is empty exactly when there are no attributes; its length is that of the keys and values plus four characters per pair |
| HtmlNodes.PropsStringConcat | src/htmlnode.py:48-49 | the attributes of two runs of pairs are those of the first, then those of the second |
| HtmlNodes.ToHtml | src/htmlnode.py:121-187 | the result is `Render`: a leaf's value between its tags, `img` open only, an untagged leaf verbatim; a parent's children in order; the base class, a leaf without a value and a parent without tag or children fail |
| HtmlNodes.RenderSucceedsIff | src/htmlnode.py:30-187 | serialising succeeds exactly on well-formed trees: leaves with values, and parents with a tag and children that are all well-formed; the base class never succeeds |
| HtmlNodes.FirstFailingChild | src/htmlnode.py:179-181 | when a child fails, the parent fails with the error of the first failing child |
| HtmlNodes.ParentOutput | src/htmlnode.py:174-187 | a parent with a tag and children that all render gives its opening tag, its children's outputs in order, and its closing tag |
| HtmlNodes.OutputsConcat | src/htmlnode.py:179-181 | the children's output over two runs of children is the output of each run, in order |
| HtmlNodes.TextNodeToHtmlNode | src/htmlnode.py:61-98 | every inline node becomes a leaf with a value and the tag of its type; a link carries `href`, an image carries `src` and `alt` and the empty value, the other types carry no attribute |
| HtmlNodes.TagOfInjective | src/htmlnode.py:77-95 | different inline types get different tags |
| HtmlNodes.TextHtml | src/htmlnode.py:133-134 | a converted TEXT node serialises to its text, verbatim |
| HtmlNodes.EmphasisHtml | src/htmlnode.py:140-142 | a converted bold, italic or code node serialises to its text inside its tag |
| HtmlNodes.LinkHtml | src/htmlnode.py:86-89 | a converted link serialises to an anchor whose `href` is the url (`None` when there is none) |
| HtmlNodes.ImageHtml | src/htmlnode.py:90-95 | a converted image serialises to a bare `img` tag with `src` and `alt`, no value and no closing tag |
| Utils.MarkdownToBlocks | src/utils.py:40-69 | the blocks are those of `Blocks`: runs of non-empty lines, each line stripped and joined with line breaks, each block stripped |
| Utils.NoBlocks | src/utils.py:55-69 | the empty document has no blocks |
| Utils.BlocksSeparated | src/utils.py:59-64 | two documents joined by an empty line have the blocks of the first, then those of the second; runs of empty lines collapse |
| Utils.EmptyLineFlushes | src/utils.py:60-64 | an empty line emits the block being gathered (if any) and starts a new one |
| Utils.RunConcat | src/utils.py:59-66 | the loop over two runs of lines is the loop over the first, continued over the second |
| Utils.OneLine | src/utils.py:66-68 | a one-line document is one block, the stripped line |
| Utils.Paragraphs | src/utils.py:55-69 | one-line paragraphs separated by empty lines come back one block each, stripped, in order |
| Utils.BlocksStripped | src/utils.py:63-68 | no emitted block starts or ends with whitespace |
| Utils.BlocksNotEmpty | src/utils.py:60-68 | when no line is whitespace only, no emitted block is empty |
| Utils.BlockToBlockType | src/utils.py:72-115 | the label is always one of the six block kinds |
| Utils.HeadingWins | src/utils.py:105-106 | a block that starts with `#` is a heading, whatever follows |
| Utils.HeadingIff | src/utils.py:102-106 | a block is a heading exactly when its first line starts with `#` |
| Utils.SingleFence | src/utils.py:107-108 | a single fence line is a code block, being both its first and its last line |
| Utils.LabelsSound | src/utils.py:107-113 | each label tells what the lines are like: code is fenced on its first and last line, a quote has every line quoted, a list has every line bulleted or numbered 1, 2, 3, … |
| Utils.QuoteComplete | src/utils.py:109-110 | a block whose lines all start with `>` is a quote |
| Utils.UnorderedComplete | src/utils.py:111-112 | a block whose lines all start with `* ` or `- ` is an unordered list |
| Utils.OrderedComplete | src/utils.py:113-114 | a block whose line `i` starts with `i + 1`, a dot and a space is an ordered list |
| Utils.BlockToHtmlNode | src/utils.py:19-38 | every block gives a bare node; the raising branch is never taken, because the classifier gives only the six handled labels |
| Utils.MarkdownToHtmlNode | src/utils.py:7-17 | the result is a `div` parent whose children are the nodes of the blocks, in block order |
| Utils.BlockNodesShape | src/utils.py:12-16 | the `div` has exactly one child per block, each the bare node |
| Utils.DocumentNeverRenders | src/utils.py:16-17 | the document never serialises: with no blocks the `div` has no children, otherwise its first child is the base class |
| Strings.SplitLines | src/utils.py:102 | no line holds a line break, and a non-empty block has at least one line |
| Strings.ReplaceFirstSound | src/textnode.py:119 | `replace(d, "", 1)` leaves a string without `d` unchanged and otherwise removes exactly `len(d)` characters |
| Strings.ReplaceFirstAt | src/textnode.py:119 | `replace(d, "", 1)` takes out the first occurrence: when `d` occurs at `i` and at no earlier index, the result is the text before `i` followed by the text after that occurrence |
| Strings.StripIdempotent | src/utils.py:63-68 | `strip()` applied twice is `strip()` applied once |
| Strings.StripEmptyIff | src/utils.py:60-66 | `strip()` gives "" exactly when the string is all whitespace |
| Strings.JoinSplit | src/utils.py:56 | joining the pieces of a split at a character with that character gives the string back |
| Strings.PySlice | src/textnode.py:189-196 | a slice within bounds is the subsequence, and a reversed range is empty |

## Left out

- Strings.SplitLines: splits only at "\n". Python's `str.splitlines` also splits at "\r", "\r\n", "\v", "\f", "\x1c", "\x1d", "\x1e", "\x85", "\u2028" and "\u2029". So the block "```x\rfoo" is "code" here and "paragraph" in Python. Utils.BlockToBlockType and its lemmas hold for this line splitting only.
- HtmlNodes.PropsToHtml: attributes are a sequence of pairs in insertion order. A Python dict cannot hold a key twice, but the sequence can, so the model admits attribute lists the code is never given. `None` and `{}` are both the empty sequence.
- HtmlNodes.ToHtml: a tag of `None` is "" and children of `None` are the empty sequence. The code only asks whether they are truthy, so the outcome is the same. A leaf's value keeps `None` apart from "".
- HtmlNodes.PropsToHtml: attribute values are strings. Python's f-string would format any object. The one non-string the code passes, a missing url, is written as `None` by `UrlString`.
- The exception classes (`SyntaxError`, `ValueError`, `NotImplementedError`, `Exception`) become the failure side of a `Result`, with a small error datatype. Their message texts are not modelled.
- HtmlNodes.TextNodeToHtmlNode: the `TypeError` for an argument that is not a `TextNode` (src/htmlnode.py:98) and the "Text type not supported" branch (src/htmlnode.py:96-97) are left out. The argument is typed and the six inline types form a closed datatype, so neither can arise.
- `TextNode.__eq__` raising `TypeError` for a non-`TextNode` operand, and the `__repr__` methods: dynamic typing and formatting only. Node equality is Dafny's structural equality over the three fields.
- TextNodes.SplitNodesDelimiter: requires a non-empty delimiter. With "", the Python loop never advances on a non-empty text (it adds 0 to the index), so it never returns; on "" it raises. A call that does not return cannot be given as a result. `from_markdown` passes only non-empty delimiters.
- An unmatched delimiter fails, as the code raises at src/textnode.py:110-111. The test at src/test_textnode.py:70-73 expects the node back unchanged; the model follows the code.
- TextNodes.ImagesLinksRoundTrip: holds only when the sorted parts do not overlap. When the same Markdown is found twice, each copy is listed twice and the copies repeat in the output (`DuplicateLinks`), as in Python.
- Python's `re` engine: the two patterns are written as left-to-right scanners (`BracketAt`, `MarkupAt`, `FindAll`). The literal re-search with `finditer` is `Occurrences`.
- `strip()` removes the characters of Python's `str.isspace` (`Strings.IsSpace`). There is no other Unicode handling.
- `src/main.py` and all printing: output only, no logic.
- Heading, code, quote and list translation into HTML: `block_to_html_node` (src/utils.py:19-38) is a stub, and the model follows it.

## Findings

| source | as written | input that shows it | evidently intended | confidence | as-written member | corrected member |
|---|---|---|---|---|---|---|
| src/textnode.py:89-96 | the leading-delimiter check `startswith(delimiter)` runs before the `**` guard, so on the `*` pass a text opening with `**` counts its first star as an opening delimiter | `"**bold**"` on the `*` pass gives `[ITALIC "bold*"]`, and `from_markdown("**bold**")` gives the same, with no BOLD node | a leading `**` is a literal pair on the `*` pass, as the docstring at src/textnode.py:53-54 says, so `from_markdown("**bold**")` gives `[BOLD "bold"]` | not executed | TextNodes.BoldAtStartAsWritten | TextNodes.StarPassKeepsPairsIntended |

The passes follow the code as written. The as-written behaviour is shown by
`LeadingPairAsWritten`, `BoldAtStartAsWritten` and `StarParity`. The corrected scan
is `PartsIntended` with `DelimiterSplitIntended`, and `StarPassKeepsPairsIntended`
and `StarParityIntended` are proved about it.
