/** The block level of the pipeline: cutting a document into blocks, naming the kind
    of each block, and wrapping one node per block in a `div`. */
module Utils {
  import opened Wrappers
  import opened Strings
  import opened HtmlNodes

  //////////////////////////////////////////////////////////////////////////////
  // markdown_to_blocks
  //////////////////////////////////////////////////////////////////////////////

  /** What the loop of `markdown_to_blocks` carries from line to line: the blocks
      emitted so far and the block being gathered. */
  datatype Gather = Gather(blocks: seq<string>, block: string)

  /** One line of the loop. The code tests `line.strip("\n") == ""`, and a piece of
      a split at "\n" holds no "\n", so the test is that the line is empty: an
      empty line closes the gathered block (when there is one), any other line,
      even one of spaces only, is stripped and added with a line break. */
  function Step(g: Gather, line: string): Gather {
    if line == "" then
      if g.block == "" then g else Gather(g.blocks + [Strip(g.block)], "")
    else Gather(g.blocks, g.block + Strip(line) + "\n")
  }

  /** The loop run over `lines` from the state `g`. */
  function Run(g: Gather, lines: seq<string>): Gather {
    if lines == [] then g else Step(Run(g, lines[..|lines| - 1]), lines[|lines| - 1])
  }

  /** The state before the first line. */
  const Start := Gather([], "")

  /** After the loop, a block still being gathered is emitted stripped. */
  function Finish(g: Gather): seq<string> {
    if g.block != "" then g.blocks + [Strip(g.block)] else g.blocks
  }

  /** The blocks of a document. */
  function Blocks(markdown: string): seq<string> {
    Finish(Run(Start, Split(markdown, '\n')))
  }

  /** `markdown_to_blocks`: splits the document into lines and gathers the runs of
      non-empty lines into blocks. */
  method MarkdownToBlocks(markdown: string) returns (blocks: seq<string>)
    ensures blocks == Blocks(markdown)
  {
    blocks := [];
    var lines := Split(markdown, '\n');
    var block := "";
    for i := 0 to |lines|
      invariant Gather(blocks, block) == Run(Start, lines[..i])
    {
      assert lines[..i + 1][..i] == lines[..i];
      var line := lines[i];
      if line == "" {
        if block == "" {
          continue;
        }
        blocks := blocks + [Strip(block)];
        block := "";
      } else {
        block := block + Strip(line) + "\n";
      }
    }
    assert lines[..|lines|] == lines;
    if block != "" {
      blocks := blocks + [Strip(block)];
    }
  }

  /** Running the loop over two runs of lines is running it over the first, then
      over the second from where the first left off. */
  lemma {:induction false} RunConcat(g: Gather, a: seq<string>, b: seq<string>)
    ensures Run(g, a + b) == Run(Run(g, a), b)
    decreases |b|
  {
    if b == [] {
      assert a + b == a;
    } else {
      assert (a + b)[..|a + b| - 1] == a + b[..|b| - 1];
      RunConcat(g, a, b[..|b| - 1]);
    }
  }

  /** Blocks emitted before do not affect what the loop does next. */
  lemma {:induction false} RunShift(done: seq<string>, g: Gather, lines: seq<string>)
    ensures Run(Gather(done + g.blocks, g.block), lines)
            == Gather(done + Run(g, lines).blocks, Run(g, lines).block)
    decreases |lines|
  {
    if lines != [] {
      var init := lines[..|lines| - 1];
      RunShift(done, g, init);
      StepShift(done, Run(g, init), lines[|lines| - 1]);
    }
  }

  /** One line of the loop after earlier blocks: those blocks, then what the line
      makes. */
  lemma StepShift(done: seq<string>, h: Gather, line: string)
    ensures Step(Gather(done + h.blocks, h.block), line)
            == Gather(done + Step(h, line).blocks, Step(h, line).block)
  {
    if line == "" && h.block != "" {
      var b := Strip(h.block);
      assert done + h.blocks + [b] == done + (h.blocks + [b]);
    }
  }

  /** An empty line ends the gathered block: afterwards the state holds every
      block the lines so far make, and nothing is being gathered. */
  lemma EmptyLineFlushes(g: Gather)
    ensures Step(g, "") == Gather(Finish(g), "")
  {
  }

  /** The lines of documents joined by an empty line: those of the first, an empty
      one, those of the second. */
  lemma SplitSeparated(a: string, b: string)
    ensures Split(a + "\n\n" + b, '\n') == Split(a, '\n') + ([""] + Split(b, '\n'))
  {
    assert a + "\n\n" + b == a + ['\n'] + ([] + ['\n'] + b);
    SplitConcat(a, '\n', [] + ['\n'] + b);
    SplitConcat([], '\n', b);
    assert Split([], '\n') == [""];
  }

  /** The loop over lines `la`, an empty line, then `lb`: after the empty line it
      starts over on `lb` with the blocks of `la` done. */
  lemma RunSeparated(la: seq<string>, lb: seq<string>)
    ensures Run(Start, la + ([""] + lb)) == Run(Gather(Finish(Run(Start, la)), ""), lb)
  {
    RunConcat(Start, la, [""] + lb);
    RunConcat(Run(Start, la), [""], lb);
    assert [""][..0] == [];
  }

  /** Finishing after earlier blocks gives those blocks, then the rest. */
  lemma FinishShift(done: seq<string>, g: Gather)
    ensures Finish(Gather(done + g.blocks, g.block)) == done + Finish(g)
  {
    if g.block != "" {
      var b := Strip(g.block);
      assert done + g.blocks + [b] == done + (g.blocks + [b]);
    }
  }

  /** Documents joined by an empty line have the blocks of the first, then the
      blocks of the second. */
  lemma BlocksSeparated(a: string, b: string)
    ensures Blocks(a + "\n\n" + b) == Blocks(a) + Blocks(b)
  {
    var la, lb := Split(a, '\n'), Split(b, '\n');
    var x := Finish(Run(Start, la));
    var e := Run(Start, lb);
    SplitSeparated(a, b);
    RunSeparated(la, lb);
    RunShift(x, Start, lb);
    assert Gather(x + Start.blocks, Start.block) == Gather(x, "");
    FinishShift(x, e);
  }

  /** A document of one line is one block, that line stripped. A line of spaces
      only is therefore an empty block, not a separator. */
  lemma OneLine(s: string)
    requires s != "" && '\n' !in s
    ensures Blocks(s) == [Strip(s)]
  {
    SplitWithoutSep(s, '\n');
    assert [s][..0] == [];
    var t := Strip(s);
    assert Run(Start, [s]) == Gather([], "" + t + "\n");
    OneLineBlock(s);
  }

  /** The block a single line gathers, stripped, is the stripped line. */
  lemma OneLineBlock(s: string)
    ensures Strip("" + Strip(s) + "\n") == Strip(s)
  {
    var t := Strip(s);
    var n := "\n";
    assert AllSpace(n) by {
      assert n[0] == '\n';
    }
    assert "" + t + "\n" == t + n;
    if t == "" {
      assert t + n == n;
      StripEmptyIff(n);
    } else {
      StripTrailingSpace(t, n);
    }
  }

  /** The empty document has no blocks. */
  lemma NoBlocks()
    ensures Blocks("") == []
  {
    assert Split("", '\n') == [""];
    assert [""][..0] == [];
  }

  /** One-line paragraphs separated by empty lines come back as blocks, one per
      paragraph, each stripped. */
  lemma {:induction false} Paragraphs(ps: seq<string>)
    requires forall k :: 0 <= k < |ps| ==> ps[k] != "" && '\n' !in ps[k]
    ensures |Blocks(Join(ps, "\n\n"))| == |ps|
    ensures forall k :: 0 <= k < |ps| ==> Blocks(Join(ps, "\n\n"))[k] == Strip(ps[k])
  {
    if ps == [] {
      NoBlocks();
    } else if |ps| == 1 {
      OneLine(ps[0]);
    } else {
      Paragraphs(ps[1..]);
      OneLine(ps[0]);
      BlocksSeparated(ps[0], Join(ps[1..], "\n\n"));
    }
  }

  /** A line that is neither empty nor all whitespace. */
  predicate Visible(line: string) {
    line != "" && !AllSpace(line)
  }

  /** No line is whitespace only: each line is empty or holds a visible character. */
  predicate NoBlankLines(lines: seq<string>) {
    forall k :: 0 <= k < |lines| ==> lines[k] == "" || Visible(lines[k])
  }

  /** Each emitted block has nothing left to strip. */
  lemma {:induction false} RunStripped(lines: seq<string>)
    ensures forall k :: 0 <= k < |Run(Start, lines).blocks| ==> Stripped(Run(Start, lines).blocks[k])
    decreases |lines|
  {
    if lines != [] {
      var init := lines[..|lines| - 1];
      RunStripped(init);
      StepStripped(Run(Start, init), lines[|lines| - 1]);
    }
  }

  /** A line of the loop keeps every emitted block stripped. */
  lemma StepStripped(g: Gather, line: string)
    requires forall k :: 0 <= k < |g.blocks| ==> Stripped(g.blocks[k])
    ensures forall k :: 0 <= k < |Step(g, line).blocks| ==> Stripped(Step(g, line).blocks[k])
  {
    if line == "" && g.block != "" {
      var bs := g.blocks + [Strip(g.block)];
      forall k | 0 <= k < |bs|
        ensures Stripped(bs[k])
      {
        if k < |g.blocks| {
          assert bs[k] == g.blocks[k];
        }
      }
    }
  }

  /** Every block has been stripped: no block starts or ends with whitespace. */
  lemma BlocksStripped(markdown: string)
    ensures forall k :: 0 <= k < |Blocks(markdown)| ==> Stripped(Blocks(markdown)[k])
  {
    RunStripped(Split(markdown, '\n'));
  }

  /** While no line is whitespace only, the gathered block is empty or holds a
      visible character, and no emitted block is empty. */
  lemma {:induction false} RunVisible(lines: seq<string>)
    requires NoBlankLines(lines)
    ensures var g := Run(Start, lines);
            (g.block == "" || !AllSpace(g.block)) && forall k :: 0 <= k < |g.blocks| ==> g.blocks[k] != ""
    decreases |lines|
  {
    if lines != [] {
      var init := lines[..|lines| - 1];
      RunVisible(init);
      var g := Run(Start, init);
      var line := lines[|lines| - 1];
      if line == "" {
        if g.block != "" {
          StripEmptyIff(g.block);
        }
      } else {
        StripEmptyIff(line);
        var t := Strip(line);
        assert !AllSpace(t) by {
          assert !IsSpace(t[0]);
        }
        NotAllSpaceConcat(g.block, t);
        NotAllSpaceConcat(g.block + t, "\n");
      }
    }
  }

  /** When no line of the document is whitespace only, no block is empty. */
  lemma BlocksNotEmpty(markdown: string)
    requires NoBlankLines(Split(markdown, '\n'))
    ensures forall k :: 0 <= k < |Blocks(markdown)| ==> Blocks(markdown)[k] != ""
  {
    var g := Run(Start, Split(markdown, '\n'));
    RunVisible(Split(markdown, '\n'));
    if g.block != "" {
      StripEmptyIff(g.block);
    }
  }

  //////////////////////////////////////////////////////////////////////////////
  // block_to_block_type
  //////////////////////////////////////////////////////////////////////////////

  /** The six kinds of block the classifier names. */
  const Labels: set<string> :=
    {"heading", "code", "quote", "unordered_list", "ordered_list", "paragraph"}

  predicate AllQuoted(lines: seq<string>) {
    forall k :: 0 <= k < |lines| ==> StartsWith(lines[k], ">")
  }

  predicate AllBulleted(lines: seq<string>) {
    forall k :: 0 <= k < |lines| ==> StartsWith(lines[k], "* ") || StartsWith(lines[k], "- ")
  }

  /** Line `k` (counted from 0) starts with `k + 1` and a dot and a space. */
  predicate AllNumbered(lines: seq<string>) {
    forall k :: 0 <= k < |lines| ==> StartsWith(lines[k], Decimal(k + 1) + ". ")
  }

  /** `block_to_block_type`: the first rule that fits, in order: no lines, a `#`
      first line, a fence on the first and the last line, all lines quoted, all
      bulleted, all numbered from 1; otherwise a paragraph. */
  function BlockToBlockType(block: string): (r: string)
    ensures r in Labels
  {
    var lines := SplitLines(block);
    if |lines| == 0 then "paragraph"
    else if StartsWith(lines[0], "#") then "heading"
    else if StartsWith(lines[0], "```") && StartsWith(lines[|lines| - 1], "```") then "code"
    else if AllQuoted(lines) then "quote"
    else if AllBulleted(lines) then "unordered_list"
    else if AllNumbered(lines) then "ordered_list"
    else "paragraph"
  }

  /** The first line of a block starts with whatever line-break-free text the block
      starts with. */
  lemma FirstLine(block: string, p: string)
    requires StartsWith(block, p) && p != "" && '\n' !in p
    ensures |SplitLines(block)| > 0 && StartsWith(SplitLines(block)[0], p)
  {
    SplitHead(block, '\n', p);
    if block[|block| - 1] == '\n' {
      LastPieceEmpty(block);
    }
  }

  /** A block that starts with `#` is a heading, whatever follows. */
  lemma HeadingWins(block: string)
    requires StartsWith(block, "#")
    ensures BlockToBlockType(block) == "heading"
  {
    FirstLine(block, "#");
  }

  /** A heading is a block whose first line starts with `#`, and only that. */
  lemma HeadingIff(block: string)
    ensures BlockToBlockType(block) == "heading"
            <==> |SplitLines(block)| > 0 && StartsWith(SplitLines(block)[0], "#")
  {
  }

  /** A single fence line is a code block: it is both its first and its last line. */
  lemma SingleFence(rest: string)
    requires '\n' !in rest
    ensures BlockToBlockType("```" + rest) == "code"
  {
    var b := "```" + rest;
    assert '\n' !in b by {
      assert forall k :: 0 <= k < |b| ==> b[k] == if k < 3 then '`' else rest[k - 3];
    }
    SplitWithoutSep(b, '\n');
    assert b[|b| - 1] != '\n';
    assert SplitLines(b) == [b];
    assert b[..1] == "`";
  }

  /** Every label tells what the lines are like: a quote has every line quoted, an
      unordered list every line bulleted, an ordered list every line numbered in
      sequence from 1, and code opens with a fence. */
  lemma LabelsSound(block: string)
    ensures var lines := SplitLines(block);
            var r := BlockToBlockType(block);
            && (r == "code" ==> |lines| > 0 && StartsWith(lines[0], "```") && StartsWith(lines[|lines| - 1], "```"))
            && (r == "quote" ==> |lines| > 0 && AllQuoted(lines))
            && (r == "unordered_list" ==> |lines| > 0 && AllBulleted(lines))
            && (r == "ordered_list" ==> |lines| > 0 && AllNumbered(lines))
  {
  }

  /** A block whose lines are all quoted is a quote. */
  lemma QuoteComplete(block: string)
    requires |SplitLines(block)| > 0 && AllQuoted(SplitLines(block))
    ensures BlockToBlockType(block) == "quote"
  {
    var first := SplitLines(block)[0];
    assert StartsWith(first, ">");
    assert first[0] == '>';
  }

  /** A block whose lines are all bulleted is an unordered list. */
  lemma UnorderedComplete(block: string)
    requires |SplitLines(block)| > 0 && AllBulleted(SplitLines(block))
    ensures BlockToBlockType(block) == "unordered_list"
  {
    var lines := SplitLines(block);
    assert lines[0][0] == '*' || lines[0][0] == '-' by {
      assert StartsWith(lines[0], "* ") || StartsWith(lines[0], "- ");
    }
    assert !StartsWith(lines[0], ">");
  }

  /** A block whose lines are numbered 1, 2, 3, ... is an ordered list. */
  lemma OrderedComplete(block: string)
    requires |SplitLines(block)| > 0 && AllNumbered(SplitLines(block))
    ensures BlockToBlockType(block) == "ordered_list"
  {
    var lines := SplitLines(block);
    var d := Decimal(1) + ". ";
    assert StartsWith(lines[0], d);
    assert lines[0][0] == d[0] && '0' <= d[0] <= '9';
    assert !StartsWith(lines[0], "#") && !StartsWith(lines[0], "```") && !StartsWith(lines[0], ">");
    assert !StartsWith(lines[0], "* ") && !StartsWith(lines[0], "- ");
  }

  //////////////////////////////////////////////////////////////////////////////
  // block_to_html_node and markdown_to_html_node
  //////////////////////////////////////////////////////////////////////////////

  /** The bare `HTMLNode()` every block becomes. */
  const EmptyNode := Base("", None, [], [])

  /** `block_to_html_node`: dispatches on the block's label, translates nothing and
      returns a bare node; an unknown label raises. The classifier only gives the
      six handled labels, so the raising branch is never taken. */
  function BlockToHtmlNode(block: string): (r: Result<HtmlNode, string>)
    ensures r == Success(EmptyNode)
  {
    match BlockToBlockType(block)
    case "heading" => Success(EmptyNode)
    case "code" => Success(EmptyNode)
    case "quote" => Success(EmptyNode)
    case "unordered_list" => Success(EmptyNode)
    case "ordered_list" => Success(EmptyNode)
    case "paragraph" => Success(EmptyNode)
    case _ => Failure("Markdown format could not be identified for block: " + block)
  }

  /** The nodes of the blocks, in block order, as the loop appends them. */
  function BlockNodes(blocks: seq<string>): seq<HtmlNode> {
    if blocks == [] then []
    else BlockNodes(blocks[..|blocks| - 1]) + [BlockToHtmlNode(blocks[|blocks| - 1]).value]
  }

  /** The document: a `div` holding the nodes of the blocks. */
  function Document(markdown: string): HtmlNode {
    Parent(BlockNodes(Blocks(markdown)), "div", [])
  }

  /** `markdown_to_html_node`: one node per block, in order, under a `div`. */
  method MarkdownToHtmlNode(markdown: string) returns (r: HtmlNode)
    ensures r == Document(markdown)
  {
    var blocks := MarkdownToBlocks(markdown);
    var htmlNodes := [];
    for i := 0 to |blocks|
      invariant htmlNodes == BlockNodes(blocks[..i])
    {
      assert blocks[..i + 1][..i] == blocks[..i];
      var node := BlockToHtmlNode(blocks[i]);
      htmlNodes := htmlNodes + [node.value];
    }
    assert blocks[..|blocks|] == blocks;
    r := Parent(htmlNodes, "div", []);
  }

  /** The document has exactly one child per block, each the bare node. */
  lemma {:induction false} BlockNodesShape(blocks: seq<string>)
    ensures |BlockNodes(blocks)| == |blocks|
    ensures forall k :: 0 <= k < |blocks| ==> BlockNodes(blocks)[k] == EmptyNode
    decreases |blocks|
  {
    if blocks != [] {
      BlockNodesShape(blocks[..|blocks| - 1]);
    }
  }

  /** The document never serialises: with no blocks the `div` has no children, and
      otherwise its first child is a bare node, whose `to_html` raises. */
  lemma DocumentNeverRenders(markdown: string)
    ensures Render(Document(markdown))
            == Failure(if Blocks(markdown) == [] then ParentWithoutChildren else NotImplemented)
  {
    var n := Document(markdown);
    BlockNodesShape(Blocks(markdown));
    if Blocks(markdown) != [] {
      FirstFailingChild(n, |n.children|, 0);
    }
  }
}
