/** Inline spans of Markdown text and the passes that cut a text into them
    (src/textnode.py): the delimiter pass for `*`, `**` and backticks, the image and
    link pass, and `from_markdown`, which chains them. */
module TextNodes {
  import opened Wrappers
  import opened Strings

  datatype TextType = Text | Bold | Italic | Code | Link | Image

  /** A run of text with its role; `url` is set for links and images. Equality of
      two nodes compares all three fields, as `TextNode.__eq__` does. */
  datatype TextNode = TextNode(text: string, textType: TextType, url: Option<string>)

  /** A plain TEXT node, as the passes build them (no url). */
  function Plain(s: string): TextNode {
    TextNode(s, Text, None)
  }

  /** The `SyntaxError` raised for an unmatched delimiter. */
  datatype SyntaxError = UnmatchedDelimiter(delimiter: string)

  //////////////////////////////////////////////////////////////////////////////
  // The delimiter pass: split_nodes_delimiter
  //////////////////////////////////////////////////////////////////////////////

  /** The scan of `split_nodes_delimiter` from index `i` of `t` on: `parts` are the
      finished parts, `cur` the part being gathered and `count` the delimiters met.
      Gives the final parts (the last gathered one appended) and the count. */
  function Scan(t: string, d: string, i: nat, parts: seq<string>, cur: string, count: nat): (seq<string>, nat)
    requires |d| > 0 && i <= |t|
    decreases |t| - i
  {
    if i == |t| then (parts + [cur], count)
    else if d == "*" && i < |t| - 1 && t[i] == '*' && t[i + 1] == '*' then
      Scan(t, d, i + 2, parts, cur + "**", count)
    else if MatchAt(t, i, d) then
      Scan(t, d, i + |d|, if cur != "" then parts + [cur] else parts, "", count + 1)
    else
      Scan(t, d, i + 1, parts, cur + [t[i]], count)
  }

  /** The parts and delimiter count of a whole text: a leading delimiter opens with
      an empty part. The leading check comes before the `**` check of the scan, so
      in the `*` pass a leading `**` opens an italic span. */
  function Parts(t: string, d: string): (seq<string>, nat)
    requires |d| > 0
  {
    if StartsWith(t, d) then Scan(t, d, |d|, [""], "", 1) else Scan(t, d, 0, [], "", 0)
  }

  /** Whether a text opens with the delimiter, as the docstring of
      `split_nodes_delimiter` means it: in the `*` pass a leading `**` is a bold
      pair, not an italic delimiter. */
  predicate OpensWithDelimiter(t: string, d: string) {
    StartsWith(t, d) && !(d == "*" && StartsWith(t, "**"))
  }

  /** The parts with the leading check corrected to leave a leading `**` pair to
      the scan. */
  function PartsIntended(t: string, d: string): (seq<string>, nat)
    requires |d| > 0
  {
    if OpensWithDelimiter(t, d) then Scan(t, d, |d|, [""], "", 1) else Scan(t, d, 0, [], "", 0)
  }

  /** The nodes for one (text part, typed part) pair: empty ones are dropped and the
      typed part loses its first remaining delimiter. */
  function PairNodes(text: string, code: string, d: string, tt: TextType): seq<TextNode>
    requires |d| > 0
  {
    (if text != "" then [Plain(text)] else [])
    + (if code != "" then [TextNode(ReplaceFirst(code, d), tt, None)] else [])
  }

  /** The nodes for the pairs (parts[2j], parts[2j+1]), (parts[2j+2], parts[2j+3]), ...
      where a missing typed part is "", as `zip(parts[::2], parts[1::2] + [""])`. */
  function EmitFrom(parts: seq<string>, d: string, tt: TextType, j: nat): seq<TextNode>
    requires |d| > 0
    decreases |parts| - 2 * j
  {
    if 2 * j >= |parts| then []
    else
      PairNodes(parts[2 * j], if 2 * j + 1 < |parts| then parts[2 * j + 1] else "", d, tt)
      + EmitFrom(parts, d, tt, j + 1)
  }

  /** What the delimiter pass makes of one node. */
  function DelimiterSplit(n: TextNode, d: string, tt: TextType): Result<seq<TextNode>, SyntaxError>
    requires |d| > 0
  {
    if n.textType != Text then Success([n])
    else
      var p := Parts(n.text, d);
      if p.1 % 2 != 0 then Failure(UnmatchedDelimiter(d)) else Success(EmitFrom(p.0, d, tt, 0))
  }

  /** `DelimiterSplit` over the corrected parts. */
  function DelimiterSplitIntended(n: TextNode, d: string, tt: TextType): Result<seq<TextNode>, SyntaxError>
    requires |d| > 0
  {
    if n.textType != Text then Success([n])
    else
      var p := PartsIntended(n.text, d);
      if p.1 % 2 != 0 then Failure(UnmatchedDelimiter(d)) else Success(EmitFrom(p.0, d, tt, 0))
  }

  /** `acc` followed by the nodes of `r`, or the failure of `r`. */
  function Prepend(acc: seq<TextNode>, r: Result<seq<TextNode>, SyntaxError>): Result<seq<TextNode>, SyntaxError> {
    match r
    case Success(v) => Success(acc + v)
    case Failure(e) => Failure(e)
  }

  /** The nodes of `first` followed by those of `rest`; a failure of `first` wins,
      as the loop raises before it reaches later nodes. */
  function Chain(first: Result<seq<TextNode>, SyntaxError>, rest: Result<seq<TextNode>, SyntaxError>): Result<seq<TextNode>, SyntaxError> {
    match first
    case Failure(e) => Failure(e)
    case Success(v) => Prepend(v, rest)
  }

  lemma ChainAssociative(a: Result<seq<TextNode>, SyntaxError>, b: Result<seq<TextNode>, SyntaxError>, c: Result<seq<TextNode>, SyntaxError>)
    ensures Chain(Chain(a, b), c) == Chain(a, Chain(b, c))
  {
    if a.Success? && b.Success? && c.Success? {
      assert (a.value + b.value) + c.value == a.value + (b.value + c.value);
    }
  }

  /** The delimiter pass over a list of nodes: the first failing node fails it all. */
  function DelimiterPass(nodes: seq<TextNode>, d: string, tt: TextType): Result<seq<TextNode>, SyntaxError>
    requires |d| > 0
  {
    if nodes == [] then Success([])
    else Chain(DelimiterSplit(nodes[0], d, tt), DelimiterPass(nodes[1..], d, tt))
  }

  /** `split_nodes_delimiter`: scans every TEXT node for `delimiter`, alternating
      plain and `textType` nodes; other nodes are kept as they are. */
  method SplitNodesDelimiter(oldNodes: seq<TextNode>, delimiter: string, textType: TextType)
    returns (r: Result<seq<TextNode>, SyntaxError>)
    requires |delimiter| > 0
    ensures r == DelimiterPass(oldNodes, delimiter, textType)
  {
    var newNodes: seq<TextNode> := [];
    assert oldNodes[0..] == oldNodes;
    PrependNothing(DelimiterPass(oldNodes, delimiter, textType));
    for k := 0 to |oldNodes|
      invariant DelimiterPass(oldNodes, delimiter, textType)
             == Prepend(newNodes, DelimiterPass(oldNodes[k..], delimiter, textType))
    {
      assert oldNodes[k..][1..] == oldNodes[k + 1..];
      var node := oldNodes[k];
      if node.textType == Text {
        var t := node.text;
        var parts, count := ScanText(t, delimiter);
        if count % 2 != 0 {
          assert DelimiterSplit(node, delimiter, textType) == Failure(UnmatchedDelimiter(delimiter));
          return Failure(UnmatchedDelimiter(delimiter));
        }
        ghost var before := newNodes;
        var emitted := EmitPairs(parts, delimiter, textType);
        newNodes := newNodes + emitted;
        assert newNodes == before + EmitFrom(parts, delimiter, textType, 0);
        assert DelimiterSplit(node, delimiter, textType) == Success(EmitFrom(parts, delimiter, textType, 0));
        assert DelimiterPass(oldNodes[k..], delimiter, textType)
            == Prepend(EmitFrom(parts, delimiter, textType, 0), DelimiterPass(oldNodes[k + 1..], delimiter, textType));
        PrependTwice(before, EmitFrom(parts, delimiter, textType, 0), DelimiterPass(oldNodes[k + 1..], delimiter, textType));
      } else {
        assert DelimiterPass(oldNodes[k..], delimiter, textType)
            == Prepend([node], DelimiterPass(oldNodes[k + 1..], delimiter, textType));
        newNodes := newNodes + [node];
        PrependTwice(newNodes[..|newNodes| - 1], [node], DelimiterPass(oldNodes[k + 1..], delimiter, textType));
        assert newNodes[..|newNodes| - 1] + [node] == newNodes;
      }
    }
    assert oldNodes[|oldNodes|..] == [];
    assert newNodes + [] == newNodes;
    return Success(newNodes);
  }

  /** The scan of one TEXT node's text in `split_nodes_delimiter`: the parts between
      delimiters and the number of delimiters met. */
  method ScanText(t: string, delimiter: string) returns (parts: seq<string>, count: nat)
    requires |delimiter| > 0
    ensures (parts, count) == Parts(t, delimiter)
  {
    parts := [];
    var text := "";
    count := 0;
    var i := 0;
    if StartsWith(t, delimiter) {
      parts := parts + [""];
      count := count + 1;
      i := i + |delimiter|;
      assert parts == [""];
    }
    while i < |t|
      invariant i <= |t|
      invariant Scan(t, delimiter, i, parts, text, count) == Parts(t, delimiter)
      decreases |t| - i
    {
      if delimiter == "*" && i < |t| - 1 && t[i] == '*' && t[i + 1] == '*' {
        text := text + "**";
        i := i + 2;
      } else if MatchAt(t, i, delimiter) {
        if text != "" {
          parts := parts + [text];
        }
        text := "";
        count := count + 1;
        i := i + |delimiter|;
      } else {
        text := text + [t[i]];
        i := i + 1;
      }
    }
    parts := parts + [text];
  }

  /** The nodes `split_nodes_delimiter` emits for the parts of one TEXT node. */
  method EmitPairs(parts: seq<string>, delimiter: string, textType: TextType) returns (nodes: seq<TextNode>)
    requires |delimiter| > 0
    ensures nodes == EmitFrom(parts, delimiter, textType, 0)
  {
    nodes := [];
    var j: nat := 0;
    while 2 * j < |parts|
      invariant 2 * j <= |parts| + 1
      invariant EmitFrom(parts, delimiter, textType, 0) == nodes + EmitFrom(parts, delimiter, textType, j)
      decreases |parts| - 2 * j
    {
      var txt := parts[2 * j];
      var code := if 2 * j + 1 < |parts| then parts[2 * j + 1] else "";
      ghost var prev := nodes;
      if txt != "" {
        nodes := nodes + [Plain(txt)];
      }
      ghost var mid := nodes;
      if code != "" {
        nodes := nodes + [TextNode(ReplaceFirst(code, delimiter), textType, None)];
      }
      EmitStep(parts, delimiter, textType, j, prev, mid, nodes);
      j := j + 1;
    }
    assert nodes + [] == nodes;
  }

  /** One step of the emission loop: the nodes of pair `j` follow what came before. */
  lemma EmitStep(parts: seq<string>, d: string, tt: TextType, j: nat, prev: seq<TextNode>, mid: seq<TextNode>, nodes: seq<TextNode>)
    requires |d| > 0 && 2 * j < |parts|
    requires mid == prev + (if parts[2 * j] != "" then [Plain(parts[2 * j])] else [])
    requires var code := if 2 * j + 1 < |parts| then parts[2 * j + 1] else "";
             nodes == mid + (if code != "" then [TextNode(ReplaceFirst(code, d), tt, None)] else [])
    ensures prev + EmitFrom(parts, d, tt, j) == nodes + EmitFrom(parts, d, tt, j + 1)
  {
    var code := if 2 * j + 1 < |parts| then parts[2 * j + 1] else "";
    var pn := PairNodes(parts[2 * j], code, d, tt);
    var later := EmitFrom(parts, d, tt, j + 1);
    assert EmitFrom(parts, d, tt, j) == pn + later;
    assert nodes == prev + pn by {
      NodesAssoc3(prev, if parts[2 * j] != "" then [Plain(parts[2 * j])] else [],
                  if code != "" then [TextNode(ReplaceFirst(code, d), tt, None)] else []);
    }
    NodesAssoc3(prev, pn, later);
  }

  lemma PrependNothing(r: Result<seq<TextNode>, SyntaxError>)
    ensures Prepend([], r) == r
  {
    if r.Success? { assert [] + r.value == r.value; }
  }

  lemma PrependTwice(a: seq<TextNode>, b: seq<TextNode>, r: Result<seq<TextNode>, SyntaxError>)
    ensures Prepend(a, Prepend(b, r)) == Prepend(a + b, r)
  {
    if r.Success? { assert a + (b + r.value) == (a + b) + r.value; }
  }

  /** The delimiter pass over two lists in a row is the pass over each, the first
      failure winning. */
  lemma {:induction false} DelimiterPassConcat(a: seq<TextNode>, b: seq<TextNode>, d: string, tt: TextType)
    requires |d| > 0
    ensures DelimiterPass(a + b, d, tt) == Chain(DelimiterPass(a, d, tt), DelimiterPass(b, d, tt))
  {
    if a == [] {
      assert a + b == b;
      PrependNothing(DelimiterPass(b, d, tt));
    } else {
      assert (a + b)[0] == a[0];
      assert (a + b)[1..] == a[1..] + b;
      DelimiterPassConcat(a[1..], b, d, tt);
      ChainAssociative(DelimiterSplit(a[0], d, tt), DelimiterPass(a[1..], d, tt), DelimiterPass(b, d, tt));
    }
  }

  /** A node that is not TEXT comes out of the delimiter pass unchanged and in its
      place; the pass succeeds exactly when it succeeds on what is before and after. */
  lemma DelimiterKeepsOthersInPlace(a: seq<TextNode>, n: TextNode, b: seq<TextNode>, d: string, tt: TextType)
    requires |d| > 0
    requires n.textType != Text
    ensures DelimiterPass(a + [n] + b, d, tt).Success?
        <==> DelimiterPass(a, d, tt).Success? && DelimiterPass(b, d, tt).Success?
    ensures DelimiterPass(a + [n] + b, d, tt).Success? ==>
              DelimiterPass(a + [n] + b, d, tt).value
              == DelimiterPass(a, d, tt).value + [n] + DelimiterPass(b, d, tt).value
  {
    assert a + [n] + b == a + ([n] + b);
    DelimiterPassConcat(a, [n] + b, d, tt);
    assert ([n] + b)[0] == n && ([n] + b)[1..] == b;
    assert DelimiterPass([n] + b, d, tt) == Prepend([n], DelimiterPass(b, d, tt));
    if DelimiterPass(a, d, tt).Success? && DelimiterPass(b, d, tt).Success? {
      assert DelimiterPass(a, d, tt).value + ([n] + DelimiterPass(b, d, tt).value)
          == DelimiterPass(a, d, tt).value + [n] + DelimiterPass(b, d, tt).value;
    }
  }

  /** Scanning a stretch with no delimiter in it just gathers the stretch. */
  lemma {:induction false} ScanPlainRun(t: string, d: string, i: nat, e: nat, parts: seq<string>, cur: string, count: nat)
    requires |d| > 0 && i <= e <= |t|
    requires forall j: nat | i <= j < e :: !MatchAt(t, j, d)
    ensures Scan(t, d, i, parts, cur, count) == Scan(t, d, e, parts, cur + t[i..e], count)
    decreases e - i
  {
    if i == e {
      assert cur + t[i..e] == cur;
    } else {
      assert !MatchAt(t, i, d);
      assert t[i..i + 1] == [t[i]];
      ScanPlainRun(t, d, i + 1, e, parts, cur + [t[i]], count);
      assert cur + [t[i]] + t[i + 1..e] == cur + t[i..e];
    }
  }

  /** A TEXT node without the delimiter comes back as that very node, and an empty
      one is dropped. */
  lemma NoDelimiterIdentity(t: string, d: string, tt: TextType)
    requires |d| > 0
    requires !Occurs(t, d)
    ensures DelimiterSplit(Plain(t), d, tt) == Success(if t == "" then [] else [Plain(t)])
  {
    assert StartsWith(t, d) ==> MatchAt(t, 0, d);
    ScanPlainRun(t, d, 0, |t|, [], "", 0);
    assert "" + t[0..|t|] == t;
    assert Scan(t, d, 0, [], "", 0) == Scan(t, d, |t|, [], t, 0);
    assert [] + [t] == [t];
    assert Parts(t, d) == ([t], 0);
    assert EmitFrom([t], d, tt, 1) == [];
    assert EmitFrom([t], d, tt, 0) == PairNodes(t, "", d, tt) + [];
    assert PairNodes(t, "", d, tt) == (if t == "" then [] else [Plain(t)]);
  }

  /** For a one-character delimiter other than `*` (the code delimiter), the pass
      fails on a TEXT node exactly when the character occurs an odd number of times. */
  lemma SingleCharDelimiterParity(t: string, c: char, u: Option<string>, tt: TextType)
    requires c != '*'
    ensures DelimiterSplit(TextNode(t, Text, u), [c], tt).Failure? <==> multiset(t)[c] % 2 == 1
  {
    SplitFails(t, [c], u, tt);
    PartsCountChar(t, c);
  }

  /** The scan of a whole text meets a one-character delimiter other than `*` as
      many times as the text holds it. */
  lemma PartsCountChar(t: string, c: char)
    requires c != '*'
    ensures Parts(t, [c]).1 == multiset(t)[c]
  {
    if StartsWith(t, [c]) {
      ScanCountsChar(t, c, 1, [""], "", 1);
      LeadingChar(t, c);
    } else {
      ScanCountsChar(t, c, 0, [], "", 0);
      assert t[0..] == t;
    }
  }

  /** A text opening with `c` holds it once more than its tail does. */
  lemma LeadingChar(t: string, c: char)
    requires StartsWith(t, [c])
    ensures multiset(t)[c] == 1 + multiset(t[1..])[c]
  {
    assert t[..1] == [t[0]];
    assert t == [t[0]] + t[1..];
  }

  /** With a one-character delimiter other than `*`, the scan counts its occurrences. */
  lemma {:induction false} ScanCountsChar(t: string, c: char, i: nat, parts: seq<string>, cur: string, count: nat)
    requires c != '*' && i <= |t|
    ensures Scan(t, [c], i, parts, cur, count).1 == count + multiset(t[i..])[c]
    decreases |t| - i
  {
    if i < |t| {
      assert t[i..] == [t[i]] + t[i + 1..];
      assert MatchAt(t, i, [c]) <==> t[i] == c by {
        assert t[i..i + 1] == [t[i]];
      }
      if t[i] == c {
        ScanCountsChar(t, c, i + 1, if cur != "" then parts + [cur] else parts, "", count + 1);
      } else {
        ScanCountsChar(t, c, i + 1, parts, cur + [t[i]], count);
      }
    }
  }

  /** For any delimiter other than `*`, the pass fails on a TEXT node exactly when
      `re.finditer` of the delimiter finds an odd number of occurrences: the scan
      counts them left to right, none overlapping (so `***` holds one `**`). */
  lemma DelimiterParity(t: string, d: string, u: Option<string>, tt: TextType)
    requires |d| > 0 && d != "*"
    ensures DelimiterSplit(TextNode(t, Text, u), d, tt).Failure? <==> |Occurrences(t, d, 0)| % 2 == 1
  {
    SplitFails(t, d, u, tt);
    if StartsWith(t, d) {
      ScanCountsOccurrences(t, d, |d|, [""], "", 1);
      assert t[0..|d|] == t[..|d|];
      assert Occurrences(t, d, 0) == [0] + Occurrences(t, d, |d|);
    } else {
      ScanCountsOccurrences(t, d, 0, [], "", 0);
    }
  }

  /** The pass fails on a TEXT node exactly when the scan meets the delimiter an odd
      number of times. */
  lemma SplitFails(t: string, d: string, u: Option<string>, tt: TextType)
    requires |d| > 0
    ensures DelimiterSplit(TextNode(t, Text, u), d, tt).Failure? <==> Parts(t, d).1 % 2 == 1
  {
  }

  /** `SplitFails` for the corrected parts. */
  lemma SplitFailsIntended(t: string, d: string, u: Option<string>, tt: TextType)
    requires |d| > 0
    ensures DelimiterSplitIntended(TextNode(t, Text, u), d, tt).Failure? <==> PartsIntended(t, d).1 % 2 == 1
  {
  }

  /** With a delimiter other than `*`, the scan counts the occurrences of the
      delimiter as `re.finditer` finds them. */
  lemma {:induction false} ScanCountsOccurrences(t: string, d: string, i: nat, parts: seq<string>, cur: string, count: nat)
    requires |d| > 0 && d != "*" && i <= |t|
    ensures Scan(t, d, i, parts, cur, count).1 == count + |Occurrences(t, d, i)|
    decreases |t| - i
  {
    if i < |t| {
      if MatchAt(t, i, d) {
        ScanCountsOccurrences(t, d, i + |d|, if cur != "" then parts + [cur] else parts, "", count + 1);
      } else {
        ScanCountsOccurrences(t, d, i + 1, parts, cur + [t[i]], count);
        if i + |d| > |t| {
          assert Occurrences(t, d, i + 1) == [];
        }
      }
    }
  }

  /** The stars from `i` on that are not part of a `**` pair, the pairs taken left to
      right. */
  function LoneStars(t: string, i: nat): nat
    requires i <= |t|
    decreases |t| - i
  {
    if i == |t| then 0
    else if i < |t| - 1 && t[i] == '*' && t[i + 1] == '*' then LoneStars(t, i + 2)
    else if t[i] == '*' then 1 + LoneStars(t, i + 1)
    else LoneStars(t, i + 1)
  }

  /** As written, the `*` pass fails on a TEXT node exactly when the stars outside
      `**` pairs are odd in number, where a leading star always counts alone (so a
      leading `**` counts one and leaves its second star to the pairing). */
  lemma StarParity(t: string, u: Option<string>, tt: TextType)
    ensures DelimiterSplit(TextNode(t, Text, u), "*", tt).Failure?
        <==> (if StartsWith(t, "*") then 1 + LoneStars(t, 1) else LoneStars(t, 0)) % 2 == 1
  {
    SplitFails(t, "*", u, tt);
    if StartsWith(t, "*") {
      ScanCountsStars(t, 1, [""], "", 1);
    } else {
      ScanCountsStars(t, 0, [], "", 0);
    }
  }

  /** With the leading check corrected, the `*` pass fails on a TEXT node exactly when
      the stars outside `**` pairs are odd in number. */
  lemma StarParityIntended(t: string, u: Option<string>, tt: TextType)
    ensures DelimiterSplitIntended(TextNode(t, Text, u), "*", tt).Failure? <==> LoneStars(t, 0) % 2 == 1
  {
    SplitFailsIntended(t, "*", u, tt);
    if OpensWithDelimiter(t, "*") {
      ScanCountsStars(t, 1, [""], "", 1);
      LeadingLoneStar(t);
    } else {
      ScanCountsStars(t, 0, [], "", 0);
    }
  }

  /** A leading star that does not open a `**` pair counts alone. */
  lemma LeadingLoneStar(t: string)
    requires OpensWithDelimiter(t, "*")
    ensures LoneStars(t, 0) == 1 + LoneStars(t, 1)
  {
    assert t[..1] == [t[0]];
    assert |t| > 1 ==> t[..2] == [t[0], t[1]];
  }

  /** The `*` scan counts the stars outside `**` pairs. */
  lemma {:induction false} ScanCountsStars(t: string, i: nat, parts: seq<string>, cur: string, count: nat)
    requires i <= |t|
    ensures Scan(t, "*", i, parts, cur, count).1 == count + LoneStars(t, i)
    decreases |t| - i
  {
    if i < |t| {
      assert MatchAt(t, i, "*") <==> t[i] == '*' by {
        assert t[i..i + 1] == [t[i]];
      }
      if i < |t| - 1 && t[i] == '*' && t[i + 1] == '*' {
        ScanCountsStars(t, i + 2, parts, cur + "**", count);
      } else if t[i] == '*' {
        ScanCountsStars(t, i + 1, if cur != "" then parts + [cur] else parts, "", count + 1);
      } else {
        ScanCountsStars(t, i + 1, parts, cur + [t[i]], count);
      }
    }
  }

  /** What the scan keeps about the part it is gathering: it is the text just before
      `i` and is never the delimiter itself, because a shorter part could only grow
      into the delimiter from a position where the delimiter did not match. */
  ghost predicate GatherInvariant(t: string, d: string, i: nat, cur: string) {
    && cur != d
    && |cur| <= i <= |t|
    && cur == t[i - |cur|..i]
    && (0 < |cur| < |d| ==> !MatchAt(t, i - |cur|, d))
  }

  /** None of `parts` is the delimiter itself. */
  predicate NoneIs(parts: seq<string>, d: string) {
    forall k :: 0 <= k < |parts| ==> parts[k] != d
  }

  /** No part the scan produces is the delimiter itself. */
  lemma {:induction false} ScanPartsNotDelimiter(t: string, d: string, i: nat, parts: seq<string>, cur: string, count: nat)
    requires |d| > 0 && i <= |t|
    requires NoneIs(parts, d)
    requires GatherInvariant(t, d, i, cur)
    ensures NoneIs(Scan(t, d, i, parts, cur, count).0, d)
    decreases |t| - i
  {
    if i == |t| {
      assert NoneIs(parts + [cur], d);
    } else if d == "*" && i < |t| - 1 && t[i] == '*' && t[i + 1] == '*' {
      GatherStars(t, i, cur);
      ScanPartsNotDelimiter(t, d, i + 2, parts, cur + "**", count);
    } else if MatchAt(t, i, d) {
      var ps := if cur != "" then parts + [cur] else parts;
      NoneIsAppend(parts, cur, d);
      GatherEmpty(t, d, i + |d|);
      ScanPartsNotDelimiter(t, d, i + |d|, ps, "", count + 1);
    } else {
      GatherOne(t, d, i, cur);
      ScanPartsNotDelimiter(t, d, i + 1, parts, cur + [t[i]], count);
    }
  }

  /** Closing a part that is not the delimiter keeps the parts free of it. */
  lemma NoneIsAppend(parts: seq<string>, cur: string, d: string)
    requires NoneIs(parts, d) && cur != d
    ensures NoneIs(if cur != "" then parts + [cur] else parts, d)
  {
  }

  /** The gathering invariant holds for an empty part anywhere in the text. */
  lemma GatherEmpty(t: string, d: string, j: nat)
    requires |d| > 0 && j <= |t|
    ensures GatherInvariant(t, d, j, "")
  {
  }

  /** Gathering a `**` pair in the `*` pass keeps the gathering invariant. */
  lemma GatherStars(t: string, i: nat, cur: string)
    requires i < |t| - 1 && t[i] == '*' && t[i + 1] == '*'
    requires GatherInvariant(t, "*", i, cur)
    ensures GatherInvariant(t, "*", i + 2, cur + "**")
  {
    assert t[i - |cur|..i + 2] == t[i - |cur|..i] + t[i..i + 2];
    assert t[i..i + 2] == "**";
  }

  /** Gathering a character where the delimiter does not match keeps the gathering
      invariant. */
  lemma GatherOne(t: string, d: string, i: nat, cur: string)
    requires |d| > 0 && i < |t|
    requires !MatchAt(t, i, d)
    requires GatherInvariant(t, d, i, cur)
    ensures GatherInvariant(t, d, i + 1, cur + [t[i]])
  {
    var next := cur + [t[i]];
    assert t[i + 1 - |next|..i + 1] == next;
    if |next| == |d| {
      assert !MatchAt(t, i + 1 - |next|, d);
      assert t[i + 1 - |next|..i + 1 - |next| + |d|] == next;
    }
    if cur == [] && 0 < |next| < |d| {
      assert i + 1 - |next| == i;
    }
  }

  /** An occurrence as long as the whole string is the whole string. */
  lemma OccursWhole(p: string, d: string)
    ensures Occurs(p, d) && |p| == |d| ==> p == d
  {
    if Occurs(p, d) && |p| == |d| {
      var i: nat :| i <= |p| && MatchAt(p, i, d);
      assert p[0..|d|] == p;
    }
  }

  /** Removing the first delimiter empties a part only if it was empty or the
      delimiter itself. */
  lemma ReplaceFirstEmpty(p: string, d: string)
    requires |d| > 0
    requires p != "" && p != d
    ensures ReplaceFirst(p, d) != ""
  {
    OccursWhole(p, d);
    ReplaceFirstSound(p, d);
  }

  /** A node the delimiter pass makes: it has text, no url, and is plain or typed. */
  predicate Made(m: TextNode, tt: TextType) {
    m.text != "" && m.url == None && (m.textType == Text || m.textType == tt)
  }

  /** Every node emitted from parts that are not the delimiter has text, and is
      either plain or of the pass's type. */
  lemma {:induction false} EmitNonEmpty(parts: seq<string>, d: string, tt: TextType, j: nat)
    requires |d| > 0
    requires forall k :: 0 <= k < |parts| ==> parts[k] != d
    ensures forall k :: 0 <= k < |EmitFrom(parts, d, tt, j)| ==> Made(EmitFrom(parts, d, tt, j)[k], tt)
    decreases |parts| - 2 * j
  {
    if 2 * j < |parts| {
      var code := if 2 * j + 1 < |parts| then parts[2 * j + 1] else "";
      var head := PairNodes(parts[2 * j], code, d, tt);
      PairNodesMade(parts[2 * j], code, d, tt);
      var rest := EmitFrom(parts, d, tt, j + 1);
      assert forall k :: 0 <= k < |rest| ==> Made(rest[k], tt) by {
        EmitNonEmpty(parts, d, tt, j + 1);
      }
      assert EmitFrom(parts, d, tt, j) == head + rest;
      AllMadeConcat(head, rest, tt);
    }
  }

  /** The nodes of one pair of parts have text, unless the typed part is the bare
      delimiter. */
  lemma PairNodesMade(text: string, code: string, d: string, tt: TextType)
    requires |d| > 0 && code != d
    ensures forall k :: 0 <= k < |PairNodes(text, code, d, tt)| ==> Made(PairNodes(text, code, d, tt)[k], tt)
  {
    if code != "" {
      ReplaceFirstEmpty(code, d);
    }
  }

  /** Every node of a list made of two lists of made nodes is made. */
  lemma AllMadeConcat(a: seq<TextNode>, b: seq<TextNode>, tt: TextType)
    requires forall k :: 0 <= k < |a| ==> Made(a[k], tt)
    requires forall k :: 0 <= k < |b| ==> Made(b[k], tt)
    ensures forall k :: 0 <= k < |a + b| ==> Made((a + b)[k], tt)
  {
    forall k | 0 <= k < |a + b|
      ensures Made((a + b)[k], tt)
    {
      if k < |a| {
        assert (a + b)[k] == a[k];
      } else {
        assert (a + b)[k] == b[k - |a|];
      }
    }
  }

  /** The delimiter pass never makes an empty node: every node it outputs either is
      an input node that was not TEXT, or has text, no url, and is plain or typed. */
  lemma {:induction false} DelimiterNoEmptyNodes(nodes: seq<TextNode>, d: string, tt: TextType)
    requires |d| > 0
    requires DelimiterPass(nodes, d, tt).Success?
    ensures forall k :: 0 <= k < |DelimiterPass(nodes, d, tt).value| ==>
              var m := DelimiterPass(nodes, d, tt).value[k];
              (m in nodes && m.textType != Text) || Made(m, tt)
  {
    if nodes != [] {
      var n := nodes[0];
      var head := DelimiterSplit(n, d, tt).value;
      var rest := DelimiterPass(nodes[1..], d, tt).value;
      DelimiterNoEmptyNodes(nodes[1..], d, tt);
      if n.textType == Text {
        var t := n.text;
        if StartsWith(t, d) {
          ScanPartsNotDelimiter(t, d, |d|, [""], "", 1);
        } else {
          ScanPartsNotDelimiter(t, d, 0, [], "", 0);
        }
        EmitNonEmpty(Parts(t, d).0, d, tt, 0);
      }
      assert DelimiterPass(nodes, d, tt).value == head + rest;
      assert forall x :: x in nodes[1..] ==> x in nodes;
    }
  }

  /** The parts of a text that starts and ends with the delimiter, with none in between. */
  lemma DelimitedParts(m: string, d: string)
    requires |d| > 0 && m != ""
    requires forall j: nat | |d| <= j < |d| + |m| :: !MatchAt(d + m + d, j, d)
    ensures Parts(d + m + d, d) == (["", m, ""], 2)
  {
    var t := d + m + d;
    assert t[..|d|] == d;
    if d == "*" {
      assert !MatchAt(t, 1, d) && t[1..2] == [t[1]];
    }
    ScanPlainRun(t, d, |d|, |d| + |m|, [""], "", 1);
    assert t[|d|..|d| + |m|] == m;
    assert "" + m == m;
    DelimitedClose(m, d);
  }

  /** The scan of `d + m + d` at the closing delimiter, with `m` gathered. */
  lemma DelimitedClose(m: string, d: string)
    requires |d| > 0 && m != ""
    ensures Scan(d + m + d, d, |d| + |m|, [""], m, 1) == (["", m, ""], 2)
  {
    var t := d + m + d;
    var i := |d| + |m|;
    MatchAtEnd(d + m, d);
    assert i + |d| == |t|;
    assert !(d == "*" && i < |t| - 1);
    assert Scan(t, d, i, [""], m, 1) == Scan(t, d, |t|, [""] + [m], "", 2);
    assert [""] + [m] + [""] == ["", m, ""];
  }

  /** A text ending with `d` matches `d` where the rest ends. */
  lemma MatchAtEnd(a: string, d: string)
    ensures MatchAt(a + d, |a|, d)
  {
    assert (a + d)[|a|..|a| + |d|] == d;
  }

  /** A text that starts and ends with the delimiter, with none in between, becomes a
      single typed node and no TEXT node. */
  lemma DelimitedWhole(m: string, d: string, tt: TextType)
    requires |d| > 0 && m != ""
    requires forall j: nat | |d| <= j < |d| + |m| :: !MatchAt(d + m + d, j, d)
    ensures DelimiterSplit(Plain(d + m + d), d, tt) == Success([TextNode(m, tt, None)])
  {
    var t := d + m + d;
    DelimitedParts(m, d);
    forall k: nat | k <= |m|
      ensures !MatchAt(m, k, d)
    {
      if k + |d| <= |m| {
        assert t[|d| + k..|d| + k + |d|] == m[k..k + |d|];
        assert !MatchAt(t, |d| + k, d);
      }
    }
    ReplaceFirstSound(m, d);
    assert ReplaceFirst(m, d) == m;
    assert EmitFrom(["", m, ""], d, tt, 1) == [] by {
      assert EmitFrom(["", m, ""], d, tt, 2) == [];
      assert PairNodes("", "", d, tt) == [];
    }
    assert PairNodes("", m, d, tt) == [TextNode(m, tt, None)];
    assert EmitFrom(["", m, ""], d, tt, 0) == PairNodes("", m, d, tt) + EmitFrom(["", m, ""], d, tt, 1);
    assert [TextNode(m, tt, None)] + [] == [TextNode(m, tt, None)];
  }

  /** A stretch copied from a string without the delimiter's first character holds
      no delimiter match. */
  lemma NoMatchIn(t: string, d: string, i: nat, x: string)
    requires |d| > 0 && i + |x| <= |t| && t[i..i + |x|] == x
    requires d[0] !in x
    ensures forall j: nat | i <= j < i + |x| :: !MatchAt(t, j, d)
  {
    forall j: nat | i <= j < i + |x|
      ensures !MatchAt(t, j, d)
    {
      assert t[j] == x[j - i];
    }
  }

  /** Scanning a stretch copied from a string without the delimiter's first
      character gathers it whole. */
  lemma ScanPiece(t: string, d: string, i: nat, x: string, parts: seq<string>, cur: string, count: nat)
    requires |d| > 0 && i + |x| <= |t| && t[i..i + |x|] == x
    requires d[0] !in x
    ensures Scan(t, d, i, parts, cur, count) == Scan(t, d, i + |x|, parts, cur + x, count)
  {
    NoMatchIn(t, d, i, x);
    ScanPlainRun(t, d, i, i + |x|, parts, cur, count);
  }

  /** The opening of a span: plain text `a` then the delimiter leave the scan just
      after the delimiter with `a` as the one finished part. */
  lemma SpanOpening(t: string, a: string, d: string)
    requires |d| > 0 && d[0] !in a
    requires StartsWith(t, a + d)
    requires |a| + |d| < |t| && t[|a| + |d|] != d[0]
    ensures Parts(t, d) == Scan(t, d, |a| + |d|, [a], "", 1)
  {
    assert t[..|a|] == a && MatchAt(t, |a|, d) by {
      assert t[..|a| + |d|] == a + d;
      assert t[..|a|] == (a + d)[..|a|] && t[|a|..|a| + |d|] == (a + d)[|a|..];
    }
    if a == "" {
      LeadingOpening(t, d);
    } else {
      PlainOpening(t, a, d);
    }
  }

  /** The opening of a span at the very start of the text. */
  lemma LeadingOpening(t: string, d: string)
    requires |d| > 0 && MatchAt(t, 0, d)
    requires |d| < |t| && t[|d|] != d[0]
    ensures Parts(t, d) == Scan(t, d, |d|, [""], "", 1)
  {
    assert StartsWith(t, d) by {
      assert t[..|d|] == t[0..|d|];
    }
  }

  /** The opening of a span after non-empty plain text `a`. */
  lemma PlainOpening(t: string, a: string, d: string)
    requires |d| > 0 && d[0] !in a && a != ""
    requires |a| <= |t| && t[..|a|] == a && MatchAt(t, |a|, d)
    requires |a| + |d| < |t| && t[|a| + |d|] != d[0]
    ensures Parts(t, d) == Scan(t, d, |a| + |d|, [a], "", 1)
  {
    var parts: seq<string> := [];
    assert parts + [a] == [a];
    assert Parts(t, d) == Scan(t, d, |a|, parts, a, 0) by {
      PlainPrefix(t, a, d);
    }
    ClosingStep(t, d, |a|, parts, a, 0);
  }

  /** The scan over a delimiter closing a non-empty part. */
  lemma ClosingStep(t: string, d: string, i: nat, parts: seq<string>, cur: string, count: nat)
    requires |d| > 0 && MatchAt(t, i, d) && cur != ""
    requires i + |d| < |t| && t[i + |d|] != d[0]
    ensures Scan(t, d, i, parts, cur, count) == Scan(t, d, i + |d|, parts + [cur], "", count + 1)
  {
    ScanDelimiterStep(t, d, i, parts, cur, count);
  }

  /** A text opening with plain `a` is scanned from its start, through `a`. */
  lemma PlainPrefix(t: string, a: string, d: string)
    requires |d| > 0 && d[0] !in a && a != "" && |a| <= |t| && t[..|a|] == a
    ensures Parts(t, d) == Scan(t, d, |a|, [], a, 0)
  {
    assert Parts(t, d) == Scan(t, d, 0, [], "", 0) by {
      assert t[0] == a[0];
    }
    assert t[0..|a|] == a;
    ScanPiece(t, d, 0, a, [], "", 0);
    assert "" + a == a;
  }

  /** One step of the scan over a delimiter that is not the first star of a `**` pair. */
  lemma ScanDelimiterStep(t: string, d: string, i: nat, parts: seq<string>, cur: string, count: nat)
    requires |d| > 0 && MatchAt(t, i, d)
    requires d == "*" ==> i + 1 == |t| || t[i + 1] != '*'
    ensures Scan(t, d, i, parts, cur, count)
         == Scan(t, d, i + |d|, if cur != "" then parts + [cur] else parts, "", count + 1)
  {
  }

  /** The parts of a span between two delimiters with plain text around it. */
  lemma SpanParts(a: string, m: string, b: string, d: string)
    requires |d| > 0 && m != ""
    requires d[0] !in a && d[0] !in m && d[0] !in b
    ensures Parts(a + d + m + d + b, d) == ([a, m, b], 2)
  {
    var t := a + d + m + d + b;
    var i := |a| + |d|;
    var k := i + |m|;
    assert t[..i] == a + d && t[i..k] == m && t[k..k + |d|] == d && t[k + |d|..] == b;
    SpanPartsAt(t, a, m, b, d, i, k);
  }

  /** The scan through the opening delimiter and the text `m = t[i..k]` of a span. */
  lemma SpanBody(t: string, a: string, m: string, d: string, i: nat, k: nat)
    requires |d| > 0 && m != "" && d[0] !in a && d[0] !in m
    requires i == |a| + |d| && k == i + |m| && k <= |t|
    requires t[..i] == a + d && t[i..k] == m
    ensures Parts(t, d) == Scan(t, d, k, [a], m, 1)
  {
    assert Parts(t, d) == Scan(t, d, i, [a], "", 1) by {
      assert t[i] == m[0];
      SpanOpening(t, a, d);
    }
    ScanPiece(t, d, i, m, [a], "", 1);
    assert "" + m == m;
  }

  /** `SpanParts`, stated on the positions of `t`: the span is `t[i..k]`. */
  lemma SpanPartsAt(t: string, a: string, m: string, b: string, d: string, i: nat, k: nat)
    requires |d| > 0 && m != ""
    requires d[0] !in a && d[0] !in m && d[0] !in b
    requires i == |a| + |d| && k == i + |m| && k + |d| + |b| == |t|
    requires t[..i] == a + d && t[i..k] == m && t[k..k + |d|] == d && t[k + |d|..] == b
    ensures Parts(t, d) == ([a, m, b], 2)
  {
    SpanBody(t, a, m, d, i, k);
    SpanClose(t, a, m, b, d, k);
    SpanTail(t, a, m, b, d, k + |d|);
  }

  /** The scan over the delimiter closing a span `m`. */
  lemma SpanClose(t: string, a: string, m: string, b: string, d: string, k: nat)
    requires |d| > 0 && m != "" && d[0] !in b
    requires k + |d| <= |t| && t[k..k + |d|] == d && t[k + |d|..] == b
    ensures Scan(t, d, k, [a], m, 1) == Scan(t, d, k + |d|, [a, m], "", 2)
  {
    assert MatchAt(t, k, d);
    if d == "*" && b != "" {
      assert t[k + 1] == b[0];
    }
    ScanDelimiterStep(t, d, k, [a], m, 1);
    assert [a] + [m] == [a, m];
  }

  /** The scan over the plain rest `b` after a span. */
  lemma SpanTail(t: string, a: string, m: string, b: string, d: string, s: nat)
    requires |d| > 0 && d[0] !in b && s <= |t| && t[s..] == b
    ensures Scan(t, d, s, [a, m], "", 2) == ([a, m, b], 2)
  {
    assert t[s..s + |b|] == b;
    ScanPiece(t, d, s, b, [a, m], "", 2);
    assert "" + b == b;
    assert [a, m] + [b] == [a, m, b];
  }

  /** A span between two delimiters, with plain text around it, becomes a typed node
      between its plain neighbours (the empty ones dropped). */
  lemma OneSpan(a: string, m: string, b: string, d: string, tt: TextType)
    requires |d| > 0 && m != ""
    requires d[0] !in a && d[0] !in m && d[0] !in b
    ensures DelimiterSplit(Plain(a + d + m + d + b), d, tt)
         == Success((if a != "" then [Plain(a)] else []) + [TextNode(m, tt, None)]
                    + (if b != "" then [Plain(b)] else []))
  {
    SpanParts(a, m, b, d);
    assert !Occurs(m, d) by {
      NoMatchIn(m, d, 0, m);
      assert m[0..|m|] == m;
    }
    ReplaceFirstSound(m, d);
    assert ReplaceFirst(m, d) == m;
    assert EmitFrom([a, m, b], d, tt, 2) == [];
    assert EmitFrom([a, m, b], d, tt, 1) == PairNodes(b, "", d, tt) + [];
    assert EmitFrom([a, m, b], d, tt, 0) == PairNodes(a, m, d, tt) + EmitFrom([a, m, b], d, tt, 1);
    assert PairNodes(a, m, d, tt) == (if a != "" then [Plain(a)] else []) + [TextNode(m, tt, None)];
    assert PairNodes(b, "", d, tt) + [] == (if b != "" then [Plain(b)] else []);
    assert DelimiterSplit(Plain(a + d + m + d + b), d, tt) == Success(EmitFrom([a, m, b], d, tt, 0));
  }

  /** The `*` pass leaves a `**` pair alone: a text that opens with plain text and
      whose only stars are two `**` pairs comes back whole, for the `**` pass to
      find. */
  lemma StarPassKeepsPairs(a: string, m: string, b: string, tt: TextType)
    requires a != "" && '*' !in a && '*' !in m && '*' !in b
    ensures DelimiterSplit(Plain(a + "**" + m + "**" + b), "*", tt) == Success([Plain(a + "**" + m + "**" + b)])
  {
    var t := a + "**" + m + "**" + b;
    var j := |a|;
    var k := j + 2 + |m|;
    PairsLayout(a, m, b);
    assert !StartsWith(t, "*") by {
      assert t[..j][0] == t[0];
    }
    PairsScan(t, j, k);
    WholePart(t, "*", tt);
  }

  /** With the leading check corrected, the `*` pass leaves the `**` pairs alone
      also when the text opens with one. */
  lemma StarPassKeepsPairsIntended(a: string, m: string, b: string, tt: TextType)
    requires '*' !in a && '*' !in m && '*' !in b
    ensures DelimiterSplitIntended(Plain(a + "**" + m + "**" + b), "*", tt) == Success([Plain(a + "**" + m + "**" + b)])
  {
    var t := a + "**" + m + "**" + b;
    var j := |a|;
    var k := j + 2 + |m|;
    PairsLayout(a, m, b);
    assert !OpensWithDelimiter(t, "*") by {
      if j == 0 {
        assert t[..2] == "**";
      } else {
        assert t[..j][0] == t[0];
      }
    }
    PairsScan(t, j, k);
    WholePartIntended(t, "*", tt);
  }

  /** Where the pieces of `a**m**b` stand. */
  lemma PairsLayout(a: string, m: string, b: string)
    ensures var t := a + "**" + m + "**" + b;
            var j, k := |a|, |a| + 2 + |m|;
            j + 2 <= k && k + 2 <= |t|
            && t[..j] == a && t[j + 2..k] == m && t[k + 2..] == b
            && t[j] == '*' && t[j + 1] == '*' && t[k] == '*' && t[k + 1] == '*'
  {
    var t := a + "**" + m + "**" + b;
    var j, k := |a|, |a| + 2 + |m|;
    assert t[..j] == a && t[j + 2..k] == m && t[k + 2..] == b;
    assert t[j] == '*' && t[j + 1] == '*' && t[k] == '*' && t[k + 1] == '*';
  }

  /** The `*` scan from the start of a text whose only stars are two `**` pairs, at
      `j` and `k`, keeps the text as one part and meets no delimiter. */
  lemma PairsScan(t: string, j: nat, k: nat)
    requires j + 2 <= k && k + 2 <= |t|
    requires t[j] == '*' && t[j + 1] == '*' && t[k] == '*' && t[k + 1] == '*'
    requires '*' !in t[..j] && '*' !in t[j + 2..k] && '*' !in t[k + 2..]
    ensures Scan(t, "*", 0, [], "", 0) == ([t], 0)
  {
    assert t[0..j] == t[..j];
    ScanKeepsPairs(t, 0, j, k, [], "", 0);
    assert "" + t[0..] == t;
    assert [] + [t] == [t];
  }

  /** A text the scan keeps whole, with no delimiter met, comes back as one node. */
  lemma WholePart(t: string, d: string, tt: TextType)
    requires |d| > 0 && t != "" && Parts(t, d) == ([t], 0)
    ensures DelimiterSplit(Plain(t), d, tt) == Success([Plain(t)])
  {
    OneWholePart(t, d, tt);
    assert Parts(Plain(t).text, d).1 % 2 == 0;
    assert DelimiterSplit(Plain(t), d, tt) == Success(EmitFrom([t], d, tt, 0));
  }

  /** `WholePart` for the corrected parts. */
  lemma WholePartIntended(t: string, d: string, tt: TextType)
    requires |d| > 0 && t != "" && PartsIntended(t, d) == ([t], 0)
    ensures DelimiterSplitIntended(Plain(t), d, tt) == Success([Plain(t)])
  {
    OneWholePart(t, d, tt);
    assert PartsIntended(Plain(t).text, d).1 % 2 == 0;
    assert DelimiterSplitIntended(Plain(t), d, tt) == Success(EmitFrom([t], d, tt, 0));
  }

  /** A single text part makes a single TEXT node. */
  lemma OneWholePart(t: string, d: string, tt: TextType)
    requires |d| > 0 && t != ""
    ensures EmitFrom([t], d, tt, 0) == [Plain(t)]
  {
    assert EmitFrom([t], d, tt, 1) == [];
    assert EmitFrom([t], d, tt, 0) == PairNodes(t, "", d, tt) + [];
    assert PairNodes(t, "", d, tt) == [Plain(t)] + [];
  }

  /** As written, the `*` pass takes the first star of a leading `**` pair as an
      italic delimiter: `**m** b` becomes one italic node `m* b`. */
  lemma LeadingPairAsWritten(m: string, b: string)
    requires m != "" && '*' !in m && '*' !in b
    ensures Parts("**" + m + "**" + b, "*") == (["", m + "**" + b], 2)
    ensures EmitFrom(Parts("**" + m + "**" + b, "*").0, "*", Italic, 0)
         == [TextNode(m + "*" + b, Italic, None)]
    ensures DelimiterSplit(Plain("**" + m + "**" + b), "*", Italic)
         == Success([TextNode(m + "*" + b, Italic, None)])
  {
    var t := "**" + m + "**" + b;
    var k := 2 + |m|;
    assert Parts(t, "*") == (["", m + "**" + b], 2) by {
      assert t[..2] == "**" && t[2..k] == m && t[k + 2..] == b;
      assert t[k] == '*' && t[k + 1] == '*';
      assert t[2..] == m + "**" + b;
      LeadingPairAt(t, k);
    }
    OnlyTyped(m + "**" + b, "*", Italic);
    assert ReplaceFirst(m + "**" + b, "*") == m + "*" + b by {
      ReplaceFirstAfter(m, "*", "*" + b);
      assert m + "**" + b == m + "*" + ("*" + b);
      assert m + ("*" + b) == m + "*" + b;
    }
  }

  /** As written, the `*` scan over a text opening with a `**` pair, whose other
      stars are a second pair at `k`. */
  lemma LeadingPairAt(t: string, k: nat)
    requires 2 < k && k + 2 <= |t|
    requires t[..2] == "**" && t[k] == '*' && t[k + 1] == '*'
    requires '*' !in t[2..k] && '*' !in t[k + 2..]
    ensures Parts(t, "*") == (["", t[2..]], 2)
  {
    var d := "*";
    assert StartsWith(t, d) by {
      assert t[..1] == t[..2][..1];
    }
    assert t[2] != '*' by {
      assert t[2..k][0] == t[2];
    }
    assert t[0] == '*' && t[1] == '*' by {
      assert t[..2][0] == t[0] && t[..2][1] == t[1];
    }
    assert MatchAt(t, 1, d) by {
      assert t[1..2] == [t[1]];
    }
    assert Scan(t, d, 1, [""], "", 1) == Scan(t, d, 2, [""], "", 2);
    StarlessStretch(t, 2, k, [""], "", 2);
    PairStep(t, k, [""], "" + t[2..k], 2);
    Glue("", t, 2, k, k + 2);
    assert t[k + 2..|t|] == t[k + 2..];
    StarlessStretch(t, k + 2, |t|, [""], "" + t[2..k + 2], 2);
    Glue("", t, 2, k + 2, |t|);
    assert "" + t[2..|t|] == t[2..];
    assert Scan(t, d, |t|, [""], t[2..], 2) == ([""] + [t[2..]], 2);
    assert [""] + [t[2..]] == ["", t[2..]];
  }

  /** Parts that open with an empty text part: the one typed part, its first
      delimiter removed. */
  lemma OnlyTyped(p: string, d: string, tt: TextType)
    requires |d| > 0 && p != ""
    ensures EmitFrom(["", p], d, tt, 0) == [TextNode(ReplaceFirst(p, d), tt, None)]
  {
    assert EmitFrom(["", p], d, tt, 1) == [];
  }

  //////////////////////////////////////////////////////////////////////////////
  // The image and link pass: split_nodes_images_and_links
  //////////////////////////////////////////////////////////////////////////////

  datatype PartKind = ImagePart | LinkPart

  /** The Markdown of an image or a link: `![text](url)` or `[text](url)`. */
  function Markup(text: string, url: string, kind: PartKind): (r: string)
    ensures |r| >= 4
  {
    (if kind == ImagePart then "!" else "") + "[" + text + "](" + url + ")"
  }

  /** The end of the longest run from `i` on holding neither `a` nor `b`, as the
      greedy classes `[^\[\]]*` and `[^\(\)]*` take it. */
  function RunEnd(t: string, i: nat, a: char, b: char): (j: nat)
    requires i <= |t|
    ensures i <= j <= |t|
    ensures forall k :: i <= k < j ==> t[k] != a && t[k] != b
    ensures j < |t| ==> t[j] == a || t[j] == b
    decreases |t| - i
  {
    if i == |t| || t[i] == a || t[i] == b then i else RunEnd(t, i + 1, a, b)
  }

  /** A match of the regular expression: its two groups and where it ends. */
  datatype Match = Match(text: string, url: string, end: nat)

  /** `\[([^\[\]]*)\]\(([^\(\)]*)\)` matched at index `i`. The greedy classes leave no
      choice: the text runs to the first bracket and the url to the first paren. */
  function BracketAt(t: string, i: nat): Option<Match>
    requires i <= |t|
  {
    if i < |t| && t[i] == '[' then
      var j := RunEnd(t, i + 1, '[', ']');
      if j + 1 < |t| && t[j] == ']' && t[j + 1] == '(' then
        var k := RunEnd(t, j + 2, '(', ')');
        if k < |t| && t[k] == ')' then Some(Match(t[i + 1..j], t[j + 2..k], k + 1)) else None
      else None
    else None
  }

  /** The image pattern (`!` then the bracket pattern) or the link pattern (the
      bracket pattern not preceded by `!`) matched at index `i`. */
  function MarkupAt(t: string, i: nat, kind: PartKind): Option<Match>
    requires i <= |t|
  {
    match kind
    case ImagePart => if i < |t| && t[i] == '!' then BracketAt(t, i + 1) else None
    case LinkPart => if i == 0 || t[i - 1] != '!' then BracketAt(t, i) else None
  }

  /** What a regex group may hold: no bracket in a text, no paren in a url. */
  predicate GroupsOk(text: string, url: string) {
    '[' !in text && ']' !in text && '(' !in url && ')' !in url
  }

  /** A match found by `BracketAt` is the bracket Markdown of its groups, written at `i`. */
  lemma BracketAtSound(t: string, i: nat)
    requires i <= |t| && BracketAt(t, i).Some?
    ensures var m := BracketAt(t, i).value;
            GroupsOk(m.text, m.url)
            && m.end == i + |"[" + m.text + "](" + m.url + ")"|
            && MatchAt(t, i, "[" + m.text + "](" + m.url + ")")
  {
    var m := BracketAt(t, i).value;
    var j := RunEnd(t, i + 1, '[', ']');
    var k := RunEnd(t, j + 2, '(', ')');
    assert t[i + 1..j] == m.text && t[j + 2..k] == m.url && m.end == k + 1;
    BracketSlice(t, i, j, k);
  }

  /** The stretch of `t` from a `[` at `i` to a `)` at `k`, with `](` at `j`. */
  lemma BracketSlice(t: string, i: nat, j: nat, k: nat)
    requires i < j && j + 2 <= k < |t|
    requires t[i] == '[' && t[j] == ']' && t[j + 1] == '(' && t[k] == ')'
    requires '[' !in t[i + 1..j] && ']' !in t[i + 1..j] && '(' !in t[j + 2..k] && ')' !in t[j + 2..k]
    ensures var x, u := t[i + 1..j], t[j + 2..k];
            GroupsOk(x, u) && k + 1 == i + |"[" + x + "](" + u + ")"| && MatchAt(t, i, "[" + x + "](" + u + ")")
  {
    var x, u := t[i + 1..j], t[j + 2..k];
    var l := "[" + x + "](" + u + ")";
    assert |l| == k + 1 - i;
    forall m | 0 <= m < |l|
      ensures t[i + m] == l[m]
    {
      if m == 0 {
      } else if m < 1 + |x| {
        assert l[m] == x[m - 1];
      } else if m < 3 + |x| {
      } else if m < 3 + |x| + |u| {
        assert l[m] == u[m - 3 - |x|];
      }
    }
    assert t[i..i + |l|] == l;
  }

  /** A match found by `MarkupAt` is the Markdown of its groups, written at `i`. */
  lemma MarkupAtSound(t: string, i: nat, kind: PartKind)
    requires i <= |t| && MarkupAt(t, i, kind).Some?
    ensures var m := MarkupAt(t, i, kind).value;
            GroupsOk(m.text, m.url)
            && m.end == i + |Markup(m.text, m.url, kind)|
            && MatchAt(t, i, Markup(m.text, m.url, kind))
  {
    if kind == ImagePart {
      ImageAtSound(t, i);
    } else {
      BracketAtSound(t, i);
    }
  }

  /** `MarkupAtSound` for an image: a `!` and then the bracket Markdown. */
  lemma ImageAtSound(t: string, i: nat)
    requires i < |t| && t[i] == '!' && BracketAt(t, i + 1).Some?
    ensures var m := BracketAt(t, i + 1).value;
            GroupsOk(m.text, m.url)
            && m.end == i + |Markup(m.text, m.url, ImagePart)|
            && MatchAt(t, i, Markup(m.text, m.url, ImagePart))
  {
    BracketAtSound(t, i + 1);
    var m := BracketAt(t, i + 1).value;
    ImageOf(t, i, m.text, m.url);
  }

  /** A `!` and then the bracket Markdown of `x` and `u` is their image Markdown. */
  lemma ImageOf(t: string, i: nat, x: string, u: string)
    requires i < |t| && t[i] == '!' && MatchAt(t, i + 1, "[" + x + "](" + u + ")")
    ensures |Markup(x, u, ImagePart)| == 1 + |"[" + x + "](" + u + ")"|
    ensures MatchAt(t, i, Markup(x, u, ImagePart))
  {
    var br := "[" + x + "](" + u + ")";
    assert Markup(x, u, ImagePart) == "!" + br;
    MatchAfter(t, i, br);
  }

  /** A match of `p` right after a `!` is a match of `"!" + p`. */
  lemma MatchAfter(t: string, i: nat, p: string)
    requires i < |t| && t[i] == '!' && MatchAt(t, i + 1, p)
    ensures MatchAt(t, i, "!" + p)
  {
    assert t[i..i + 1 + |p|] == [t[i]] + t[i + 1..i + 1 + |p|];
  }

  /** `re.findall` of the image or link pattern from index `i`: the groups of each
      match, scanning left to right and resuming after each match. */
  function FindAll(t: string, i: nat, kind: PartKind): seq<(string, string)>
    requires i <= |t|
    decreases |t| - i
  {
    if i == |t| then []
    else
      match MarkupAt(t, i, kind)
      case Some(m) =>
        MarkupAtSound(t, i, kind);
        [(m.text, m.url)] + FindAll(t, m.end, kind)
      case None => FindAll(t, i + 1, kind)
  }

  /** The Markdown of `pair` written at index `p` of `t`, and for a link not right
      after a `!` (the lookbehind `(?<!!)`). */
  predicate WrittenAt(t: string, p: nat, pair: (string, string), kind: PartKind) {
    MatchAt(t, p, Markup(pair.0, pair.1, kind)) && (kind == LinkPart ==> p == 0 || t[p - 1] != '!')
  }

  /** A pair of groups the pattern may give for `t`: what the groups may hold, with
      its Markdown written somewhere in `t`, a link's not right after a `!`. */
  predicate FoundPair(t: string, pair: (string, string), kind: PartKind) {
    GroupsOk(pair.0, pair.1) && exists p: nat | p <= |t| :: WrittenAt(t, p, pair, kind)
  }

  lemma FoundCons(t: string, p: (string, string), rest: seq<(string, string)>, kind: PartKind)
    requires FoundPair(t, p, kind)
    requires forall k :: 0 <= k < |rest| ==> FoundPair(t, rest[k], kind)
    ensures forall k :: 0 <= k < |[p] + rest| ==> FoundPair(t, ([p] + rest)[k], kind)
  {
    forall k | 0 <= k < |[p] + rest|
      ensures FoundPair(t, ([p] + rest)[k], kind)
    {
      if k > 0 {
        assert ([p] + rest)[k] == rest[k - 1];
      }
    }
  }

  /** Every pair `findall` gives holds what the groups may hold, and its Markdown is
      written in the text; a link's is written somewhere not right after a `!`. */
  lemma {:induction false} FindAllSound(t: string, i: nat, kind: PartKind)
    requires i <= |t|
    ensures forall k :: 0 <= k < |FindAll(t, i, kind)| ==> FoundPair(t, FindAll(t, i, kind)[k], kind)
    decreases |t| - i
  {
    if i < |t| {
      var r := FindAll(t, i, kind);
      match MarkupAt(t, i, kind)
      case Some(m) =>
        MarkupAtSound(t, i, kind);
        FindAllSound(t, m.end, kind);
        var rest := FindAll(t, m.end, kind);
        assert r == [(m.text, m.url)] + rest;
        assert FoundPair(t, (m.text, m.url), kind) by {
          assert WrittenAt(t, i, (m.text, m.url), kind);
        }
        FoundCons(t, (m.text, m.url), rest, kind);
      case None =>
        FindAllSound(t, i + 1, kind);
        assert r == FindAll(t, i + 1, kind);
    }
  }

  /** `re.finditer` of a literal from index `i`: the start of each occurrence, left
      to right, the search resuming after each one. */
  function Occurrences(t: string, lit: string, i: nat): seq<nat>
    requires |lit| > 0
    decreases |t| - i
  {
    if i + |lit| > |t| then []
    else if MatchAt(t, i, lit) then [i] + Occurrences(t, lit, i + |lit|)
    else Occurrences(t, lit, i + 1)
  }

  /** Starts of matches of `lit` in `t`, each at or after `i`, not overlapping. */
  predicate MatchStarts(t: string, lit: string, i: nat, r: seq<nat>) {
    && (forall k :: 0 <= k < |r| ==> i <= r[k] && MatchAt(t, r[k], lit))
    && (forall k :: 0 <= k < |r| - 1 ==> r[k] + |lit| <= r[k + 1])
  }

  /** Every start `finditer` reports is a match at or after `i`, and the matches do
      not overlap. */
  lemma {:induction false} OccurrencesSound(t: string, lit: string, i: nat)
    requires |lit| > 0
    ensures MatchStarts(t, lit, i, Occurrences(t, lit, i))
    decreases |t| - i
  {
    if i + |lit| <= |t| {
      if MatchAt(t, i, lit) {
        var rest := Occurrences(t, lit, i + |lit|);
        OccurrencesSound(t, lit, i + |lit|);
        StartsCons(t, lit, i, rest);
      } else {
        OccurrencesSound(t, lit, i + 1);
      }
    }
  }

  /** A match at `i` in front of the matches from `i + |lit|` on. */
  lemma StartsCons(t: string, lit: string, i: nat, rest: seq<nat>)
    requires MatchAt(t, i, lit) && MatchStarts(t, lit, i + |lit|, rest)
    ensures MatchStarts(t, lit, i, [i] + rest)
  {
    var r := [i] + rest;
    forall k | 0 <= k < |r|
      ensures i <= r[k] && MatchAt(t, r[k], lit)
    {
      if k > 0 {
        assert r[k] == rest[k - 1];
      }
    }
    forall k | 0 <= k < |r| - 1
      ensures r[k] + |lit| <= r[k + 1]
    {
      assert r[k + 1] == rest[k];
      if k > 0 {
        assert r[k] == rest[k - 1];
      }
    }
  }


  /** One image or link found in a text: its span, groups and kind, ordered as the
      Python tuple `(start, end, text, url, kind)`. */
  datatype Part = Part(start: nat, end: nat, text: string, url: string, kind: PartKind)

  /** The part is the Markdown of its groups, written at its span in `t`. */
  predicate SoundPart(t: string, p: Part) {
    p.end == p.start + |Markup(p.text, p.url, p.kind)| && MatchAt(t, p.start, Markup(p.text, p.url, p.kind))
      && GroupsOk(p.text, p.url)
  }

  predicate AllSound(t: string, ps: seq<Part>) {
    forall k :: 0 <= k < |ps| ==> SoundPart(t, ps[k])
  }

  /** The parts for one pair of groups found at the given starts. */
  function PartsAt(starts: seq<nat>, text: string, url: string, kind: PartKind): seq<Part> {
    if starts == [] then []
    else
      PartsAt(starts[..|starts| - 1], text, url, kind)
      + [Part(starts[|starts| - 1], starts[|starts| - 1] + |Markup(text, url, kind)|, text, url, kind)]
  }

  /** The parts `_extract_image_parts` and `_extract_link_parts` list for the given
      pairs: every literal occurrence of each pair's Markdown, in the order of the
      pairs. */
  function PartsFor(t: string, pairs: seq<(string, string)>, kind: PartKind): seq<Part> {
    if pairs == [] then []
    else
      var (x, u) := pairs[|pairs| - 1];
      PartsFor(t, pairs[..|pairs| - 1], kind) + PartsAt(Occurrences(t, Markup(x, u, kind), 0), x, u, kind)
  }

  /** Every part listed for pairs that the groups may hold is the Markdown of its
      groups, written at its span. */
  lemma {:induction false} PartsForAllSound(t: string, pairs: seq<(string, string)>, kind: PartKind)
    requires forall k :: 0 <= k < |pairs| ==> GroupsOk(pairs[k].0, pairs[k].1)
    ensures AllSound(t, PartsFor(t, pairs, kind))
  {
    if pairs != [] {
      var (x, u) := pairs[|pairs| - 1];
      PartsForAllSound(t, pairs[..|pairs| - 1], kind);
      OccurrencesSound(t, Markup(x, u, kind), 0);
      PartsForSound(t, Occurrences(t, Markup(x, u, kind), 0), x, u, kind);
    }
  }

  lemma {:induction false} PartsForSound(t: string, starts: seq<nat>, x: string, u: string, kind: PartKind)
    requires GroupsOk(x, u)
    requires forall k :: 0 <= k < |starts| ==> MatchAt(t, starts[k], Markup(x, u, kind))
    ensures AllSound(t, PartsAt(starts, x, u, kind))
  {
    if starts != [] {
      PartsForSound(t, starts[..|starts| - 1], x, u, kind);
    }
  }

  /** `_extract_image_parts` or `_extract_link_parts`, by kind. */
  function PartsOf(t: string, kind: PartKind): seq<Part> {
    PartsFor(t, FindAll(t, 0, kind), kind)
  }

  /** Every part found in a text is the Markdown of its groups, written at its span. */
  lemma PartsOfSound(t: string, kind: PartKind)
    ensures AllSound(t, PartsOf(t, kind))
  {
    var pairs := FindAll(t, 0, kind);
    FindAllSound(t, 0, kind);
    assert forall k :: 0 <= k < |pairs| ==> GroupsOk(pairs[k].0, pairs[k].1) by {
      forall k | 0 <= k < |pairs|
        ensures GroupsOk(pairs[k].0, pairs[k].1)
      {
        assert FoundPair(t, pairs[k], kind);
      }
    }
    PartsForAllSound(t, pairs, kind);
  }

  /** One step of the inner loop of part extraction. */
  lemma PartsAtStep(before: seq<Part>, prev: seq<Part>, starts: seq<nat>, m: nat, x: string, u: string, kind: PartKind)
    requires m < |starts|
    requires prev == before + PartsAt(starts[..m], x, u, kind)
    ensures prev + [Part(starts[m], starts[m] + |Markup(x, u, kind)|, x, u, kind)]
         == before + PartsAt(starts[..m + 1], x, u, kind)
  {
    assert starts[..m + 1][..m] == starts[..m];
  }

  /** The parts for the first `k + 1` pairs: those for the first `k`, then the
      occurrences of pair `k`. */
  lemma PartsForStep(t: string, pairs: seq<(string, string)>, k: nat, kind: PartKind)
    requires k < |pairs|
    ensures PartsFor(t, pairs[..k + 1], kind)
         == PartsFor(t, pairs[..k], kind)
            + PartsAt(Occurrences(t, Markup(pairs[k].0, pairs[k].1, kind), 0), pairs[k].0, pairs[k].1, kind)
  {
    assert pairs[..k + 1][..k] == pairs[..k];
  }

  /** `_extract_image_parts` / `_extract_link_parts`: for each match of the pattern,
      every literal occurrence of its Markdown becomes a part. */
  method ExtractParts(text: string, kind: PartKind) returns (parts: seq<Part>)
    ensures parts == PartsOf(text, kind)
  {
    var pairs := FindAll(text, 0, kind);
    parts := [];
    for k := 0 to |pairs|
      invariant parts == PartsFor(text, pairs[..k], kind)
    {
      var (x, u) := pairs[k];
      var lit := Markup(x, u, kind);
      var starts := Occurrences(text, lit, 0);
      parts := AppendParts(parts, starts, x, u, kind);
      PartsForStep(text, pairs, k, kind);
    }
    assert pairs[..|pairs|] == pairs;
  }

  /** The inner loop of `_extract_image_parts` / `_extract_link_parts`: one part per
      occurrence of the Markdown of `x` and `u`, appended in order. */
  method AppendParts(parts: seq<Part>, starts: seq<nat>, x: string, u: string, kind: PartKind)
    returns (r: seq<Part>)
    ensures r == parts + PartsAt(starts, x, u, kind)
  {
    var lit := Markup(x, u, kind);
    r := parts;
    for m := 0 to |starts|
      invariant r == parts + PartsAt(starts[..m], x, u, kind)
    {
      ghost var prev := r;
      r := r + [Part(starts[m], starts[m] + |lit|, x, u, kind)];
      PartsAtStep(parts, prev, starts, m, x, u, kind);
    }
    assert starts[..|starts|] == starts;
  }

  /** Python's order on the part tuples: by start, end, text, url, then kind
      (`"image"` before `"link"`). */
  predicate PartLe(p: Part, q: Part) {
    if p.start != q.start then p.start < q.start
    else if p.end != q.end then p.end < q.end
    else if p.text != q.text then StrLt(p.text, q.text)
    else if p.url != q.url then StrLt(p.url, q.url)
    else p.kind == ImagePart || q.kind == LinkPart
  }

  /** Any two parts are ordered one way or the other. */
  lemma PartLeTotal(p: Part, q: Part)
    ensures PartLe(p, q) || PartLe(q, p)
  {
    StrLtTotal(p.text, q.text);
    StrLtTotal(p.url, q.url);
  }

  predicate SortedParts(ps: seq<Part>) {
    forall k :: 0 <= k < |ps| - 1 ==> PartLe(ps[k], ps[k + 1])
  }

  /** Inserts `p` into sorted parts before the first part it does not follow. */
  function Insert(p: Part, ps: seq<Part>): seq<Part> {
    if ps == [] || PartLe(p, ps[0]) then [p] + ps
    else [ps[0]] + Insert(p, ps[1..])
  }

  /** Inserting into sorted parts keeps them sorted and adds exactly `p`. */
  lemma {:induction false} InsertSound(p: Part, ps: seq<Part>)
    requires SortedParts(ps)
    ensures SortedParts(Insert(p, ps))
    ensures multiset(Insert(p, ps)) == multiset(ps) + multiset{p}
    ensures Insert(p, ps)[0] == p || (ps != [] && Insert(p, ps)[0] == ps[0])
  {
    if ps != [] && !PartLe(p, ps[0]) {
      PartLeTotal(p, ps[0]);
      InsertSound(p, ps[1..]);
      assert ps == [ps[0]] + ps[1..];
    }
  }

  /** Python's `sorted` on the part tuples. */
  function SortParts(ps: seq<Part>): seq<Part> {
    if ps == [] then [] else Insert(ps[0], SortParts(ps[1..]))
  }

  /** Sorting gives the same parts, in order. */
  lemma {:induction false} SortPartsSound(ps: seq<Part>)
    ensures SortedParts(SortParts(ps))
    ensures multiset(SortParts(ps)) == multiset(ps)
  {
    if ps != [] {
      SortPartsSound(ps[1..]);
      InsertSound(ps[0], SortParts(ps[1..]));
      assert ps == [ps[0]] + ps[1..];
      assert multiset(ps) == multiset(ps[1..]) + multiset{ps[0]};
    }
  }

  /** The node for an image or link part. */
  function PartNode(p: Part): TextNode {
    TextNode(p.text, if p.kind == ImagePart then Image else Link, Some(p.url))
  }

  /** The nodes `_split_text_by_parts` makes from sorted parts, `lastEnd` being the
      end of the previous part: the text between parts (when not empty), each part's
      node, and the text after the last part. */
  function SlicesFrom(t: string, ps: seq<Part>, lastEnd: nat): seq<TextNode>
    decreases |ps|
  {
    if ps == [] then (if lastEnd < |t| then [Plain(t[lastEnd..])] else [])
    else
      var gap := PySlice(t, lastEnd, ps[0].start);
      (if gap != "" then [Plain(gap)] else []) + [PartNode(ps[0])] + SlicesFrom(t, ps[1..], ps[0].end)
  }

  /** `_split_text_by_parts`: walks the sorted parts, emitting the text before each
      part and the part's node, then the rest of the text. */
  method SplitTextByParts(text: string, parts: seq<Part>) returns (nodes: seq<TextNode>)
    ensures nodes == SlicesFrom(text, SortParts(parts), 0)
  {
    nodes := [];
    var lastEnd: nat := 0;
    var sorted := SortParts(parts);
    assert sorted[0..] == sorted;
    for k := 0 to |sorted|
      invariant SlicesFrom(text, SortParts(parts), 0) == nodes + SlicesFrom(text, sorted[k..], lastEnd)
    {
      var p := sorted[k];
      var gap := PySlice(text, lastEnd, p.start);
      ghost var prev := nodes;
      if gap != "" {
        nodes := nodes + [Plain(gap)];
      }
      ghost var mid := nodes;
      nodes := nodes + [PartNode(p)];
      SlicesStep(text, sorted, k, lastEnd, prev, mid, nodes);
      lastEnd := p.end;
    }
    assert sorted[|sorted|..] == [];
    ghost var prev := nodes;
    if lastEnd < |text| {
      nodes := nodes + [Plain(text[lastEnd..])];
    }
    assert nodes == prev + SlicesFrom(text, [], lastEnd);
  }

  /** One step of the slicing loop. */
  lemma SlicesStep(t: string, ps: seq<Part>, k: nat, lastEnd: nat, prev: seq<TextNode>, mid: seq<TextNode>, nodes: seq<TextNode>)
    requires k < |ps|
    requires var gap := PySlice(t, lastEnd, ps[k].start);
             mid == prev + (if gap != "" then [Plain(gap)] else [])
    requires nodes == mid + [PartNode(ps[k])]
    ensures prev + SlicesFrom(t, ps[k..], lastEnd) == nodes + SlicesFrom(t, ps[k + 1..], ps[k].end)
  {
    var gap := PySlice(t, lastEnd, ps[k].start);
    var g := if gap != "" then [Plain(gap)] else [];
    var rest := SlicesFrom(t, ps[k + 1..], ps[k].end);
    assert SlicesFrom(t, ps[k..], lastEnd) == g + [PartNode(ps[k])] + rest by {
      assert ps[k..][0] == ps[k] && ps[k..][1..] == ps[k + 1..];
    }
    assert nodes == prev + g + [PartNode(ps[k])];
    NodesAssoc(prev, g, [PartNode(ps[k])], rest);
  }

  /** Concatenation regrouped, kept as a lemma so that the step it serves sees
      only this one fact. */
  lemma NodesAssoc3(a: seq<TextNode>, b: seq<TextNode>, c: seq<TextNode>)
    ensures a + b + c == a + (b + c)
  {
  }

  lemma NodesAssoc(a: seq<TextNode>, b: seq<TextNode>, c: seq<TextNode>, d: seq<TextNode>)
    ensures a + (b + c + d) == a + b + c + d
  {
  }

  /** Every image and link part of a text, images first. */
  function AllParts(t: string): seq<Part> {
    PartsOf(t, ImagePart) + PartsOf(t, LinkPart)
  }

  /** Every image and link part of a text is the Markdown of its groups, written at
      its span. */
  lemma AllPartsSound(t: string)
    ensures AllSound(t, AllParts(t))
  {
    PartsOfSound(t, ImagePart);
    PartsOfSound(t, LinkPart);
    var ps := AllParts(t);
    var n := |PartsOf(t, ImagePart)|;
    forall k | 0 <= k < |ps|
      ensures SoundPart(t, ps[k])
    {
      if k < n {
        assert ps[k] == PartsOf(t, ImagePart)[k];
      } else {
        assert ps[k] == PartsOf(t, LinkPart)[k - n];
      }
    }
  }

  /** What the image and link pass makes of one node: a TEXT node with parts is cut
      at them; any other node, or a TEXT node without parts, is kept as it is. */
  function ImagesLinksNode(n: TextNode): seq<TextNode> {
    if n.textType != Text then [n]
    else
      var ps := AllParts(n.text);
      if ps == [] then [n] else SlicesFrom(n.text, SortParts(ps), 0)
  }

  /** The nodes `f` makes of each node in turn, one after the other. */
  function FlatMap(f: TextNode -> seq<TextNode>, nodes: seq<TextNode>): seq<TextNode> {
    if nodes == [] then []
    else FlatMap(f, nodes[..|nodes| - 1]) + f(nodes[|nodes| - 1])
  }

  lemma {:induction false} FlatMapConcat(f: TextNode -> seq<TextNode>, a: seq<TextNode>, b: seq<TextNode>)
    ensures FlatMap(f, a + b) == FlatMap(f, a) + FlatMap(f, b)
    decreases |b|
  {
    if b == [] {
      assert a + b == a;
    } else {
      var b' := b[..|b| - 1];
      var n := b[|b| - 1];
      assert (a + b)[..|a + b| - 1] == a + b';
      assert (a + b)[|a + b| - 1] == n;
      FlatMapConcat(f, a, b');
      assert FlatMap(f, a + b) == FlatMap(f, a + b') + f(n);
      assert FlatMap(f, b) == FlatMap(f, b') + f(n);
      assert FlatMap(f, a) + FlatMap(f, b') + f(n) == FlatMap(f, a) + (FlatMap(f, b') + f(n));
    }
  }

  /** The image and link pass over a list of nodes. */
  function ImagesLinksPass(nodes: seq<TextNode>): seq<TextNode> {
    FlatMap(ImagesLinksNode, nodes)
  }

  lemma ImagesLinksStep(nodes: seq<TextNode>, k: nat)
    requires k < |nodes|
    ensures ImagesLinksPass(nodes[..k + 1]) == ImagesLinksPass(nodes[..k]) + ImagesLinksNode(nodes[k])
  {
    assert nodes[..k + 1][..k] == nodes[..k];
    assert FlatMap(ImagesLinksNode, nodes[..k + 1])
        == FlatMap(ImagesLinksNode, nodes[..k]) + ImagesLinksNode(nodes[k]);
  }

  /** `split_nodes_images_and_links`. */
  method SplitNodesImagesAndLinks(oldNodes: seq<TextNode>) returns (newNodes: seq<TextNode>)
    ensures newNodes == ImagesLinksPass(oldNodes)
  {
    newNodes := [];
    for k := 0 to |oldNodes|
      invariant newNodes == ImagesLinksPass(oldNodes[..k])
    {
      var node := oldNodes[k];
      ImagesLinksStep(oldNodes, k);
      if node.textType == Text {
        var imageParts := ExtractParts(node.text, ImagePart);
        var linkParts := ExtractParts(node.text, LinkPart);
        var allParts := imageParts + linkParts;
        if allParts != [] {
          var split := SplitTextByParts(node.text, allParts);
          newNodes := newNodes + split;
        } else {
          newNodes := newNodes + [node];
        }
      } else {
        newNodes := newNodes + [node];
      }
    }
    assert oldNodes[..|oldNodes|] == oldNodes;
  }

  /** The image and link pass over two lists in a row is the pass over each. */
  lemma ImagesLinksConcat(a: seq<TextNode>, b: seq<TextNode>)
    ensures ImagesLinksPass(a + b) == ImagesLinksPass(a) + ImagesLinksPass(b)
  {
    FlatMapConcat(ImagesLinksNode, a, b);
  }

  /** A node that is not TEXT comes out of the image and link pass unchanged and in
      its place. */
  lemma ImagesLinksKeepsOthersInPlace(a: seq<TextNode>, n: TextNode, b: seq<TextNode>)
    requires n.textType != Text
    ensures ImagesLinksPass(a + [n] + b) == ImagesLinksPass(a) + [n] + ImagesLinksPass(b)
  {
    ImagesLinksConcat(a + [n], b);
    ImagesLinksConcat(a, [n]);
    assert [n][..0] == [];
    assert FlatMap(ImagesLinksNode, [n]) == FlatMap(ImagesLinksNode, []) + ImagesLinksNode(n);
  }

  /** Without a `[` neither pattern matches anywhere. */
  lemma {:induction false} FindAllNone(t: string, i: nat, kind: PartKind)
    requires i <= |t| && '[' !in t
    ensures FindAll(t, i, kind) == []
    decreases |t| - i
  {
    if i < |t| {
      assert t[i] != '[';
      assert i + 1 < |t| ==> t[i + 1] != '[';
      assert MarkupAt(t, i, kind) == None;
      FindAllNone(t, i + 1, kind);
    }
  }

  /** A TEXT node without a `[` is kept as it is, url included. */
  lemma NoBracketUnchanged(t: string, u: Option<string>)
    requires '[' !in t
    ensures ImagesLinksNode(TextNode(t, Text, u)) == [TextNode(t, Text, u)]
  {
    FindAllNone(t, 0, ImagePart);
    FindAllNone(t, 0, LinkPart);
  }

  /** A TEXT node is kept as it is exactly when neither pattern reports a match:
      the `if all_parts` test, stated on what `findall` gives. */
  lemma KeptIffNoMatches(t: string, u: Option<string>)
    ensures ImagesLinksNode(TextNode(t, Text, u)) == [TextNode(t, Text, u)]
        <==> FindAll(t, 0, ImagePart) == [] && FindAll(t, 0, LinkPart) == []
  {
    if FindAll(t, 0, ImagePart) != [] {
      SomePairSomePart(t, ImagePart);
      PartsMakeNodes(t, u);
    } else if FindAll(t, 0, LinkPart) != [] {
      SomePairSomePart(t, LinkPart);
      PartsMakeNodes(t, u);
    }
  }

  /** A reported pair gives at least one part: its Markdown is written in the text,
      so the literal re-search finds it. */
  lemma SomePairSomePart(t: string, kind: PartKind)
    requires FindAll(t, 0, kind) != []
    ensures PartsOf(t, kind) != []
  {
    var pairs := FindAll(t, 0, kind);
    FindAllSound(t, 0, kind);
    var last := pairs[|pairs| - 1];
    assert FoundPair(t, last, kind);
    var p: nat :| p <= |t| && WrittenAt(t, p, last, kind);
    var lit := Markup(last.0, last.1, kind);
    OccurrencesFind(t, lit, 0, p);
    PartsAtLength(Occurrences(t, lit, 0), last.0, last.1, kind);
  }

  /** `finditer` reports something whenever the literal is written at or after the
      start of the search. */
  lemma {:induction false} OccurrencesFind(t: string, lit: string, i: nat, j: nat)
    requires |lit| > 0 && i <= j && MatchAt(t, j, lit)
    ensures Occurrences(t, lit, i) != []
    decreases j - i
  {
    if !MatchAt(t, i, lit) {
      OccurrencesFind(t, lit, i + 1, j);
    }
  }

  /** One part per start. */
  lemma {:induction false} PartsAtLength(starts: seq<nat>, x: string, u: string, kind: PartKind)
    ensures |PartsAt(starts, x, u, kind)| == |starts|
  {
    if starts != [] {
      PartsAtLength(starts[..|starts| - 1], x, u, kind);
    }
  }

  /** A text with parts is cut into nodes that hold at least one image or link, so
      it is not kept as one TEXT node. */
  lemma PartsMakeNodes(t: string, u: Option<string>)
    requires AllParts(t) != []
    ensures ImagesLinksNode(TextNode(t, Text, u)) != [TextNode(t, Text, u)]
  {
    var ps := SortParts(AllParts(t));
    SortPartsSound(AllParts(t));
    assert |ps| == |multiset(ps)| == |multiset(AllParts(t))| == |AllParts(t)|;
    SlicesShape(t, ps, 0);
    assert Embedded([TextNode(t, Text, u)]) == [];
  }

  /** The nodes for the parts, in order. */
  function PartNodes(ps: seq<Part>): (r: seq<TextNode>)
    ensures |r| == |ps|
  {
    if ps == [] then [] else [PartNode(ps[0])] + PartNodes(ps[1..])
  }

  /** The nodes that are not TEXT, in order. */
  function Embedded(nodes: seq<TextNode>): seq<TextNode> {
    if nodes == [] then []
    else (if nodes[0].textType != Text then [nodes[0]] else []) + Embedded(nodes[1..])
  }

  lemma {:induction false} EmbeddedConcat(a: seq<TextNode>, b: seq<TextNode>)
    ensures Embedded(a + b) == Embedded(a) + Embedded(b)
  {
    if a == [] {
      assert a + b == b;
    } else {
      var h := if a[0].textType != Text then [a[0]] else [];
      assert (a + b)[0] == a[0] && (a + b)[1..] == a[1..] + b;
      EmbeddedConcat(a[1..], b);
      assert Embedded(a + b) == h + Embedded(a[1..] + b);
      assert Embedded(a) == h + Embedded(a[1..]);
      assert h + (Embedded(a[1..]) + Embedded(b)) == h + Embedded(a[1..]) + Embedded(b);
    }
  }

  /** A TEXT node as the passes make it: some text and no url. */
  predicate PlainOk(n: TextNode) {
    n.textType == Text ==> n.text != "" && n.url == None
  }

  /** Cutting a text at its parts keeps one image or link node per part, in the
      order of the parts, and puts only non-empty TEXT nodes between them. */
  lemma {:induction false} SlicesShape(t: string, ps: seq<Part>, lastEnd: nat)
    ensures Embedded(SlicesFrom(t, ps, lastEnd)) == PartNodes(ps)
    ensures forall k :: 0 <= k < |SlicesFrom(t, ps, lastEnd)| ==> PlainOk(SlicesFrom(t, ps, lastEnd)[k])
    decreases |ps|
  {
    if ps == [] {
      if lastEnd < |t| {
        assert Embedded([Plain(t[lastEnd..])]) == [] + Embedded([]);
      }
    } else {
      SlicesShape(t, ps[1..], ps[0].end);
      SlicesFromHead(t, ps, lastEnd);
      ShapeStep(PySlice(t, lastEnd, ps[0].start), ps[0], SlicesFrom(t, ps[1..], ps[0].end), ps[1..]);
    }
  }

  /** A gap and a part's node in front of nodes of the right shape keep the shape. */
  lemma ShapeStep(gap: string, p: Part, rest: seq<TextNode>, ps: seq<Part>)
    requires Embedded(rest) == PartNodes(ps)
    requires forall k :: 0 <= k < |rest| ==> PlainOk(rest[k])
    ensures var front := (if gap != "" then [Plain(gap)] else []) + [PartNode(p)];
            && Embedded(front + rest) == PartNodes([p] + ps)
            && forall k :: 0 <= k < |front + rest| ==> PlainOk((front + rest)[k])
  {
    ShapeEmbedded(gap, p, rest, ps);
    ShapePlain(gap, p, rest);
  }

  /** The part's node is the one node of the front that is not TEXT. */
  lemma ShapeEmbedded(gap: string, p: Part, rest: seq<TextNode>, ps: seq<Part>)
    requires Embedded(rest) == PartNodes(ps)
    ensures var front := (if gap != "" then [Plain(gap)] else []) + [PartNode(p)];
            Embedded(front + rest) == PartNodes([p] + ps)
  {
    var g := if gap != "" then [Plain(gap)] else [];
    var front := g + [PartNode(p)];
    assert front + rest == g + ([PartNode(p)] + rest);
    EmbeddedConcat(g, [PartNode(p)] + rest);
    EmbeddedConcat([PartNode(p)], rest);
    GapEmbedsNothing(gap);
    assert Embedded([PartNode(p)]) == [PartNode(p)] + Embedded([]);
    assert ([p] + ps)[0] == p && ([p] + ps)[1..] == ps;
  }

  /** A gap holds no node that is not TEXT. */
  lemma GapEmbedsNothing(gap: string)
    ensures Embedded(if gap != "" then [Plain(gap)] else []) == []
  {
    var g := if gap != "" then [Plain(gap)] else [];
    if gap != "" {
      assert g[1..] == [];
    }
  }

  /** The TEXT nodes of the front and of the rest are as the passes make them. */
  lemma ShapePlain(gap: string, p: Part, rest: seq<TextNode>)
    requires forall k :: 0 <= k < |rest| ==> PlainOk(rest[k])
    ensures var front := (if gap != "" then [Plain(gap)] else []) + [PartNode(p)];
            forall k :: 0 <= k < |front + rest| ==> PlainOk((front + rest)[k])
  {
    var front := (if gap != "" then [Plain(gap)] else []) + [PartNode(p)];
    forall k | 0 <= k < |front + rest|
      ensures PlainOk((front + rest)[k])
    {
      if k >= |front| {
        assert (front + rest)[k] == rest[k - |front|];
      } else {
        assert (front + rest)[k] == front[k];
      }
    }
  }

  /** The Markdown a node stands for. */
  function MarkdownOf(n: TextNode): string {
    match n.textType
    case Text => n.text
    case Bold => "**" + n.text + "**"
    case Italic => "*" + n.text + "*"
    case Code => "`" + n.text + "`"
    case Link => Markup(n.text, if n.url.Some? then n.url.value else "", LinkPart)
    case Image => Markup(n.text, if n.url.Some? then n.url.value else "", ImagePart)
  }

  /** The Markdown of a list of nodes, one after the other. */
  function Rendered(nodes: seq<TextNode>): string {
    if nodes == [] then "" else MarkdownOf(nodes[0]) + Rendered(nodes[1..])
  }

  lemma {:induction false} RenderedConcat(a: seq<TextNode>, b: seq<TextNode>)
    ensures Rendered(a + b) == Rendered(a) + Rendered(b)
  {
    if a == [] {
      assert a + b == b;
    } else {
      assert (a + b)[0] == a[0] && (a + b)[1..] == a[1..] + b;
      RenderedConcat(a[1..], b);
    }
  }

  /** Parts in order that do not overlap, none starting before `lastEnd`. */
  predicate Tiled(ps: seq<Part>, lastEnd: nat) {
    && (ps != [] ==> lastEnd <= ps[0].start)
    && (forall k :: 0 <= k < |ps| - 1 ==> ps[k].end <= ps[k + 1].start)
  }

  /** When the sorted parts do not overlap, the nodes made from them spell out the
      text from `lastEnd` on. */
  lemma {:induction false} SlicesReconstruct(t: string, ps: seq<Part>, lastEnd: nat)
    requires lastEnd <= |t|
    requires AllSound(t, ps) && Tiled(ps, lastEnd)
    ensures Rendered(SlicesFrom(t, ps, lastEnd)) == t[lastEnd..]
    decreases |ps|
  {
    if ps == [] {
      if lastEnd < |t| {
        assert Rendered([Plain(t[lastEnd..])]) == t[lastEnd..] + "";
      }
    } else {
      var p := ps[0];
      assert SoundPart(t, p);
      assert AllSound(t, ps[1..]) && Tiled(ps[1..], p.end);
      SlicesReconstruct(t, ps[1..], p.end);
      SliceHead(t, ps, lastEnd);
    }
  }

  /** The first part's gap and node spell out the text up to the part's end. */
  lemma SliceHead(t: string, ps: seq<Part>, lastEnd: nat)
    requires ps != [] && SoundPart(t, ps[0]) && lastEnd <= ps[0].start
    requires Rendered(SlicesFrom(t, ps[1..], ps[0].end)) == t[ps[0].end..]
    ensures Rendered(SlicesFrom(t, ps, lastEnd)) == t[lastEnd..]
  {
    var p := ps[0];
    var gap := PySlice(t, lastEnd, p.start);
    var g := if gap != "" then [Plain(gap)] else [];
    var rest := SlicesFrom(t, ps[1..], p.end);
    GapAndPart(t, p, lastEnd);
    SlicesFromHead(t, ps, lastEnd);
    assert p.end <= |t|;
    RenderedJoin(t, g + [PartNode(p)], rest, lastEnd, p.end);
  }

  /** Nodes spelling out `t[lastEnd..e]` and then `t[e..]` spell out `t[lastEnd..]`. */
  lemma RenderedJoin(t: string, front: seq<TextNode>, rest: seq<TextNode>, lastEnd: nat, e: nat)
    requires lastEnd <= e <= |t|
    requires Rendered(front) == t[lastEnd..e] && Rendered(rest) == t[e..]
    ensures Rendered(front + rest) == t[lastEnd..]
  {
    RenderedConcat(front, rest);
    SliceSplit(t, lastEnd, e);
  }

  /** A stretch of `t` from `i` on is its part up to `e` and the rest. */
  lemma SliceSplit(t: string, i: nat, e: nat)
    requires i <= e <= |t|
    ensures t[i..] == t[i..e] + t[e..]
  {
  }

  /** The slices of a non-empty list of parts: the first gap and part, then the rest. */
  lemma SlicesFromHead(t: string, ps: seq<Part>, lastEnd: nat)
    requires ps != []
    ensures var gap := PySlice(t, lastEnd, ps[0].start);
            SlicesFrom(t, ps, lastEnd)
            == ((if gap != "" then [Plain(gap)] else []) + [PartNode(ps[0])]) + SlicesFrom(t, ps[1..], ps[0].end)
  {
  }

  /** The gap before a part and the part's node spell out the text up to its end. */
  lemma GapAndPart(t: string, p: Part, lastEnd: nat)
    requires SoundPart(t, p) && lastEnd <= p.start
    ensures var gap := PySlice(t, lastEnd, p.start);
            Rendered((if gap != "" then [Plain(gap)] else []) + [PartNode(p)]) == t[lastEnd..p.end]
  {
    var gap := PySlice(t, lastEnd, p.start);
    var g := if gap != "" then [Plain(gap)] else [];
    assert Rendered(g) == t[lastEnd..p.start] by {
      if gap != "" { assert Rendered(g) == gap + ""; }
    }
    assert Rendered([PartNode(p)]) == t[p.start..p.end] by {
      assert Rendered([PartNode(p)]) == MarkdownOf(PartNode(p)) + "";
    }
    RenderedConcat(g, [PartNode(p)]);
    assert t[lastEnd..p.end] == t[lastEnd..p.start] + t[p.start..p.end];
  }

  /** Sorting keeps every part, so sorted parts are as sound as the unsorted ones. */
  lemma SortedSound(t: string, ps: seq<Part>)
    requires AllSound(t, ps)
    ensures AllSound(t, SortParts(ps))
  {
    var r := SortParts(ps);
    SortPartsSound(ps);
    forall k | 0 <= k < |r|
      ensures SoundPart(t, r[k])
    {
      assert r[k] in multiset(r);
      assert r[k] in multiset(ps);
      var j :| 0 <= j < |ps| && ps[j] == r[k];
    }
  }

  /** The image and link pass loses no text: when the parts it finds in a TEXT node do
      not overlap once sorted, the nodes it makes spell out the node's text. */
  lemma ImagesLinksRoundTrip(t: string, u: Option<string>)
    requires Tiled(SortParts(AllParts(t)), 0)
    ensures Rendered(ImagesLinksNode(TextNode(t, Text, u))) == t
  {
    var ps := AllParts(t);
    if ps == [] {
      assert Rendered([TextNode(t, Text, u)]) == t + "";
    } else {
      AllPartsSound(t);
      SortedSound(t, ps);
      SlicesReconstruct(t, SortParts(ps), 0);
      assert t[0..] == t;
    }
  }

  //////////////////////////////////////////////////////////////////////////////
  // from_markdown
  //////////////////////////////////////////////////////////////////////////////

  /** What `from_markdown` computes: one TEXT node through the `*`, `**` and backtick
      passes, then the image and link pass; the first unmatched delimiter fails it. */
  function Inline(text: string): Result<seq<TextNode>, SyntaxError> {
    match DelimiterPass([Plain(text)], "*", Italic)
    case Failure(e) => Failure(e)
    case Success(n1) =>
      match DelimiterPass(n1, "**", Bold)
      case Failure(e) => Failure(e)
      case Success(n2) =>
        match DelimiterPass(n2, "`", Code)
        case Failure(e) => Failure(e)
        case Success(n3) => Success(ImagesLinksPass(n3))
  }

  /** `from_markdown`. */
  method FromMarkdown(text: string) returns (r: Result<seq<TextNode>, SyntaxError>)
    ensures r == Inline(text)
  {
    var nodes := [Plain(text)];
    var step := SplitNodesDelimiter(nodes, "*", Italic);
    if step.Failure? {
      return Failure(step.error);
    }
    step := SplitNodesDelimiter(step.value, "**", Bold);
    if step.Failure? {
      return Failure(step.error);
    }
    step := SplitNodesDelimiter(step.value, "`", Code);
    if step.Failure? {
      return Failure(step.error);
    }
    nodes := SplitNodesImagesAndLinks(step.value);
    return Success(nodes);
  }

  /** A string without the first character of a pattern does not hold the pattern. */
  lemma NoFirstCharNoOccur(s: string, pat: string)
    requires |pat| > 0 && pat[0] !in s
    ensures !Occurs(s, pat)
  {
    forall i: nat | i <= |s|
      ensures !MatchAt(s, i, pat)
    {
      if i + |pat| <= |s| {
        assert s[i..i + |pat|][0] == s[i] != pat[0];
      }
    }
  }

  /** TEXT nodes the delimiter pass leaves alone: with text, no url, no delimiter. */
  predicate Untouched(n: TextNode, d: string)
    requires |d| > 0
  {
    n.textType == Text ==> n.text != "" && n.url == None && !Occurs(n.text, d)
  }

  /** The delimiter pass leaves a list alone when all its TEXT nodes are untouched. */
  lemma {:induction false} DelimiterPassIdentity(nodes: seq<TextNode>, d: string, tt: TextType)
    requires |d| > 0
    requires forall k :: 0 <= k < |nodes| ==> Untouched(nodes[k], d)
    ensures DelimiterPass(nodes, d, tt) == Success(nodes)
  {
    if nodes != [] {
      var rest := nodes[1..];
      assert forall k :: 0 <= k < |rest| ==> Untouched(rest[k], d) by {
        forall k | 0 <= k < |rest|
          ensures Untouched(rest[k], d)
        {
          assert rest[k] == nodes[k + 1];
        }
      }
      DelimiterPassIdentity(rest, d, tt);
      UntouchedSplit(nodes[0], d, tt);
      assert [nodes[0]] + rest == nodes;
    }
  }

  /** A node the pass leaves alone splits into itself. */
  lemma UntouchedSplit(n: TextNode, d: string, tt: TextType)
    requires |d| > 0 && Untouched(n, d)
    ensures DelimiterSplit(n, d, tt) == Success([n])
  {
    if n.textType == Text {
      NoDelimiterIdentity(n.text, d, tt);
      assert Plain(n.text) == n;
    }
  }

  /** A pass that keeps every node as it is keeps the list as it is. */
  lemma {:induction false} FlatMapIdentity(f: TextNode -> seq<TextNode>, nodes: seq<TextNode>)
    requires forall k :: 0 <= k < |nodes| ==> f(nodes[k]) == [nodes[k]]
    ensures FlatMap(f, nodes) == nodes
  {
    if nodes != [] {
      var n := nodes[|nodes| - 1];
      FlatMapIdentity(f, nodes[..|nodes| - 1]);
      assert nodes[..|nodes| - 1] + [n] == nodes;
    }
  }

  /** The image and link pass leaves a list alone when no TEXT node has a `[`. */
  lemma ImagesLinksIdentity(nodes: seq<TextNode>)
    requires forall k :: 0 <= k < |nodes| ==> nodes[k].textType == Text ==> '[' !in nodes[k].text
    ensures ImagesLinksPass(nodes) == nodes
  {
    forall k | 0 <= k < |nodes|
      ensures ImagesLinksNode(nodes[k]) == [nodes[k]]
    {
      if nodes[k].textType == Text {
        NoBracketUnchanged(nodes[k].text, nodes[k].url);
      }
    }
    FlatMapIdentity(ImagesLinksNode, nodes);
  }

  /** `from_markdown` from the results of its passes. */
  lemma InlineOf(t: string, n1: seq<TextNode>, n2: seq<TextNode>, n3: seq<TextNode>, n4: seq<TextNode>)
    requires DelimiterPass([Plain(t)], "*", Italic) == Success(n1)
    requires DelimiterPass(n1, "**", Bold) == Success(n2)
    requires DelimiterPass(n2, "`", Code) == Success(n3)
    requires ImagesLinksPass(n3) == n4
    ensures Inline(t) == Success(n4)
  {
  }

  /** The delimiter pass over a single TEXT node is its split. */
  lemma PassOfOne(t: string, d: string, tt: TextType, ns: seq<TextNode>)
    requires |d| > 0 && DelimiterSplit(Plain(t), d, tt) == Success(ns)
    ensures DelimiterPass([Plain(t)], d, tt) == Success(ns)
  {
    assert [Plain(t)][1..] == [];
    assert ns + [] == ns;
  }

  /** Text with no star, backtick or `[` comes out of `from_markdown` as one TEXT
      node, or none when it is empty. */
  lemma PlainRoundTrip(t: string)
    requires '*' !in t && '`' !in t && '[' !in t
    ensures Inline(t) == Success(if t == "" then [] else [Plain(t)])
  {
    var ns := if t == "" then [] else [Plain(t)];
    NoFirstCharNoOccur(t, "*");
    NoFirstCharNoOccur(t, "**");
    NoFirstCharNoOccur(t, "`");
    NoDelimiterIdentity(t, "*", Italic);
    assert DelimiterPass([Plain(t)], "*", Italic) == Success(ns) by {
      assert [Plain(t)][1..] == [];
      assert ns + [] == ns;
    }
    DelimiterPassIdentity(ns, "**", Bold);
    DelimiterPassIdentity(ns, "`", Code);
    ImagesLinksIdentity(ns);
  }

  /** The nodes around a span: plain `a`, the typed node, plain `b`, the empty plain
      ones dropped. */
  function Around(a: string, n: TextNode, b: string): seq<TextNode> {
    (if a != "" then [Plain(a)] else []) + [n] + (if b != "" then [Plain(b)] else [])
  }

  /** The later passes leave the nodes around a span alone. */
  lemma AroundUntouched(a: string, n: TextNode, b: string, d: string)
    requires |d| > 0 && d[0] !in a && d[0] !in b && n.textType != Text
    ensures forall k :: 0 <= k < |Around(a, n, b)| ==> Untouched(Around(a, n, b)[k], d)
  {
    NoFirstCharNoOccur(a, d);
    NoFirstCharNoOccur(b, d);
  }

  /** The delimiter pass over one TEXT node holding one span of `d`. */
  lemma SpanPass(a: string, m: string, b: string, d: string, tt: TextType)
    requires |d| > 0 && m != "" && d[0] !in a && d[0] !in m && d[0] !in b
    ensures DelimiterPass([Plain(a + d + m + d + b)], d, tt) == Success(Around(a, TextNode(m, tt, None), b))
  {
    OneSpan(a, m, b, d, tt);
    PassOfOne(a + d + m + d + b, d, tt, Around(a, TextNode(m, tt, None), b));
  }

  /** A later delimiter pass leaves the nodes around a span alone. */
  lemma AroundPass(a: string, n: TextNode, b: string, d: string, tt: TextType)
    requires |d| > 0 && d[0] !in a && d[0] !in b && n.textType != Text
    ensures DelimiterPass(Around(a, n, b), d, tt) == Success(Around(a, n, b))
  {
    AroundUntouched(a, n, b, d);
    DelimiterPassIdentity(Around(a, n, b), d, tt);
  }

  /** The image and link pass leaves the nodes around a span alone. */
  lemma AroundLinks(a: string, n: TextNode, b: string)
    requires '[' !in a && '[' !in b && n.textType != Text
    ensures ImagesLinksPass(Around(a, n, b)) == Around(a, n, b)
  {
    ImagesLinksIdentity(Around(a, n, b));
  }

  /** The delimiter pass over a TEXT node without the delimiter's first character. */
  lemma PlainPass(t: string, d: string, tt: TextType)
    requires |d| > 0 && d[0] !in t && t != ""
    ensures DelimiterPass([Plain(t)], d, tt) == Success([Plain(t)])
  {
    NoFirstCharNoOccur(t, d);
    NoDelimiterIdentity(t, d, tt);
    PassOfOne(t, d, tt, [Plain(t)]);
  }

  /** The `*` pass over one TEXT node holding one `**` span after plain text. */
  lemma PairPass(a: string, m: string, b: string)
    requires a != "" && '*' !in a && '*' !in m && '*' !in b
    ensures DelimiterPass([Plain(a + "**" + m + "**" + b)], "*", Italic) == Success([Plain(a + "**" + m + "**" + b)])
  {
    StarPassKeepsPairs(a, m, b, Italic);
    PassOfOne(a + "**" + m + "**" + b, "*", Italic, [Plain(a + "**" + m + "**" + b)]);
  }

  /** `**m**` after plain text becomes a BOLD node between TEXT nodes. */
  lemma BoldSpan(a: string, m: string, b: string)
    requires a != "" && m != ""
    requires '*' !in a + m + b && '`' !in a + m + b && '[' !in a + m + b
    ensures Inline(a + "**" + m + "**" + b) == Success(Around(a, TextNode(m, Bold, None), b))
  {
    var t := a + "**" + m + "**" + b;
    var n := TextNode(m, Bold, None);
    assert '*' !in a && '*' !in m && '*' !in b;
    assert '`' !in a && '`' !in b && '[' !in a && '[' !in b;
    PairPass(a, m, b);
    SpanPass(a, m, b, "**", Bold);
    AroundPass(a, n, b, "`", Code);
    AroundLinks(a, n, b);
    InlineOf(t, [Plain(t)], Around(a, n, b), Around(a, n, b), Around(a, n, b));
  }

  /** As written, `**m**` at the very start of a text is not bold: `from_markdown`
      gives one ITALIC node `m*b`, the first star of each pair gone. */
  lemma BoldAtStartAsWritten(m: string, b: string)
    requires m != "" && '*' !in m && '*' !in b
    ensures Inline("**" + m + "**" + b) == Success([TextNode(m + "*" + b, Italic, None)])
  {
    var t := "**" + m + "**" + b;
    var n := TextNode(m + "*" + b, Italic, None);
    LeadingPairAsWritten(m, b);
    PassOfOne(t, "*", Italic, [n]);
    assert Around("", n, "") == [n];
    AroundPass("", n, "", "**", Bold);
    AroundPass("", n, "", "`", Code);
    AroundLinks("", n, "");
    InlineOf(t, [n], [n], [n], [n]);
  }

  /** `*m*` between plain texts becomes an ITALIC node between TEXT nodes. */
  lemma ItalicSpan(a: string, m: string, b: string)
    requires m != ""
    requires '*' !in a + m + b && '`' !in a + m + b && '[' !in a + m + b
    ensures Inline(a + "*" + m + "*" + b) == Success(Around(a, TextNode(m, Italic, None), b))
  {
    var t := a + "*" + m + "*" + b;
    var n := TextNode(m, Italic, None);
    assert '*' !in a && '*' !in m && '*' !in b;
    assert '`' !in a && '`' !in b && '[' !in a && '[' !in b;
    SpanPass(a, m, b, "*", Italic);
    AroundPass(a, n, b, "**", Bold);
    AroundPass(a, n, b, "`", Code);
    AroundLinks(a, n, b);
    InlineOf(t, Around(a, n, b), Around(a, n, b), Around(a, n, b), Around(a, n, b));
  }

  /** `` `m` `` between plain texts becomes a CODE node between TEXT nodes. */
  lemma CodeSpan(a: string, m: string, b: string)
    requires m != ""
    requires '*' !in a + m + b && '`' !in a + m + b && '[' !in a + m + b
    ensures Inline(a + "`" + m + "`" + b) == Success(Around(a, TextNode(m, Code, None), b))
  {
    var t := a + "`" + m + "`" + b;
    var n := TextNode(m, Code, None);
    assert '`' !in a && '`' !in m && '`' !in b && '[' !in a && '[' !in b;
    assert '*' !in t;
    PlainPass(t, "*", Italic);
    PlainPass(t, "**", Bold);
    SpanPass(a, m, b, "`", Code);
    AroundLinks(a, n, b);
    InlineOf(t, [Plain(t)], [Plain(t)], Around(a, n, b), Around(a, n, b));
  }

  /** The run ends at the first bracket (or paren) it meets. */
  lemma {:induction false} RunEndAt(t: string, i: nat, j: nat, a: char, b: char)
    requires i <= j < |t|
    requires forall k :: i <= k < j ==> t[k] != a && t[k] != b
    requires t[j] == a || t[j] == b
    ensures RunEnd(t, i, a, b) == j
    decreases j - i
  {
    if i < j {
      RunEndAt(t, i + 1, j, a, b);
    }
  }

  /** `findall` passes over positions where the pattern does not match. */
  lemma FindAllSkip(t: string, i: nat, e: nat, kind: PartKind)
    requires i <= e <= |t|
    requires forall j: nat | i <= j < e :: MarkupAt(t, j, kind) == None
    ensures FindAll(t, i, kind) == FindAll(t, e, kind)
  {
    MissesFrom(t, i, e, kind);
    FindAllMisses(t, i, e, kind);
  }

  /** No match of the pattern starts in `[i, e)`, position by position. */
  predicate Misses(t: string, i: nat, e: nat, kind: PartKind)
    requires e <= |t|
    decreases e - i
  {
    i >= e || (MarkupAt(t, i, kind) == None && Misses(t, i + 1, e, kind))
  }

  lemma {:induction false} MissesFrom(t: string, i: nat, e: nat, kind: PartKind)
    requires i <= e <= |t|
    requires forall j: nat | i <= j < e :: MarkupAt(t, j, kind) == None
    ensures Misses(t, i, e, kind)
    decreases e - i
  {
    if i < e {
      MissesFrom(t, i + 1, e, kind);
    }
  }

  lemma {:induction false} FindAllMisses(t: string, i: nat, e: nat, kind: PartKind)
    requires i <= e <= |t| && Misses(t, i, e, kind)
    ensures FindAll(t, i, kind) == FindAll(t, e, kind)
    decreases e - i
  {
    if i < e {
      FindAllMisses(t, i + 1, e, kind);
      FindAllMiss(t, i, kind);
    }
  }

  /** `findall` moves on by one where the pattern does not match. */
  lemma FindAllMiss(t: string, i: nat, kind: PartKind)
    requires i < |t| && MarkupAt(t, i, kind) == None
    ensures FindAll(t, i, kind) == FindAll(t, i + 1, kind)
  {
  }

  /** `finditer` of a literal passes over positions that do not hold its first
      character. */
  lemma {:induction false} OccurrencesSkip(t: string, lit: string, i: nat, e: nat)
    requires |lit| > 0 && i <= e <= |t|
    requires forall j :: i <= j < e ==> t[j] != lit[0]
    ensures Occurrences(t, lit, i) == Occurrences(t, lit, e)
    decreases e - i
  {
    if i < e && i + |lit| <= |t| {
      assert t[i..i + |lit|][0] == t[i];
      OccurrencesSkip(t, lit, i + 1, e);
    }
  }

  /** Where the pieces of `[x](u)` written at `i` fall. */
  lemma LinkLayout(t: string, i: nat, x: string, u: string)
    requires MatchAt(t, i, Markup(x, u, LinkPart))
    ensures var j := i + 1 + |x|;
            var k := j + 2 + |u|;
            && k < |t| && t[i] == '[' && t[j] == ']' && t[j + 1] == '(' && t[k] == ')'
            && t[i + 1..j] == x && t[j + 2..k] == u
  {
    var j := i + 1 + |x|;
    var k := j + 2 + |u|;
    var l := Markup(x, u, LinkPart);
    assert l == "[" + x + "](" + u + ")";
    assert t[i..k + 1] == l;
    assert t[i] == l[0] && t[j] == l[1 + |x|] && t[j + 1] == l[2 + |x|] && t[k] == l[3 + |x| + |u|];
    forall m | 0 <= m < |x|
      ensures t[i + 1 + m] == x[m]
    {
      assert t[i + 1 + m] == t[i..k + 1][1 + m] == l[1 + m];
    }
    assert t[i + 1..j] == x;
    forall m | 0 <= m < |u|
      ensures t[j + 2 + m] == u[m]
    {
      assert t[j + 2 + m] == t[i..k + 1][3 + |x| + m] == l[3 + |x| + m];
    }
    assert t[j + 2..k] == u;
  }

  /** The link pattern matches `[x](u)` written at `i` when `i` does not follow a `!`. */
  lemma LinkMatch(t: string, i: nat, x: string, u: string)
    requires GroupsOk(x, u) && MatchAt(t, i, Markup(x, u, LinkPart))
    requires i == 0 || t[i - 1] != '!'
    ensures MarkupAt(t, i, LinkPart) == Some(Match(x, u, i + |Markup(x, u, LinkPart)|))
  {
    BracketFound(t, i, x, u);
  }

  /** The bracket pattern matches `[x](u)` written at `i`, up to its end. */
  lemma BracketFound(t: string, i: nat, x: string, u: string)
    requires GroupsOk(x, u) && MatchAt(t, i, Markup(x, u, LinkPart))
    ensures BracketAt(t, i) == Some(Match(x, u, i + |Markup(x, u, LinkPart)|))
  {
    var j := i + 1 + |x|;
    var k := j + 2 + |u|;
    LinkLayout(t, i, x, u);
    forall m | i + 1 <= m < j
      ensures t[m] != '[' && t[m] != ']'
    {
      assert t[m] == t[i + 1..j][m - i - 1];
    }
    forall m | j + 2 <= m < k
      ensures t[m] != '(' && t[m] != ')'
    {
      assert t[m] == t[j + 2..k][m - j - 2];
    }
    BracketMatch(t, i, j, k);
  }

  /** The bracket pattern at a `[` at `i`, with `](` at `j` and `)` at `k` and no
      bracket or paren between them, matches up to `k`. */
  lemma BracketMatch(t: string, i: nat, j: nat, k: nat)
    requires i < j && j + 2 <= k < |t|
    requires t[i] == '[' && t[j] == ']' && t[j + 1] == '(' && t[k] == ')'
    requires forall m :: i + 1 <= m < j ==> t[m] != '[' && t[m] != ']'
    requires forall m :: j + 2 <= m < k ==> t[m] != '(' && t[m] != ')'
    ensures BracketAt(t, i) == Some(Match(t[i + 1..j], t[j + 2..k], k + 1))
  {
    RunEndAt(t, i + 1, j, '[', ']');
    RunEndAt(t, j + 2, k, '(', ')');
  }

  /** The characters of `a + l + b`, piece by piece. */
  lemma Placed(a: string, l: string, b: string)
    ensures forall m :: 0 <= m < |a| ==> (a + l + b)[m] == a[m]
    ensures forall m :: 0 <= m < |l| ==> (a + l + b)[|a| + m] == l[m]
    ensures forall m :: 0 <= m < |b| ==> (a + l + b)[|a| + |l| + m] == b[m]
    ensures MatchAt(a + l + b, |a|, l)
  {
    assert (a + l + b)[|a|..|a| + |l|] == l;
  }

  /** `findall` of the link pattern over a text holding one link and no other `[`. */
  lemma OneLinkFound(a: string, x: string, u: string, b: string)
    requires GroupsOk(x, u)
    requires '!' !in a && '[' !in a && '[' !in b
    ensures FindAll(a + Markup(x, u, LinkPart) + b, 0, LinkPart) == [(x, u)]
  {
    var l := Markup(x, u, LinkPart);
    var t := a + l + b;
    var e := |a| + |l|;
    MiddlePlaced(t, a, l, b);
    LinkApart(a, l, b);
    OneLinkWritten(t, 0, |a|, x, u);
  }

  /** The middle of three texts in a row is found where the first ends, and no `!`
      precedes it when the first has none. */
  lemma MiddlePlaced(t: string, a: string, l: string, b: string)
    requires t == a + l + b && '!' !in a
    ensures MatchAt(t, |a|, l) && (|a| == 0 || t[|a| - 1] != '!')
  {
    assert t[|a|..|a| + |l|] == l;
    if |a| > 0 {
      assert t[|a| - 1] == a[|a| - 1];
    }
  }

  /** Where a link `l` stands between a text `a` without `[` and a text `b` without
      `[`, no other `[` is found. */
  lemma LinkApart(a: string, l: string, b: string)
    requires '[' !in a && '[' !in b
    ensures forall m :: 0 <= m < |a| ==> (a + l + b)[m] != '['
    ensures forall m :: |a| + |l| <= m < |a + l + b| ==> (a + l + b)[m] != '['
  {
    var t := a + l + b;
    var e := |a| + |l|;
    forall m | 0 <= m < |a|
      ensures t[m] != '['
    {
      assert t[m] == a[m];
    }
    forall m | e <= m < |t|
      ensures t[m] != '['
    {
      assert t[m] == b[m - e];
    }
  }

  /** `findall` finds the image or link `![x](u)` or `[x](u)` written at `i` when the
      pattern matches nowhere in `[j, i)`, and a link where no `!` precedes it: its
      groups come first, then what is found after it. */
  lemma FindAllFinds(t: string, j: nat, i: nat, x: string, u: string, kind: PartKind)
    requires j <= i && GroupsOk(x, u) && MatchAt(t, i, Markup(x, u, kind))
    requires kind == LinkPart ==> i == 0 || t[i - 1] != '!'
    requires forall m: nat | j <= m < i :: MarkupAt(t, m, kind) == None
    ensures FindAll(t, j, kind) == [(x, u)] + FindAll(t, i + |Markup(x, u, kind)|, kind)
  {
    MarkupFound(t, i, x, u, kind);
    FindAllSkip(t, j, i, kind);
    FindAllAt(t, i, kind, x, u, i + |Markup(x, u, kind)|);
  }

  /** The pattern of `kind` matches its Markdown written at `i`, a link only where no
      `!` precedes it. */
  lemma MarkupFound(t: string, i: nat, x: string, u: string, kind: PartKind)
    requires GroupsOk(x, u) && MatchAt(t, i, Markup(x, u, kind))
    requires kind == LinkPart ==> i == 0 || t[i - 1] != '!'
    ensures MarkupAt(t, i, kind) == Some(Match(x, u, i + |Markup(x, u, kind)|))
  {
    if kind == LinkPart {
      LinkMatch(t, i, x, u);
    } else {
      ImageMatch(t, i, x, u);
    }
  }

  /** The image pattern matches `![x](u)` written at `i`, up to its end. */
  lemma ImageMatch(t: string, i: nat, x: string, u: string)
    requires GroupsOk(x, u) && MatchAt(t, i, Markup(x, u, ImagePart))
    ensures MarkupAt(t, i, ImagePart) == Some(Match(x, u, i + |Markup(x, u, ImagePart)|))
  {
    MarkupOfImage(x, u);
    ImageSplit(t, i, Markup(x, u, LinkPart));
    BracketFound(t, i + 1, x, u);
  }

  /** An image's Markdown is a `!` and then the link Markdown of its groups. */
  lemma MarkupOfImage(x: string, u: string)
    ensures Markup(x, u, ImagePart) == "!" + Markup(x, u, LinkPart)
  {
    assert "" + ("[" + x + "](" + u + ")") == "[" + x + "](" + u + ")";
  }

  /** `"!" + l` written at `i` is a `!` and then `l`. */
  lemma ImageSplit(t: string, i: nat, l: string)
    requires MatchAt(t, i, "!" + l)
    ensures t[i] == '!' && MatchAt(t, i + 1, l)
  {
    assert t[i..i + 1 + |l|] == "!" + l;
    assert t[i + 1..i + 1 + |l|] == t[i..i + 1 + |l|][1..];
  }

  /** The link pattern never reports an image: the only `[` of `![x](u)` follows
      its `!`. */
  lemma ImageNotLink(a: string, x: string, u: string, b: string)
    requires '[' !in a && '[' !in x && '[' !in u && '[' !in b
    ensures FindAll(a + Markup(x, u, ImagePart) + b, 0, LinkPart) == []
  {
    var l := Markup(x, u, ImagePart);
    var t := a + l + b;
    ImageBrackets(x, u);
    Placed(a, l, b);
    forall m: nat | m < |t|
      ensures MarkupAt(t, m, LinkPart) == None
    {
      if m < |a| {
        assert t[m] == a[m];
      } else if m < |a| + |l| {
        assert t[m] == l[m - |a|];
        if m == |a| + 1 {
          assert t[m - 1] == l[0];
        }
      } else {
        assert t[m] == b[m - |a| - |l|];
      }
    }
    FindAllSkip(t, 0, |t|, LinkPart);
  }

  /** `![x](u)` holds a `[` only right after its `!`, when `x` and `u` hold none. */
  lemma ImageBrackets(x: string, u: string)
    requires '[' !in x && '[' !in u
    ensures var l := Markup(x, u, ImagePart);
            l[0] == '!' && forall m :: 0 <= m < |l| && m != 1 ==> l[m] != '['
  {
    var l := Markup(x, u, ImagePart);
    assert l == "![" + x + "](" + u + ")";
    forall m | 0 <= m < |l| && m != 1
      ensures l[m] != '['
    {
      if 2 <= m < 2 + |x| {
        assert l[m] == x[m - 2];
      } else if 4 + |x| <= m < 4 + |x| + |u| {
        assert l[m] == u[m - 4 - |x|];
      }
    }
  }

  /** `OneLinkFound`, stated on the positions of `t` from `j` on: the link `[x](u)`
      is written at `i`, after no `!`, and `t` holds no other `[` from `j` on. */
  lemma OneLinkWritten(t: string, j: nat, i: nat, x: string, u: string)
    requires j <= i && GroupsOk(x, u) && MatchAt(t, i, Markup(x, u, LinkPart))
    requires i == 0 || t[i - 1] != '!'
    requires forall m :: j <= m < i ==> t[m] != '['
    requires forall m :: i + |Markup(x, u, LinkPart)| <= m < |t| ==> t[m] != '['
    ensures FindAll(t, j, LinkPart) == [(x, u)]
  {
    var e := i + |Markup(x, u, LinkPart)|;
    NoBracketNoLink(t, j, i);
    LinkFirst(t, j, i, x, u);
    NothingAfter(t, e);
    OneFoundBefore(t, j, e, x, u);
  }

  /** A link written at `i`, after no `!`, is the first thing `findall` finds from
      `j` when the pattern matches nowhere before it. */
  lemma LinkFirst(t: string, j: nat, i: nat, x: string, u: string)
    requires j <= i && GroupsOk(x, u) && MatchAt(t, i, Markup(x, u, LinkPart))
    requires i == 0 || t[i - 1] != '!'
    requires forall m: nat | j <= m < i :: MarkupAt(t, m, LinkPart) == None
    ensures FindAll(t, j, LinkPart) == [(x, u)] + FindAll(t, i + |Markup(x, u, LinkPart)|, LinkPart)
  {
    FindAllFinds(t, j, i, x, u, LinkPart);
  }

  /** `findall` of the link pattern finds nothing after the last `[`. */
  lemma NothingAfter(t: string, e: nat)
    requires e <= |t| && forall m :: e <= m < |t| ==> t[m] != '['
    ensures FindAll(t, e, LinkPart) == []
  {
    NoLinkBetween(t, e, |t|);
  }

  /** The link pattern matches nowhere in a stretch without `[`. */
  lemma NoBracketNoLink(t: string, i: nat, e: nat)
    requires i <= e <= |t|
    requires forall m :: i <= m < e ==> t[m] != '['
    ensures forall m: nat | i <= m < e :: MarkupAt(t, m, LinkPart) == None
  {
  }

  /** A text whose `findall` is one match and then nothing finds that one match. */
  lemma OneFoundBefore(t: string, j: nat, e: nat, x: string, u: string)
    requires j <= |t| && e <= |t| && FindAll(t, e, LinkPart) == []
    requires FindAll(t, j, LinkPart) == [(x, u)] + FindAll(t, e, LinkPart)
    ensures FindAll(t, j, LinkPart) == [(x, u)]
  {
    assert [(x, u)] + [] == [(x, u)];
  }

  /** `findall` of the link pattern passes over a stretch without `[`. */
  lemma NoLinkBetween(t: string, i: nat, e: nat)
    requires i <= e <= |t|
    requires forall m :: i <= m < e ==> t[m] != '['
    ensures FindAll(t, i, LinkPart) == FindAll(t, e, LinkPart)
  {
    FindAllSkip(t, i, e, LinkPart);
  }

  /** `finditer` of a link's Markdown in a text holding it once and no other `[`. */
  lemma OneLinkOccurs(a: string, l: string, b: string)
    requires |l| > 0 && l[0] == '['
    requires '[' !in a && '[' !in b
    ensures Occurrences(a + l + b, l, 0) == [|a|]
  {
    var t := a + l + b;
    Placed(a, l, b);
    forall m | 0 <= m < |a|
      ensures t[m] != l[0]
    {
      assert t[m] == a[m];
    }
    forall m | |a| + |l| <= m < |t|
      ensures t[m] != l[0]
    {
      assert t[m] == b[m - |a| - |l|];
    }
    OneOccurrenceAt(t, l, |a|);
  }

  /** `OneLinkOccurs`, stated on the positions of `t`: the literal is at `i`. */
  lemma OneOccurrenceAt(t: string, l: string, i: nat)
    requires |l| > 0 && MatchAt(t, i, l)
    requires forall m :: 0 <= m < i ==> t[m] != l[0]
    requires forall m :: i + |l| <= m < |t| ==> t[m] != l[0]
    ensures Occurrences(t, l, 0) == [i]
  {
    assert Occurrences(t, l, 0) == Occurrences(t, l, i) by {
      OccurrencesSkip(t, l, 0, i);
    }
    assert Occurrences(t, l, i + |l|) == [] by {
      OccurrencesSkip(t, l, i + |l|, |t|);
      assert Occurrences(t, l, |t|) == [];
    }
    assert Occurrences(t, l, i) == [i] + Occurrences(t, l, i + |l|);
    assert [i] + [] == [i];
  }

  /** The parts of a text holding one link and no other bracket or `!`. */
  lemma OneLinkParts(a: string, x: string, u: string, b: string)
    requires GroupsOk(x, u)
    requires '!' !in a + x + u + b && '[' !in a && '[' !in b
    ensures var t := a + Markup(x, u, LinkPart) + b;
            AllParts(t) == [Part(|a|, |a| + |Markup(x, u, LinkPart)|, x, u, LinkPart)]
  {
    var l := Markup(x, u, LinkPart);
    var t := a + l + b;
    assert PartsOf(t, ImagePart) == [] by {
      assert '!' !in a && '!' !in x && '!' !in u && '!' !in b;
      assert '!' !in l by {
        assert l == "[" + x + "](" + u + ")";
      }
      NoImageParts(t);
    }
    assert FindAll(t, 0, LinkPart) == [(x, u)] by {
      assert '!' !in a;
      OneLinkFound(a, x, u, b);
    }
    assert Occurrences(t, l, 0) == [|a|] by {
      OneLinkOccurs(a, l, b);
    }
    OneLinkPartsFor(t, x, u, |a|);
  }

  /** The parts of a text with no image and one link `[x](u)`, found once, at `i`. */
  lemma OneLinkPartsFor(t: string, x: string, u: string, i: nat)
    requires GroupsOk(x, u) && PartsOf(t, ImagePart) == []
    requires FindAll(t, 0, LinkPart) == [(x, u)]
    requires Occurrences(t, Markup(x, u, LinkPart), 0) == [i]
    ensures AllParts(t) == [Part(i, i + |Markup(x, u, LinkPart)|, x, u, LinkPart)]
  {
    var p := Part(i, i + |Markup(x, u, LinkPart)|, x, u, LinkPart);
    assert [(x, u)][..0] == [];
    assert PartsAt([i], x, u, LinkPart) == [] + [p];
    assert PartsFor(t, [(x, u)], LinkPart) == [] + PartsAt([i], x, u, LinkPart);
    assert PartsOf(t, LinkPart) == [p];
    assert [] + [p] == [p];
  }

  /** Text with no star or backtick goes through the delimiter passes untouched, so
      `from_markdown` is the image and link pass over it. */
  lemma NoDelimitersInline(t: string)
    requires t != "" && '*' !in t && '`' !in t
    ensures Inline(t) == Success(ImagesLinksNode(Plain(t)))
  {
    NoFirstCharNoOccur(t, "*");
    NoFirstCharNoOccur(t, "**");
    NoFirstCharNoOccur(t, "`");
    NoDelimiterIdentity(t, "*", Italic);
    PassOfOne(t, "*", Italic, [Plain(t)]);
    NoDelimiterIdentity(t, "**", Bold);
    PassOfOne(t, "**", Bold, [Plain(t)]);
    NoDelimiterIdentity(t, "`", Code);
    PassOfOne(t, "`", Code, [Plain(t)]);
    assert ImagesLinksPass([Plain(t)]) == ImagesLinksNode(Plain(t)) by {
      assert [Plain(t)][..0] == [];
      assert FlatMap(ImagesLinksNode, [Plain(t)]) == FlatMap(ImagesLinksNode, []) + ImagesLinksNode(Plain(t));
    }
    InlineOf(t, [Plain(t)], [Plain(t)], [Plain(t)], ImagesLinksNode(Plain(t)));
  }

  /** `_split_text_by_parts` over the one part spanning `l` in `a + l + b`. */
  lemma OneLinkSlices(a: string, l: string, b: string, p: Part)
    requires p.start == |a| && p.end == |a| + |l|
    ensures SlicesFrom(a + l + b, [p], 0) == Around(a, PartNode(p), b)
  {
    var t := a + l + b;
    assert t[..|a|] == a && t[p.end..] == b;
    assert PySlice(t, 0, |a|) == a;
    assert SlicesFrom(t, [], p.end) == (if b != "" then [Plain(b)] else []);
    assert [p][1..] == [];
  }

  /** The image and link pass turns the one link of `a [x](u) b` into a LINK node. */
  lemma OneLinkNode(a: string, x: string, u: string, b: string)
    requires GroupsOk(x, u)
    requires '!' !in a + x + u + b && '[' !in a && '[' !in b
    ensures ImagesLinksNode(Plain(a + Markup(x, u, LinkPart) + b))
            == Around(a, TextNode(x, Link, Some(u)), b)
  {
    var l := Markup(x, u, LinkPart);
    var t := a + l + b;
    var e := |a| + |l|;
    var p := Part(|a|, e, x, u, LinkPart);
    assert ImagesLinksNode(Plain(t)) == SlicesFrom(t, [p], 0) by {
      OneLinkParts(a, x, u, b);
      PartsCut(t, [p]);
      assert SortParts([p]) == [p];
    }
    OneLinkSlices(a, l, b, p);
  }

  /** A single link `[x](u)` in plain text becomes a LINK node carrying its url,
      between the TEXT nodes around it. */
  lemma LinkSpan(a: string, x: string, u: string, b: string)
    requires GroupsOk(x, u)
    requires var t := a + Markup(x, u, LinkPart) + b;
             '!' !in t && '*' !in t && '`' !in t
    requires '[' !in a && '[' !in b
    ensures Inline(a + Markup(x, u, LinkPart) + b) == Success(Around(a, TextNode(x, Link, Some(u)), b))
  {
    var l := Markup(x, u, LinkPart);
    var t := a + l + b;
    assert l == "[" + x + "](" + u + ")";
    assert '!' !in a + x + u + b by {
      assert t == a + "[" + x + "](" + u + ")" + b;
    }
    OneLinkNode(a, x, u, b);
    NoDelimitersInline(t);
  }

  /** `findall` of the link pattern over a link written twice finds it twice. */
  lemma TwiceFound(x: string, u: string)
    requires GroupsOk(x, u)
    ensures var l := Markup(x, u, LinkPart);
            FindAll(l + l, 0, LinkPart) == [(x, u), (x, u)]
  {
    var l := Markup(x, u, LinkPart);
    var t := l + l;
    var n := |l|;
    assert FindAll(t, n, LinkPart) == [(x, u)] by {
      SecondCopyFound(x, u);
    }
    FirstCopyMatch(x, u);
    FindAllAt(t, 0, LinkPart, x, u, n);
    assert [(x, u)] + [(x, u)] == [(x, u), (x, u)];
  }

  /** The link pattern matches the first copy of a link written twice. */
  lemma FirstCopyMatch(x: string, u: string)
    requires GroupsOk(x, u)
    ensures var l := Markup(x, u, LinkPart);
            MarkupAt(l + l, 0, LinkPart) == Some(Match(x, u, |l|))
  {
    var l := Markup(x, u, LinkPart);
    var t := l + l;
    assert MatchAt(t, 0, l) by { assert t[0..|l|] == l; }
    LinkMatch(t, 0, x, u);
  }

  /** From the end of the first copy, `findall` finds the second copy and nothing
      after it. */
  lemma SecondCopyFound(x: string, u: string)
    requires GroupsOk(x, u)
    ensures var l := Markup(x, u, LinkPart);
            FindAll(l + l, |l|, LinkPart) == [(x, u)]
  {
    var l := Markup(x, u, LinkPart);
    var t := l + l;
    TwinPlaced(x, u);
    FindAllFinds(t, |l|, |l|, x, u, LinkPart);
    assert FindAll(t, |t|, LinkPart) == [];
    OneFoundBefore(t, |l|, |t|, x, u);
  }

  /** The second copy of a link written twice is written where the first ends,
      after its `)`. */
  lemma TwinPlaced(x: string, u: string)
    ensures var l := Markup(x, u, LinkPart);
            MatchAt(l + l, |l|, l) && (l + l)[|l| - 1] != '!'
  {
    var l := Markup(x, u, LinkPart);
    var t := l + l;
    var n := |l|;
    assert t[n..n + n] == l;
    assert t[n - 1] == l[n - 1];
    assert l == "[" + x + "](" + u + ")";
  }

  /** `findall` takes a match where it finds one and resumes after it. */
  lemma FindAllAt(t: string, i: nat, kind: PartKind, x: string, u: string, e: nat)
    requires i < |t| && MarkupAt(t, i, kind) == Some(Match(x, u, e))
    ensures e <= |t| && FindAll(t, i, kind) == [(x, u)] + FindAll(t, e, kind)
  {
    MarkupAtSound(t, i, kind);
  }

  /** `finditer` of a literal over the literal written twice finds both copies. */
  lemma TwiceOccurs(l: string)
    requires |l| > 0
    ensures Occurrences(l + l, l, 0) == [0, |l|]
  {
    var t := l + l;
    var n := |l|;
    assert Occurrences(t, l, n) == [n] by {
      assert MatchAt(t, n, l) by { assert t[n..n + n] == l; }
      assert Occurrences(t, l, n + n) == [];
      assert [n] + [] == [n];
    }
    assert MatchAt(t, 0, l) by { assert t[0..n] == l; }
    assert Occurrences(t, l, 0) == [0] + [n];
  }

  /** A text with no `!` has no image parts. */
  lemma NoImageParts(t: string)
    requires '!' !in t
    ensures PartsOf(t, ImagePart) == []
  {
    forall j: nat | j <= |t|
      ensures MarkupAt(t, j, ImagePart) == None
    {
    }
    FindAllSkip(t, 0, |t|, ImagePart);
  }

  /** The parts at two starts of the same groups. */
  lemma TwoStarts(i: nat, j: nat, x: string, u: string, kind: PartKind)
    ensures var w := |Markup(x, u, kind)|;
            PartsAt([i, j], x, u, kind) == [Part(i, i + w, x, u, kind), Part(j, j + w, x, u, kind)]
  {
    var w := |Markup(x, u, kind)|;
    assert [i, j][..1] == [i];
    assert [i][..0] == [];
    assert PartsAt([i], x, u, kind) == [] + [Part(i, i + w, x, u, kind)];
    assert PartsAt([i, j], x, u, kind) == PartsAt([i], x, u, kind) + [Part(j, j + w, x, u, kind)];
  }

  /** The link parts of a link written twice: both copies, once per report. */
  lemma TwiceLinkParts(x: string, u: string)
    requires GroupsOk(x, u)
    ensures var l := Markup(x, u, LinkPart);
            PartsOf(l + l, LinkPart) == PartsAt([0, |l|], x, u, LinkPart) + PartsAt([0, |l|], x, u, LinkPart)
  {
    var l := Markup(x, u, LinkPart);
    var t := l + l;
    var ps := PartsAt([0, |l|], x, u, LinkPart);
    TwiceFound(x, u);
    TwiceOccurs(l);
    PairsTwice(t, x, u, LinkPart, ps);
  }

  /** The parts for a pair reported twice: its occurrences, twice over. */
  lemma PairsTwice(t: string, x: string, u: string, kind: PartKind, ps: seq<Part>)
    requires ps == PartsAt(Occurrences(t, Markup(x, u, kind), 0), x, u, kind)
    ensures PartsFor(t, [(x, u), (x, u)], kind) == ps + ps
  {
    var one := [(x, u)];
    assert PartsFor(t, one, kind) == ps by {
      PartsForSnoc(t, [], x, u, kind);
      assert [] + [(x, u)] == one;
      assert PartsFor(t, [], kind) == [];
    }
    PartsForSnoc(t, one, x, u, kind);
    assert one + [(x, u)] == [(x, u), (x, u)];
  }

  /** Reporting one more pair appends the parts at its occurrences. */
  lemma PartsForSnoc(t: string, pairs: seq<(string, string)>, x: string, u: string, kind: PartKind)
    ensures PartsFor(t, pairs + [(x, u)], kind)
         == PartsFor(t, pairs, kind) + PartsAt(Occurrences(t, Markup(x, u, kind), 0), x, u, kind)
  {
    var q := pairs + [(x, u)];
    assert q[..|q| - 1] == pairs && q[|q| - 1] == (x, u);
  }

  /** The same link written twice: `findall` reports it twice, and the literal
      search for each report finds both copies, so every copy is listed twice. */
  lemma TwiceParts(x: string, u: string)
    requires GroupsOk(x, u) && '!' !in x && '!' !in u
    ensures var l := Markup(x, u, LinkPart);
            var p0 := Part(0, |l|, x, u, LinkPart);
            var p1 := Part(|l|, |l| + |l|, x, u, LinkPart);
            AllParts(l + l) == [p0, p1, p0, p1]
  {
    var l := Markup(x, u, LinkPart);
    var p0 := Part(0, |l|, x, u, LinkPart);
    var p1 := Part(|l|, |l| + |l|, x, u, LinkPart);
    TwiceNoImages(x, u);
    TwiceLinkParts(x, u);
    TwiceStarts(x, u);
    assert [p0, p1] + [p0, p1] == [p0, p1, p0, p1];
  }

  /** The two copies of a link written twice start at 0 and at its length. */
  lemma TwiceStarts(x: string, u: string)
    ensures var l := Markup(x, u, LinkPart);
            PartsAt([0, |l|], x, u, LinkPart)
            == [Part(0, |l|, x, u, LinkPart), Part(|l|, |l| + |l|, x, u, LinkPart)]
  {
    var l := Markup(x, u, LinkPart);
    TwoStarts(0, |l|, x, u, LinkPart);
  }

  /** A link written twice, with no `!` in its groups, holds no image. */
  lemma TwiceNoImages(x: string, u: string)
    requires '!' !in x && '!' !in u
    ensures var l := Markup(x, u, LinkPart);
            AllParts(l + l) == PartsOf(l + l, LinkPart)
  {
    var l := Markup(x, u, LinkPart);
    assert '!' !in l + l by {
      assert l == "[" + x + "](" + u + ")";
    }
    NoImageParts(l + l);
  }

  /** Python's `sorted` puts each copy next to its twin. */
  lemma TwiceSorted(p0: Part, p1: Part)
    requires p0.start < p1.start
    requires p1.kind == LinkPart && p0.kind == LinkPart
    ensures SortParts([p0, p1, p0, p1]) == [p0, p0, p1, p1]
  {
    assert [p0, p1, p0, p1][1..] == [p1, p0, p1];
    assert [p1, p0, p1][1..] == [p0, p1];
    assert [p0, p1][1..] == [p1];
    assert SortParts([p1]) == [p1];
    assert SortParts([p0, p1]) == [p0, p1];
    assert Insert(p1, [p1]) == [p1, p1];
    assert Insert(p1, [p0, p1]) == [p0] + Insert(p1, [p1]);
    assert SortParts([p1, p0, p1]) == [p0, p1, p1];
    assert SortParts([p0, p1, p0, p1]) == Insert(p0, [p0, p1, p1]);
  }

  /** Cutting a text at two adjacent parts, each listed twice: the slice before a
      twin runs backwards and is empty, so only the part nodes come out. */
  lemma TwinSlices(t: string, p0: Part, p1: Part)
    requires p0.start == 0 && p0.end == p1.start <= p1.end == |t|
    ensures SlicesFrom(t, [p0, p0, p1, p1], 0) == [PartNode(p0), PartNode(p0), PartNode(p1), PartNode(p1)]
  {
    var ps := [p0, p0, p1, p1];
    assert ps[1..] == [p0, p1, p1] && ps[2..] == [p1, p1] && ps[3..] == [p1];
    assert SlicesFrom(t, [p1], p1.end) == [PartNode(p1)] by {
      assert [p1][1..] == [];
    }
    assert SlicesFrom(t, [p1, p1], p0.end) == [PartNode(p1)] + SlicesFrom(t, [p1], p1.end);
    assert SlicesFrom(t, [p0, p1, p1], p0.end) == [PartNode(p0)] + SlicesFrom(t, [p1, p1], p0.end);
    assert SlicesFrom(t, ps, 0) == [PartNode(p0)] + SlicesFrom(t, [p0, p1, p1], p0.end);
  }

  /** A text whose parts are two adjacent links, each listed twice, comes out as
      the four part nodes. */
  lemma TwinNodes(t: string, p0: Part, p1: Part)
    requires 0 == p0.start < p0.end == p1.start < p1.end == |t|
    requires p0.kind == LinkPart && p1.kind == LinkPart
    requires AllParts(t) == [p0, p1, p0, p1]
    ensures ImagesLinksNode(Plain(t)) == [PartNode(p0), PartNode(p0), PartNode(p1), PartNode(p1)]
  {
    var ps := [p0, p1, p0, p1];
    assert |ps| == 4;
    TwiceSorted(p0, p1);
    PartsCut(t, ps);
    TwinSlices(t, p0, p1);
  }

  /** A text with parts is cut at its sorted parts. */
  lemma PartsCut(t: string, ps: seq<Part>)
    requires ps != [] && AllParts(t) == ps
    ensures ImagesLinksNode(Plain(t)) == SlicesFrom(t, SortParts(ps), 0)
  {
  }

  /** A link written twice in a row comes out of the image and link pass as four
      LINK nodes: each copy is emitted twice, the text between a part and its twin
      being the empty reversed slice. */
  lemma DuplicateLinks(x: string, u: string)
    requires GroupsOk(x, u) && '!' !in x && '!' !in u
    ensures var n := TextNode(x, Link, Some(u));
            var l := Markup(x, u, LinkPart);
            ImagesLinksNode(Plain(l + l)) == [n, n, n, n]
  {
    var l := Markup(x, u, LinkPart);
    TwiceParts(x, u);
    TwinNodes(l + l, Part(0, |l|, x, u, LinkPart), Part(|l|, |l| + |l|, x, u, LinkPart));
  }

  /** Two adjacent stretches gathered one after the other are one stretch. */
  lemma Glue(cur: string, t: string, i: nat, j: nat, k: nat)
    requires i <= j <= k <= |t|
    ensures cur + t[i..j] + t[j..k] == cur + t[i..k]
  {
    assert t[i..j] + t[j..k] == t[i..k];
  }

  /** The `*` scan gathers a stretch without stars whole. */
  lemma StarlessStretch(t: string, i: nat, e: nat, parts: seq<string>, cur: string, count: nat)
    requires i <= e <= |t| && '*' !in t[i..e]
    ensures Scan(t, "*", i, parts, cur, count) == Scan(t, "*", e, parts, cur + t[i..e], count)
  {
    NoMatchIn(t, "*", i, t[i..e]);
    ScanPlainRun(t, "*", i, e, parts, cur, count);
  }

  /** The `*` scan over a `**` pair gathers it into the current part. */
  lemma PairStep(t: string, i: nat, parts: seq<string>, cur: string, count: nat)
    requires i + 2 <= |t| && t[i] == '*' && t[i + 1] == '*'
    ensures Scan(t, "*", i, parts, cur, count) == Scan(t, "*", i + 2, parts, cur + t[i..i + 2], count)
  {
    assert t[i..i + 2] == "**";
  }

  /** The `*` pass scans over `**` pairs without ending the part it gathers: from `i`
      on, the rest of `t` is a stretch without stars, a pair, another such stretch, a
      pair and a last such stretch. */
  lemma ScanKeepsPairs(t: string, i: nat, j: nat, k: nat, parts: seq<string>, cur: string, count: nat)
    requires i <= j && j + 2 <= k && k + 2 <= |t|
    requires t[j] == '*' && t[j + 1] == '*' && t[k] == '*' && t[k + 1] == '*'
    requires '*' !in t[i..j] && '*' !in t[j + 2..k] && '*' !in t[k + 2..]
    ensures Scan(t, "*", i, parts, cur, count) == (parts + [cur + t[i..]], count)
  {
    TwoPairs(t, i, j, k, parts, cur, count);
    StarlessTail(t, k + 2, parts, cur + t[i..k + 2], count);
    GlueTail(cur, t, i, k + 2);
  }

  /** The `*` scan over two stretches without stars, each followed by a `**` pair. */
  lemma TwoPairs(t: string, i: nat, j: nat, k: nat, parts: seq<string>, cur: string, count: nat)
    requires i <= j && j + 2 <= k && k + 2 <= |t|
    requires t[j] == '*' && t[j + 1] == '*' && t[k] == '*' && t[k + 1] == '*'
    requires '*' !in t[i..j] && '*' !in t[j + 2..k]
    ensures Scan(t, "*", i, parts, cur, count) == Scan(t, "*", k + 2, parts, cur + t[i..k + 2], count)
  {
    PairStretch(t, i, j, parts, cur, count);
    PairStretch(t, j + 2, k, parts, cur + t[i..j + 2], count);
    Glue(cur, t, i, j + 2, k + 2);
  }

  /** The `*` scan over a last stretch without stars ends with it as the last part. */
  lemma StarlessTail(t: string, i: nat, parts: seq<string>, cur: string, count: nat)
    requires i <= |t| && '*' !in t[i..]
    ensures Scan(t, "*", i, parts, cur, count) == (parts + [cur + t[i..]], count)
  {
    assert t[i..] == t[i..|t|];
    StarlessStretch(t, i, |t|, parts, cur, count);
  }

  /** Gathering a stretch of `t` and the rest of `t` is gathering the rest. */
  lemma GlueTail(cur: string, t: string, i: nat, j: nat)
    requires i <= j <= |t|
    ensures cur + t[i..j] + t[j..] == cur + t[i..]
  {
    assert t[i..j] + t[j..] == t[i..];
  }

  /** The `*` scan over a stretch without stars and the `**` pair after it. */
  lemma PairStretch(t: string, i: nat, j: nat, parts: seq<string>, cur: string, count: nat)
    requires i <= j && j + 2 <= |t| && t[j] == '*' && t[j + 1] == '*' && '*' !in t[i..j]
    ensures Scan(t, "*", i, parts, cur, count) == Scan(t, "*", j + 2, parts, cur + t[i..j + 2], count)
  {
    StarlessStretch(t, i, j, parts, cur, count);
    PairStep(t, j, parts, cur + t[i..j], count);
    Glue(cur, t, i, j, j + 2);
  }

  /** The `*` scan over an italic span: after plain `a` and `*m*` the scan stands
      at the rest `r` with `a` and `m` as finished parts. */
  lemma ItalicOpening(t: string, a: string, m: string, r: string)
    requires m != "" && r != "" && r[0] != '*' && t == a + "*" + m + "*" + r
    requires '*' !in a && '*' !in m
    ensures |a| + |m| + 2 <= |t| && t[|a| + |m| + 2..] == r
    ensures Parts(t, "*") == Scan(t, "*", |a| + |m| + 2, [a, m], "", 2)
  {
    var k := |a| + 1 + |m|;
    assert t[..|a| + 1] == a + "*" && t[|a| + 1..k] == m && t[k] == '*';
    assert t[k + 1..] == r && t[k + 1] == r[0];
    ItalicOpeningAt(t, a, m, |a| + 1, k);
  }

  /** `ItalicOpening`, stated on the positions of `t`: the span's delimiters are at
      `i - 1` and `k`. */
  lemma ItalicOpeningAt(t: string, a: string, m: string, i: nat, k: nat)
    requires m != "" && '*' !in a && '*' !in m
    requires i == |a| + 1 && k == i + |m| && k + 1 < |t|
    requires t[..i] == a + "*" && t[i..k] == m && t[k] == '*' && t[k + 1] != '*'
    ensures Parts(t, "*") == Scan(t, "*", k + 1, [a, m], "", 2)
  {
    var d := "*";
    assert Parts(t, d) == Scan(t, d, i, [a], "", 1) by {
      assert t[i] == m[0];
      SpanOpening(t, a, d);
    }
    assert Scan(t, d, i, [a], "", 1) == Scan(t, d, k, [a], m, 1) by {
      ScanPiece(t, d, i, m, [a], "", 1);
      assert "" + m == m;
    }
    assert MatchAt(t, k, d) by {
      assert t[k..k + 1] == [t[k]];
    }
    ScanDelimiterStep(t, d, k, [a], m, 1);
    assert [a] + [m] == [a, m];
  }

  /** The `*` scan over a rest `c**n**b` gathers it whole as the last part. */
  lemma PairRest(t: string, s: nat, r: string, c: string, n: string, b: string, parts: seq<string>, count: nat)
    requires r == c + "**" + n + "**" + b && s <= |t| && t[s..] == r
    requires '*' !in c && '*' !in n && '*' !in b
    ensures Scan(t, "*", s, parts, "", count) == (parts + [r], count)
  {
    var j := s + |c|;
    var l := j + 2 + |n|;
    assert r[..|c|] == c && r[|c| + 2..|c| + 2 + |n|] == n && r[|c| + 4 + |n|..] == b;
    assert t[s..j] == c && t[j + 2..l] == n && t[l + 2..] == b;
    assert r[|c|] == '*' && r[|c| + 1] == '*' && r[|c| + 2 + |n|] == '*' && r[|c| + 3 + |n|] == '*';
    assert t[j] == '*' && t[j + 1] == '*' && t[l] == '*' && t[l + 1] == '*';
    ScanKeepsPairs(t, s, j, l, parts, "", count);
    assert "" + t[s..] == r;
  }

  /** The parts of the `*` pass over an italic span followed by a bold one: the
      text before, the italic text, and the rest with its `**` pair intact. */
  lemma ItalicThenPairParts(a: string, m: string, r: string, c: string, n: string, b: string)
    requires m != "" && c != "" && r == c + "**" + n + "**" + b
    requires '*' !in a && '*' !in m && '*' !in c && '*' !in n && '*' !in b
    ensures Parts(a + "*" + m + "*" + r, "*") == ([a, m, r], 2)
  {
    var t := a + "*" + m + "*" + r;
    assert r[0] == c[0];
    ItalicOpening(t, a, m, r);
    PairRest(t, |a| + |m| + 2, r, c, n, b, [a, m], 2);
    assert [a, m] + [r] == [a, m, r];
  }

  /** The `*` pass over an italic span followed by a bold one. */
  lemma ItalicThenPairSplit(a: string, m: string, c: string, n: string, b: string)
    requires a != "" && m != "" && c != ""
    requires '*' !in a && '*' !in m && '*' !in c && '*' !in n && '*' !in b
    ensures var r := c + "**" + n + "**" + b;
            DelimiterSplit(Plain(a + "*" + m + "*" + r), "*", Italic)
            == Success([Plain(a), TextNode(m, Italic, None), Plain(r)])
  {
    var d := "*";
    var r := c + "**" + n + "**" + b;
    var t := a + "*" + m + "*" + r;
    ItalicThenPairParts(a, m, r, c, n, b);
    assert |r| > 0;
    NoFirstCharNoOccur(m, d);
    EmitThree(a, m, r, d, Italic);
    assert Plain(t).text == t;
  }

  /** Three non-empty parts make a plain node, a typed node and a plain node. */
  lemma EmitThree(a: string, m: string, r: string, d: string, tt: TextType)
    requires |d| > 0 && a != "" && m != "" && r != "" && !Occurs(m, d)
    ensures EmitFrom([a, m, r], d, tt, 0) == [Plain(a), TextNode(m, tt, None), Plain(r)]
  {
    var ps := [a, m, r];
    ReplaceFirstSound(m, d);
    assert ReplaceFirst(m, d) == m;
    assert EmitFrom(ps, d, tt, 2) == [];
    assert EmitFrom(ps, d, tt, 1) == PairNodes(r, "", d, tt) + [];
    assert EmitFrom(ps, d, tt, 0) == PairNodes(a, m, d, tt) + EmitFrom(ps, d, tt, 1);
  }

  /** The `**` pass over the nodes the `*` pass made: only the last TEXT node holds
      a pair, and it is cut around it. */
  lemma BoldAfterItalic(a: string, m: string, c: string, n: string, b: string)
    requires a != "" && m != "" && c != "" && n != "" && b != ""
    requires '*' !in a && '*' !in m && '*' !in c && '*' !in n && '*' !in b
    ensures var r := c + "**" + n + "**" + b;
            DelimiterPass([Plain(a), TextNode(m, Italic, None), Plain(r)], "**", Bold)
            == Success([Plain(a), TextNode(m, Italic, None), Plain(c), TextNode(n, Bold, None), Plain(b)])
  {
    var r := c + "**" + n + "**" + b;
    var front := [Plain(a), TextNode(m, Italic, None)];
    assert front + [Plain(r)] == [Plain(a), TextNode(m, Italic, None), Plain(r)];
    DelimiterPassConcat(front, [Plain(r)], "**", Bold);
    NoFirstCharNoOccur(a, "**");
    DelimiterPassIdentity(front, "**", Bold);
    var ns := [Plain(c), TextNode(n, Bold, None), Plain(b)];
    OneSpan(c, n, b, "**", Bold);
    assert [Plain(c)] + [TextNode(n, Bold, None)] + [Plain(b)] == ns;
    PassOfOne(r, "**", Bold, ns);
    assert front + ns == [Plain(a), TextNode(m, Italic, None), Plain(c), TextNode(n, Bold, None), Plain(b)];
  }

  /** `*m*` and then `**n**`, with plain text before, between and after, become
      five nodes: TEXT, ITALIC, TEXT, BOLD, TEXT. */
  lemma ItalicAndBold(a: string, m: string, c: string, n: string, b: string)
    requires a != "" && m != "" && c != "" && n != "" && b != ""
    requires '*' !in a && '*' !in m && '*' !in c && '*' !in n && '*' !in b
    requires '`' !in a && '`' !in c && '`' !in b
    requires '[' !in a && '[' !in c && '[' !in b
    ensures Inline(a + "*" + m + "*" + c + "**" + n + "**" + b)
            == Success([Plain(a), TextNode(m, Italic, None), Plain(c), TextNode(n, Bold, None), Plain(b)])
  {
    ItalicThenBold(a, m, c, n, b);
    FiveJoin(a, m, c, n, b);
  }

  /** The text of `ItalicAndBold` regrouped, kept apart so that the lemma using it
      sees only this one fact. */
  lemma FiveJoin(a: string, m: string, c: string, n: string, b: string)
    ensures a + "*" + m + "*" + c + "**" + n + "**" + b == a + "*" + m + "*" + (c + "**" + n + "**" + b)
  {
    var p := a + "*" + m + "*";
    var x := c + "**" + n + "**";
    assert p + c + "**" + n + "**" == p + x;
    assert p + x + b == p + (x + b);
  }

  /** `ItalicAndBold`, with the text after the italic span taken as one piece. */
  lemma ItalicThenBold(a: string, m: string, c: string, n: string, b: string)
    requires a != "" && m != "" && c != "" && n != "" && b != ""
    requires '*' !in a && '*' !in m && '*' !in c && '*' !in n && '*' !in b
    requires '`' !in a && '`' !in c && '`' !in b
    requires '[' !in a && '[' !in c && '[' !in b
    ensures Inline(a + "*" + m + "*" + (c + "**" + n + "**" + b))
            == Success([Plain(a), TextNode(m, Italic, None), Plain(c), TextNode(n, Bold, None), Plain(b)])
  {
    var r := c + "**" + n + "**" + b;
    var t := a + "*" + m + "*" + r;
    var n1 := [Plain(a), TextNode(m, Italic, None), Plain(r)];
    var n2 := [Plain(a), TextNode(m, Italic, None), Plain(c), TextNode(n, Bold, None), Plain(b)];
    assert DelimiterPass([Plain(t)], "*", Italic) == Success(n1) by {
      ItalicThenPairSplit(a, m, c, n, b);
      PassOfOne(t, "*", Italic, n1);
    }
    assert DelimiterPass(n1, "**", Bold) == Success(n2) by {
      BoldAfterItalic(a, m, c, n, b);
    }
    FiveUntouched(a, m, c, n, b);
    InlineOf(t, n1, n2, n2, n2);
  }

  /** The code pass and the image and link pass leave the five nodes alone. */
  lemma FiveUntouched(a: string, m: string, c: string, n: string, b: string)
    requires a != "" && c != "" && b != ""
    requires '`' !in a && '`' !in c && '`' !in b
    requires '[' !in a && '[' !in c && '[' !in b
    ensures var ns := [Plain(a), TextNode(m, Italic, None), Plain(c), TextNode(n, Bold, None), Plain(b)];
            DelimiterPass(ns, "`", Code) == Success(ns) && ImagesLinksPass(ns) == ns
  {
    FiveCode(a, m, c, n, b);
    ImagesLinksIdentity([Plain(a), TextNode(m, Italic, None), Plain(c), TextNode(n, Bold, None), Plain(b)]);
  }

  /** The code pass leaves the five nodes of `ItalicAndBold` alone. */
  lemma FiveCode(a: string, m: string, c: string, n: string, b: string)
    requires a != "" && c != "" && b != ""
    requires '`' !in a && '`' !in c && '`' !in b
    ensures var ns := [Plain(a), TextNode(m, Italic, None), Plain(c), TextNode(n, Bold, None), Plain(b)];
            DelimiterPass(ns, "`", Code) == Success(ns)
  {
    var ns := [Plain(a), TextNode(m, Italic, None), Plain(c), TextNode(n, Bold, None), Plain(b)];
    NoFirstCharNoOccur(a, "`");
    NoFirstCharNoOccur(c, "`");
    NoFirstCharNoOccur(b, "`");
    assert Untouched(ns[0], "`") && Untouched(ns[1], "`") && Untouched(ns[2], "`");
    assert Untouched(ns[3], "`") && Untouched(ns[4], "`");
    DelimiterPassIdentity(ns, "`", Code);
  }
}
