/** HTML nodes and their serialisation: `HTMLNode`, `LeafNode`, `ParentNode`, and
    the mapping from inline text nodes to leaves. */
module HtmlNodes {
  import opened Wrappers
  import opened TextNodes

  /** HTML attributes in insertion order, as a Python dict iterates them; `None`
      and the empty dict are both the empty sequence. */
  type Props = seq<(string, string)>

  /** The three node classes. A tag of `None` is the empty string, since the code
      only ever asks whether the tag is truthy. A list of children of `None` is the
      empty sequence for the same reason. A leaf's value keeps `None` apart from
      "", because `None` makes rendering fail and "" does not. */
  datatype HtmlNode =
    | Base(tag: string, value: Option<string>, children: seq<HtmlNode>, props: Props)
    | Leaf(value: Option<string>, tag: string, props: Props)
    | Parent(children: seq<HtmlNode>, tag: string, props: Props)

  /** The exceptions `to_html` raises. */
  datatype HtmlError =
    | NotImplemented      // the base class has no serialisation
    | LeafWithoutValue    // a leaf whose value is None
    | ParentWithoutTag    // a parent whose tag is None or ""
    | ParentWithoutChildren  // a parent whose children are None or []

  //////////////////////////////////////////////////////////////////////////////
  // Attributes: props_to_html
  //////////////////////////////////////////////////////////////////////////////

  /** One attribute as the code writes it: ` key="value"`, with no escaping. */
  function Attribute(kv: (string, string)): (r: string)
    ensures |r| == |kv.0| + |kv.1| + 4 && r[0] == ' '
  {
    " " + kv.0 + "=\"" + kv.1 + "\""
  }

  /** The attribute string of the first `|props|` pairs, built as the loop builds
      it: the attributes of all pairs but the last, then the last one. */
  function PropsString(props: Props): string {
    if props == [] then ""
    else PropsString(props[..|props| - 1]) + Attribute(props[|props| - 1])
  }

  /** `HTMLNode.props_to_html` (and the copies of its loop inside both `to_html`
      methods): the attributes of the pairs in order. */
  method PropsToHtml(props: Props) returns (s: string)
    ensures s == PropsString(props)
  {
    s := "";
    for i := 0 to |props|
      invariant s == PropsString(props[..i])
    {
      assert props[..i + 1][..i] == props[..i];
      s := s + Attribute(props[i]);
    }
    assert props[..|props|] == props;
  }

  /** The attributes of two runs of pairs are the attributes of each, in order. */
  lemma {:induction false} PropsStringConcat(p: Props, q: Props)
    ensures PropsString(p + q) == PropsString(p) + PropsString(q)
    decreases |q|
  {
    if q == [] {
      assert p + q == p;
    } else {
      var q' := q[..|q| - 1];
      var last := Attribute(q[|q| - 1]);
      PropsStringConcat(p, q');
      assert PropsString(p + q) == PropsString(p + q') + last by {
        assert (p + q)[..|p + q| - 1] == p + q';
        assert (p + q)[|p + q| - 1] == q[|q| - 1];
      }
      assert PropsString(p) + PropsString(q') + last == PropsString(p) + (PropsString(q') + last);
    }
  }

  /** The attribute string is empty exactly when there are no attributes, and its
      length is that of the pairs plus four characters per pair. */
  lemma {:induction false} PropsStringEmpty(props: Props)
    ensures PropsString(props) == "" <==> props == []
    ensures |PropsString(props)| == PropsLength(props)
    decreases |props|
  {
    if props != [] {
      PropsStringEmpty(props[..|props| - 1]);
    }
  }

  /** The characters of the pairs plus four per pair. */
  function PropsLength(props: Props): nat {
    if props == [] then 0
    else PropsLength(props[..|props| - 1]) + |props[|props| - 1].0| + |props[|props| - 1].1| + 4
  }

  /** A single pair renders as ` key="value"`. */
  lemma PropsStringOne(kv: (string, string))
    ensures PropsString([kv]) == " " + kv.0 + "=\"" + kv.1 + "\""
  {
    assert [kv][..0] == [];
  }

  //////////////////////////////////////////////////////////////////////////////
  // Serialisation: to_html
  //////////////////////////////////////////////////////////////////////////////

  /** `<tag attrs>` */
  function OpenTag(tag: string, props: Props): string {
    "<" + tag + PropsString(props) + ">"
  }

  /** `</tag>` */
  function CloseTag(tag: string): string {
    "</" + tag + ">"
  }

  /** What `to_html` returns or raises for a node. */
  function Render(n: HtmlNode): Result<string, HtmlError>
    decreases n
  {
    match n
    case Base(_, _, _, _) => Failure(NotImplemented)
    case Leaf(value, tag, props) =>
      if value.None? then Failure(LeafWithoutValue)
      else if tag == "" then Success(value.value)
      else if tag == "img" then Success(OpenTag(tag, props))
      else Success(OpenTag(tag, props) + value.value + CloseTag(tag))
    case Parent(children, tag, props) =>
      if tag == "" then Failure(ParentWithoutTag)
      else if children == [] then Failure(ParentWithoutChildren)
      else match RenderChildren(n, |children|)
        case Failure(e) => Failure(e)
        case Success(inner) => Success(OpenTag(tag, props) + inner + CloseTag(tag))
  }

  /** The concatenated output of the first `k` children of a parent, or the error
      of the first of them that fails, as the loop over the children meets it. */
  function RenderChildren(n: HtmlNode, k: nat): Result<string, HtmlError>
    requires n.Parent? && k <= |n.children|
    decreases n, k
  {
    if k == 0 then Success("")
    else match RenderChildren(n, k - 1)
      case Failure(e) => Failure(e)
      case Success(s) =>
        match Render(n.children[k - 1])
        case Failure(e) => Failure(e)
        case Success(c) => Success(s + c)
  }

  /** `to_html` on any of the three classes: the base class raises, a leaf renders
      its value between its tags, a parent renders each child in turn. */
  method ToHtml(n: HtmlNode) returns (r: Result<string, HtmlError>)
    ensures r == Render(n)
    decreases n
  {
    match n {
      case Base(_, _, _, _) =>
        return Failure(NotImplemented);
      case Leaf(value, tag, props) =>
        if value == None {
          return Failure(LeafWithoutValue);
        }
        if tag == "" {
          return Success(value.value);
        }
        var attrs := PropsToHtml(props);
        var open, close := "<" + tag + attrs + ">", "</" + tag + ">";
        if tag == "img" {
          return Success(open);
        }
        return Success(open + value.value + close);
      case Parent(children, tag, props) =>
        if tag == "" {
          return Failure(ParentWithoutTag);
        }
        if children == [] {
          return Failure(ParentWithoutChildren);
        }
        var inner := "";
        for i := 0 to |children|
          invariant RenderChildren(n, i) == Success(inner)
        {
          var c := ToHtml(children[i]);
          if c.Failure? {
            FailureSticks(n, i + 1, |children|);
            return Failure(c.error);
          }
          inner := inner + c.value;
        }
        var attrs := PropsToHtml(props);
        var open, close := "<" + tag + attrs + ">", "</" + tag + ">";
        return Success(open + inner + close);
    }
  }

  /** Once a child has failed, the loop's outcome stays that failure. */
  lemma {:induction false} FailureSticks(n: HtmlNode, i: nat, k: nat)
    requires n.Parent? && i <= k <= |n.children|
    requires RenderChildren(n, i).Failure?
    ensures RenderChildren(n, k) == RenderChildren(n, i)
    decreases k
  {
    if k > i {
      FailureSticks(n, i, k - 1);
    }
  }

  /** A node `to_html` accepts: a leaf with a value, or a parent with a tag and
      children that are all accepted. The base class is never accepted. */
  predicate WellFormed(n: HtmlNode)
    decreases n
  {
    match n
    case Base(_, _, _, _) => false
    case Leaf(value, _, _) => value.Some?
    case Parent(children, tag, _) =>
      tag != "" && children != [] && forall k :: 0 <= k < |children| ==> WellFormed(children[k])
  }

  /** `to_html` succeeds exactly on well-formed nodes. */
  lemma {:induction false} RenderSucceedsIff(n: HtmlNode)
    ensures Render(n).Success? <==> WellFormed(n)
    decreases n
  {
    if n.Parent? && n.tag != "" && n.children != [] {
      ChildrenSucceedIff(n, |n.children|);
    }
  }

  /** The first `k` children render exactly when each of them is well-formed. */
  lemma {:induction false} ChildrenSucceedIff(n: HtmlNode, k: nat)
    requires n.Parent? && k <= |n.children|
    ensures RenderChildren(n, k).Success? <==> forall j :: 0 <= j < k ==> WellFormed(n.children[j])
    decreases n, k
  {
    if k > 0 {
      ChildrenSucceedIff(n, k - 1);
      RenderSucceedsIff(n.children[k - 1]);
    }
  }

  /** When the children render, their output is each child's output in order. */
  lemma {:induction false} ChildrenOutput(n: HtmlNode, k: nat)
    requires n.Parent? && k <= |n.children|
    requires forall j :: 0 <= j < k ==> Render(n.children[j]).Success?
    ensures RenderChildren(n, k) == Success(Outputs(n.children[..k]))
    decreases k
  {
    if k > 0 {
      ChildrenOutput(n, k - 1);
      assert n.children[..k][..k - 1] == n.children[..k - 1];
    }
  }

  /** What a node renders to; only used for nodes that render. */
  function Output(n: HtmlNode): string {
    match Render(n)
    case Success(s) => s
    case Failure(_) => ""
  }

  /** The outputs of nodes, concatenated in order. */
  function Outputs(ns: seq<HtmlNode>): string {
    if ns == [] then "" else Outputs(ns[..|ns| - 1]) + Output(ns[|ns| - 1])
  }

  /** When some child fails, the parent fails with the error of the first failing
      child: no later child is looked at. */
  lemma {:induction false} FirstFailingChild(n: HtmlNode, k: nat, j: nat)
    requires n.Parent? && j < k <= |n.children|
    requires forall i :: 0 <= i < j ==> Render(n.children[i]).Success?
    requires Render(n.children[j]).Failure?
    ensures RenderChildren(n, k) == Failure(Render(n.children[j]).error)
    decreases k
  {
    if k - 1 > j {
      FirstFailingChild(n, k - 1, j);
    } else {
      ChildrenOutput(n, j);
    }
  }

  /** A parent with a tag and children wraps its children's output in its tags. */
  lemma ParentOutput(children: seq<HtmlNode>, tag: string, props: Props)
    requires tag != "" && children != []
    requires forall j :: 0 <= j < |children| ==> Render(children[j]).Success?
    ensures Render(Parent(children, tag, props))
            == Success(OpenTag(tag, props) + Outputs(children) + CloseTag(tag))
  {
    var n := Parent(children, tag, props);
    ChildrenOutput(n, |children|);
    assert children[..|children|] == children;
  }

  /** The output of a list of children split in two is the output of each part. */
  lemma {:induction false} OutputsConcat(a: seq<HtmlNode>, b: seq<HtmlNode>)
    ensures Outputs(a + b) == Outputs(a) + Outputs(b)
    decreases |b|
  {
    if b == [] {
      assert a + b == a;
    } else {
      var b' := b[..|b| - 1];
      var last := Output(b[|b| - 1]);
      OutputsConcat(a, b');
      assert Outputs(a + b) == Outputs(a + b') + last by {
        assert (a + b)[..|a + b| - 1] == a + b';
        assert (a + b)[|a + b| - 1] == b[|b| - 1];
      }
      assert Outputs(b) == Outputs(b') + last;
      StringAssoc(Outputs(a), Outputs(b'), last);
    }
  }

  /** Concatenation regrouped, kept as a lemma so that the step it serves sees
      only this one fact. */
  lemma StringAssoc(x: string, y: string, z: string)
    ensures x + y + z == x + (y + z)
  {
  }

  //////////////////////////////////////////////////////////////////////////////
  // text_node_to_html_node
  //////////////////////////////////////////////////////////////////////////////

  /** The tag each inline type becomes: none for TEXT, `b`, `i`, `code`, `a`, `img`. */
  function TagOf(tt: TextType): string {
    match tt
    case Text => ""
    case Bold => "b"
    case Italic => "i"
    case Code => "code"
    case Link => "a"
    case Image => "img"
  }

  /** A url as an f-string writes it: a missing url prints as `None`. */
  function UrlString(url: Option<string>): string {
    match url
    case None => "None"
    case Some(u) => u
  }

  /** `HTMLNode.text_node_to_html_node`: every inline node becomes a leaf with a
      value, tagged by its type. A link carries `href`, an image carries `src` and
      `alt` and an empty value. */
  function TextNodeToHtmlNode(tn: TextNode): (r: HtmlNode)
    ensures r.Leaf? && r.value.Some? && r.tag == TagOf(tn.textType)
    ensures r.value.value == (if tn.textType == Image then "" else tn.text)
    ensures tn.textType == Link ==> r.props == [("href", UrlString(tn.url))]
    ensures tn.textType == Image ==> r.props == [("src", UrlString(tn.url)), ("alt", tn.text)]
    ensures tn.textType !in {Link, Image} ==> r.props == []
  {
    match tn.textType
    case Text => Leaf(Some(tn.text), "", [])
    case Bold => Leaf(Some(tn.text), "b", [])
    case Italic => Leaf(Some(tn.text), "i", [])
    case Code => Leaf(Some(tn.text), "code", [])
    case Link => Leaf(Some(tn.text), "a", [("href", UrlString(tn.url))])
    case Image => Leaf(Some(""), "img", [("src", UrlString(tn.url)), ("alt", tn.text)])
  }

  /** Different inline types get different tags, so the leaf keeps the type. */
  lemma TagOfInjective(s: TextType, t: TextType)
    ensures TagOf(s) == TagOf(t) ==> s == t
  {
  }

  /** A converted TEXT node serialises to its text, verbatim and unescaped. */
  lemma TextHtml(text: string, url: Option<string>)
    ensures Render(TextNodeToHtmlNode(TextNode(text, Text, url))) == Success(text)
  {
  }

  /** A converted bold, italic or code node serialises to its text inside its tag. */
  lemma EmphasisHtml(tn: TextNode)
    requires tn.textType in {Bold, Italic, Code}
    ensures var t := TagOf(tn.textType);
            Render(TextNodeToHtmlNode(tn)) == Success("<" + t + ">" + tn.text + "</" + t + ">")
  {
    var t := TagOf(tn.textType);
    assert OpenTag(t, []) == "<" + t + ">";
    assert OpenTag(t, []) + tn.text + CloseTag(t) == "<" + t + ">" + tn.text + "</" + t + ">";
  }

  /** A converted link serialises to an anchor whose `href` is the url. */
  lemma LinkHtml(text: string, url: Option<string>)
    ensures Render(TextNodeToHtmlNode(TextNode(text, Link, url)))
            == Success("<a href=\"" + UrlString(url) + "\">" + text + "</a>")
  {
    var h := UrlString(url);
    assert TextNodeToHtmlNode(TextNode(text, Link, url)) == Leaf(Some(text), "a", [("href", h)]);
    assert "a" != "img" by {
      assert "img"[0] != "a"[0];
    }
    RenderTagged(text, "a", [("href", h)]);
    LinkOpen(h);
    assert CloseTag("a") == "</a>";
  }

  /** A leaf with a value and a tag other than `img` wraps its value in its tags. */
  lemma RenderTagged(value: string, tag: string, props: Props)
    requires tag != "" && tag != "img"
    ensures Render(Leaf(Some(value), tag, props)) == Success(OpenTag(tag, props) + value + CloseTag(tag))
  {
  }

  /** The opening tag of an anchor. */
  lemma LinkOpen(h: string)
    ensures OpenTag("a", [("href", h)]) == "<a href=\"" + h + "\">"
  {
    OpenTagOne("a", "href", h);
    assert "<" + "a" + " " + "href" + "=\"" == "<a href=\"";
  }

  /** The opening tag with one attribute, piece by piece. */
  lemma OpenTagOne(tag: string, k: string, v: string)
    ensures OpenTag(tag, [(k, v)]) == "<" + tag + " " + k + "=\"" + v + "\">"
  {
    PropsStringOne((k, v));
    var a := " " + k + "=\"" + v + "\"";
    assert "<" + tag + a + ">" == "<" + tag + " " + k + "=\"" + v + "\">" by {
      assert "\"" + ">" == "\">";
    }
  }

  /** A converted image serialises to a bare `img` tag with ` src="url"` and
      ` alt="text"`, and nothing after it: no value and no closing tag. */
  lemma ImageHtml(text: string, url: Option<string>)
    ensures Render(TextNodeToHtmlNode(TextNode(text, Image, url)))
            == Success("<img" + Attribute(("src", UrlString(url))) + Attribute(("alt", text)) + ">")
  {
    var src := ("src", UrlString(url));
    var alt := ("alt", text);
    assert [src, alt][..1] == [src];
    assert PropsString([src]) == Attribute(src) by {
      assert [src][..0] == [];
    }
    var a, b := Attribute(src), Attribute(alt);
    assert PropsString([src, alt]) == a + b;
    assert "<" + "img" == "<img";
    assert "<img" + (a + b) + ">" == "<img" + a + b + ">";
  }

}
