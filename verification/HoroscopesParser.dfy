/**
 The horoscope page parser: two walks over the parsed page that communicate through globals.

 The HTML parser is a library; a page is the tree it returns.
 */
module HoroscopesParser {

  datatype Attribute = Attribute(name: string, value: string)

  datatype Node =
    | Element(nodeName: string, attributes: seq<Attribute>, childNodes: seq<Node>)
    | Text(textContent: string)
    | Other

  // ----- what the walks compute -----

  predicate HasClass(attributes: seq<Attribute>) {
    exists i :: 0 <= i < |attributes| && attributes[i].name == "class"
  }

  /** The value of the last `class` attribute, if there is one. */
  function LastClass(attributes: seq<Attribute>): string {
    if attributes == [] then ""
    else if attributes[|attributes| - 1].name == "class" then attributes[|attributes| - 1].value
    else LastClass(attributes[..|attributes| - 1])
  }

  /** It is the value of the attribute behind which there is no other. */
  lemma {:induction false} LastClassOf(before: seq<Attribute>, value: string, after: seq<Attribute>)
    requires !HasClass(after)
    ensures LastClass(before + [Attribute("class", value)] + after) == value && LastClass(after) == ""
    decreases |after|
  {
    var all := before + [Attribute("class", value)] + after;
    if after != [] {
      LastClassOf(before, value, after[..|after| - 1]);
      assert all[..|all| - 1] == before + [Attribute("class", value)] + after[..|after| - 1];
    }
  }

  predicate IsParagraph(n: Node) {
    n.Element? && n.nodeName == "p"
  }

  predicate IsClassedParagraph(n: Node) {
    IsParagraph(n) && LastClass(n.attributes) != ""
  }

  /** The tree without its classed paragraphs. */
  function Pruned(n: Node): Node {
    match n
    case Element(name, attributes, childNodes) => Element(name, attributes, PrunedAll(childNodes))
    case _ => n
  }

  function PrunedAll(ns: seq<Node>): seq<Node> {
    if ns == [] then []
    else
      var last := ns[|ns| - 1];
      PrunedAll(ns[..|ns| - 1]) + if IsClassedParagraph(last) then [] else [Pruned(last)]
  }

  /** All the text below a node, in document order. */
  function TextContent(n: Node): string {
    match n
    case Element(_, _, childNodes) => TextContents(childNodes)
    case Text(text) => text
    case Other => ""
  }

  function TextContents(ns: seq<Node>): string {
    if ns == [] then "" else TextContents(ns[..|ns| - 1]) + TextContent(ns[|ns| - 1])
  }

  /** The prediction in a subtree: its text but for that of classed paragraphs, once the sign is known. */
  function Extracted(n: Node, key: string): string {
    if key == "" || IsClassedParagraph(n) then "" else TextContent(Pruned(n))
  }

  /**
   What the text walk does to `parameters`, which nothing reads: a paragraph and its class are marked, and
   after a walk over the children the class is taken out again.
   */
  function Marked(parameters: map<string, bool>, n: Node, key: string): map<string, bool>
    requires n.Element?
    decreases n
  {
    var className := if IsParagraph(n) then LastClass(n.attributes) else "";
    var begun := if !IsParagraph(n) then parameters
                 else if className == "" then parameters["paragraph" := true]
                 else parameters["paragraph" := true][className := true];
    if key == "" || className != "" then begun
    else
      var walked := MarkedAll(begun, n.childNodes, key);
      if !IsParagraph(n) then walked
      else if className == "" then walked["paragraph" := false]
      else walked["paragraph" := false] - {className}
  }

  function MarkedAll(parameters: map<string, bool>, ns: seq<Node>, key: string): map<string, bool>
    decreases ns
  {
    if ns == [] then parameters
    else
      var before, last := MarkedAll(parameters, ns[..|ns| - 1], key), ns[|ns| - 1];
      if last.Element? then Marked(before, last, key) else before
  }

  /** The elements of a tree in document order. */
  function Preorder(n: Node): (r: seq<Node>)
    requires n.Element?
    ensures forall i :: 0 <= i < |r| ==> r[i].Element?
    decreases n
  {
    [n] + PreorderAll(n.childNodes)
  }

  function PreorderAll(ns: seq<Node>): (r: seq<Node>)
    ensures forall i :: 0 <= i < |r| ==> r[i].Element?
    decreases ns
  {
    if ns == [] then []
    else
      var before, last := PreorderAll(ns[..|ns| - 1]), ns[|ns| - 1];
      before + if last.Element? then Preorder(last) else []
  }

  predicate IsContent(a: Attribute) {
    a.name == "class" && a.value == "horoscope-content"
  }

  predicate IsContentDiv(n: Node) {
    n.Element? && n.nodeName == "div" && exists i :: 0 <= i < |n.attributes| && IsContent(n.attributes[i])
  }

  predicate IsClassedBody(n: Node): (r: bool)
    ensures r ==> n.Element?
  {
    n.Element? && n.nodeName == "body" && HasClass(n.attributes)
  }

  datatype Globals = Globals(zodiacKey: string, textStorage: string)

  /** What visiting one element does: a content div replaces the text, a classed body names the sign. */
  function Visit(g: Globals, n: Node): Globals {
    if IsContentDiv(n) then g.(textStorage := Extracted(n, g.zodiacKey))
    else if IsClassedBody(n) then g.(zodiacKey := LastClass(n.attributes))
    else g
  }

  function VisitAll(g: Globals, ns: seq<Node>): Globals {
    if ns == [] then g else Visit(VisitAll(g, ns[..|ns| - 1]), ns[|ns| - 1])
  }

  lemma {:induction false} VisitAllConcat(g: Globals, a: seq<Node>, b: seq<Node>)
    ensures VisitAll(g, a + b) == VisitAll(VisitAll(g, a), b)
  {
    if b == [] {
      assert a + b == a;
    } else {
      VisitAllConcat(g, a, b[..|b| - 1]);
      assert (a + b)[..|a + b| - 1] == a + b[..|b| - 1];
    }
  }

  // ----- the walks -----

  class Parser {
    var zodiacKey: string
    var parameters: map<string, bool>
    var textStorage: string

    ghost function State(): Globals
      reads this
    {
      Globals(zodiacKey, textStorage)
    }

    constructor ()
      ensures zodiacKey == "" && textStorage == "" && parameters == map[]
    {
      zodiacKey, parameters, textStorage := "", map[], "";
    }

    /** The last class, as the loop over the attributes finds it. */
    method FindClass(attributes: seq<Attribute>) returns (classValue: string)
      ensures classValue == LastClass(attributes)
    {
      classValue := "";
      for i := 0 to |attributes|
        invariant classValue == LastClass(attributes[..i])
      {
        assert attributes[..i + 1][..i] == attributes[..i];
        if attributes[i].name == "class" {
          classValue := attributes[i].value;
        }
      }
      assert attributes[..|attributes|] == attributes;
    }

    /** The text walk appends exactly the prediction of its subtree. */
    method InvokeTextFromTreeWithZodiacKey(tree: Node, key: string)
      requires tree.Element?
      modifies this`parameters, this`textStorage
      ensures textStorage == old(textStorage) + Extracted(tree, key)
      ensures parameters == Marked(old(parameters), tree, key)
      decreases tree, 1
    {
      var classValue := "";
      if tree.nodeName == "p" {
        classValue := FindClass(tree.attributes);
        parameters := parameters["paragraph" := true];
        if |classValue| > 0 {
          parameters := parameters[classValue := true];
        }
      }
      if |key| == 0 || |classValue| > 0 {
        return;
      }
      InvokeChildren(tree, key);
      if tree.nodeName == "p" {
        parameters := parameters["paragraph" := false];
        parameters := if |classValue| > 0 then parameters - {classValue} else parameters;
      }
    }

    method InvokeChildren(tree: Node, key: string)
      requires tree.Element? && key != ""
      modifies this`parameters, this`textStorage
      ensures textStorage == old(textStorage) + TextContents(PrunedAll(tree.childNodes))
      ensures parameters == MarkedAll(old(parameters), tree.childNodes, key)
      decreases tree, 0
    {
      hide Marked, MarkedAll, TextContents, PrunedAll, Pruned, IsClassedParagraph;
      var children := tree.childNodes;
      ghost var text, marks := textStorage, parameters;
      NoChildren(marks, key);
      assert children[..0] == [] && text + "" == text;
      for i := 0 to |children|
        invariant textStorage == text + TextContents(PrunedAll(children[..i]))
        invariant parameters == MarkedAll(marks, children[..i], key)
      {
        var child := children[i];
        AppendChild(text, children, i, key);
        AppendMarks(marks, children, i, key);
        if child.Element? {
          InvokeTextFromTreeWithZodiacKey(child, key);
        } else if child.Text? {
          textStorage := textStorage + child.textContent;
        }
      }
      assert children[..|children|] == children;
    }

    /** The page walk is the fold of `Visit` over the elements in document order. */
    method InvokePayloadData(tree: Node)
      requires tree.Element?
      modifies this
      ensures State() == VisitAll(old(State()), Preorder(tree))
      decreases tree
    {
      VisitChildren(State(), tree);
      VisitElement(tree);
      ghost var begun := State();
      var children := tree.childNodes;
      for i := 0 to |children|
        invariant State() == VisitAll(begun, PreorderAll(children[..i]))
      {
        var child := children[i];
        assert children[..i + 1][..i] == children[..i];
        if child.Element? {
          InvokePayloadData(child);
          VisitAllConcat(begun, PreorderAll(children[..i]), Preorder(child));
        } else {
          assert PreorderAll(children[..i]) + [] == PreorderAll(children[..i]);
        }
      }
      assert children[..|children|] == children;
    }

    method VisitElement(tree: Node)
      requires tree.Element?
      modifies this
      ensures State() == Visit(old(State()), tree)
    {
      hide Extracted, Marked;
      if tree.nodeName == "div" {
        for y := 0 to |tree.attributes|
          invariant zodiacKey == old(zodiacKey)
          invariant textStorage == if exists i :: 0 <= i < y && IsContent(tree.attributes[i])
                                   then Extracted(tree, zodiacKey) else old(textStorage)
        {
          var attribute := tree.attributes[y];
          if attribute.name == "class" && attribute.value == "horoscope-content" {
            textStorage := "";
            InvokeTextFromTreeWithZodiacKey(tree, zodiacKey);
            assert IsContent(tree.attributes[y]);
          }
        }
      }
      if tree.nodeName == "body" {
        for y := 0 to |tree.attributes|
          invariant textStorage == old(textStorage)
          invariant zodiacKey == if HasClass(tree.attributes[..y]) then LastClass(tree.attributes[..y])
                                 else old(zodiacKey)
        {
          assert tree.attributes[..y + 1][..y] == tree.attributes[..y];
          if tree.attributes[y].name == "class" {
            zodiacKey := tree.attributes[y].value;
            assert tree.attributes[..y + 1][y].name == "class";
          } else {
            assert HasClass(tree.attributes[..y + 1]) <==> HasClass(tree.attributes[..y]);
          }
        }
        assert tree.attributes[..|tree.attributes|] == tree.attributes;
      }
    }

    /** The completion handler receives the two results. */
    method Parse(root: Node) returns (zodiacName: string, predictionText: string)
      requires root.Element?
      modifies this
      ensures Globals(zodiacName, predictionText) == VisitAll(old(State()), Preorder(root)) == State()
    {
      InvokePayloadData(root);
      return zodiacKey, textStorage;
    }
  }

  lemma NoChildren(parameters: map<string, bool>, key: string)
    ensures TextContents(PrunedAll([])) == "" && MarkedAll(parameters, [], key) == parameters
  {
  }

  /** The text of one more child, as the text walk finds it. */
  function ChildText(child: Node, key: string): string {
    if child.Element? then Extracted(child, key) else if child.Text? then child.textContent else ""
  }

  lemma ChildTextIs(child: Node, key: string)
    requires key != ""
    ensures ChildText(child, key) == if IsClassedParagraph(child) then "" else TextContent(Pruned(child))
  {
  }

  lemma AppendChild(text: string, children: seq<Node>, i: nat, key: string)
    requires i < |children| && key != ""
    ensures text + TextContents(PrunedAll(children[..i + 1]))
            == text + TextContents(PrunedAll(children[..i])) + ChildText(children[i], key)
  {
    hide Pruned, PrunedAll, TextContent, ChildText, Extracted, IsClassedParagraph;
    ChildTextIs(children[i], key);
    PrunedStep(children, i);
    var before, child := PrunedAll(children[..i]), children[i];
    if IsClassedParagraph(child) {
      assert before + [] == before;
    } else {
      assert (before + [Pruned(child)])[..|before|] == before;
    }
  }

  lemma PrunedStep(children: seq<Node>, i: nat)
    requires i < |children|
    ensures PrunedAll(children[..i + 1])
            == PrunedAll(children[..i]) + if IsClassedParagraph(children[i]) then [] else [Pruned(children[i])]
  {
    hide Pruned, IsClassedParagraph;
    assert children[..i + 1][..i] == children[..i];
  }

  lemma AppendMarks(parameters: map<string, bool>, children: seq<Node>, i: nat, key: string)
    requires i < |children|
    ensures var before := MarkedAll(parameters, children[..i], key);
            MarkedAll(parameters, children[..i + 1], key)
            == if children[i].Element? then Marked(before, children[i], key) else before
  {
    assert children[..i + 1][..i] == children[..i];
  }

  /**
   Nothing is ever taken out: a class is taken out only after a walk that the same class prevents. Every mark
   stays, and but for that of paragraphs it stays as it is or becomes true.
   */
  lemma {:induction false} MarksStay(parameters: map<string, bool>, n: Node, key: string, name: string)
    requires n.Element? && name in parameters
    ensures name in Marked(parameters, n, key)
    ensures name != "paragraph" ==>
              Marked(parameters, n, key)[name] == parameters[name] || Marked(parameters, n, key)[name]
    decreases n
  {
    MarksStayAll(if IsParagraph(n) then parameters["paragraph" := true] else parameters, n.childNodes, key, name);
  }

  lemma {:induction false} MarksStayAll(parameters: map<string, bool>, ns: seq<Node>, key: string, name: string)
    requires name in parameters
    ensures name in MarkedAll(parameters, ns, key)
    ensures name != "paragraph" ==>
              MarkedAll(parameters, ns, key)[name] == parameters[name] || MarkedAll(parameters, ns, key)[name]
    decreases ns
  {
    if ns != [] {
      MarksStayAll(parameters, ns[..|ns| - 1], key, name);
      if ns[|ns| - 1].Element? {
        MarksStay(MarkedAll(parameters, ns[..|ns| - 1], key), ns[|ns| - 1], key, name);
      }
    }
  }

  lemma VisitChildren(g: Globals, tree: Node)
    requires tree.Element?
    ensures VisitAll(g, Preorder(tree)) == VisitAll(Visit(g, tree), PreorderAll(tree.childNodes))
  {
    VisitAllConcat(g, [tree], PreorderAll(tree.childNodes));
    assert [tree][..0] == [];
  }

  // ----- the result -----

  predicate IsLastContent(ns: seq<Node>, k: nat) {
    k < |ns| && IsContentDiv(ns[k]) && forall j :: k < j < |ns| ==> !IsContentDiv(ns[j])
  }

  predicate IsLastBody(ns: seq<Node>, k: nat) {
    k < |ns| && IsClassedBody(ns[k]) && forall j :: k < j < |ns| ==> !IsClassedBody(ns[j])
  }

  /** The sign is that of the last classed body, or what it was before. */
  lemma {:induction false} FinalKey(g: Globals, ns: seq<Node>)
    ensures forall k: nat :: IsLastBody(ns, k) ==> VisitAll(g, ns).zodiacKey == LastClass(ns[k].attributes)
    ensures (forall j :: 0 <= j < |ns| ==> !IsClassedBody(ns[j])) ==> VisitAll(g, ns).zodiacKey == g.zodiacKey
  {
    hide LastClass, IsClassedBody, IsContentDiv;
    if ns != [] {
      var front, last := ns[..|ns| - 1], ns[|ns| - 1];
      FinalKey(g, front);
      NotBoth(last);
      forall k: nat | IsLastBody(ns, k) ensures VisitAll(g, ns).zodiacKey == LastClass(ns[k].attributes) {
        assert k < |ns| - 1 ==> IsLastBody(front, k);
      }
    }
  }

  lemma NotBoth(n: Node)
    ensures !(IsClassedBody(n) && IsContentDiv(n))
  {
  }

  /** The text is that of the last content div, under the sign known when it was met. */
  lemma {:induction false} FinalText(g: Globals, ns: seq<Node>, k: nat)
    requires IsLastContent(ns, k)
    ensures VisitAll(g, ns).textStorage == Extracted(ns[k], VisitAll(g, ns[..k]).zodiacKey)
  {
    hide Extracted, IsClassedBody, IsContentDiv;
    if k < |ns| - 1 {
      FinalText(g, ns[..|ns| - 1], k);
      assert ns[..|ns| - 1][..k] == ns[..k];
    }
  }

  /** A page without a content div repeats the text of an earlier page. */
  lemma {:induction false} NoContent(g: Globals, ns: seq<Node>)
    requires forall j :: 0 <= j < |ns| ==> !IsContentDiv(ns[j])
    ensures VisitAll(g, ns).textStorage == g.textStorage
  {
    hide IsClassedBody, IsContentDiv;
    if ns != [] {
      NoContent(g, ns[..|ns| - 1]);
    }
  }

  /** Whatever the globals held, the page gives the same prediction. */
  ghost predicate IsFresh(root: Node)
    requires root.Element?
  {
    forall g: Globals, h: Globals ::
      VisitAll(g, Preorder(root)).textStorage == VisitAll(h, Preorder(root)).textStorage
  }

  /** A classed body comes before element `k`. */
  predicate BodyPrecedes(ns: seq<Node>, k: nat)
    requires k <= |ns|
  {
    exists b :: 0 <= b < k && IsClassedBody(ns[b])
  }

  /** There is a content div, and a classed body comes before the last one, or that one has no text to lose. */
  ghost predicate IsSelfContained(ns: seq<Node>) {
    exists k: nat :: IsLastContent(ns, k) && (BodyPrecedes(ns, k) || TextContent(Pruned(ns[k])) == "")
  }

  /** Exactly these pages give a prediction that does not depend on the page parsed before. */
  lemma FreshCondition(root: Node)
    requires root.Element?
    ensures IsFresh(root) <==> IsSelfContained(Preorder(root))
  {
    hide VisitAll, IsClassedBody, IsContentDiv, TextContent, Pruned, Preorder, PreorderAll, IsClassedParagraph;
    var ns := Preorder(root);
    if j :| 0 <= j < |ns| && IsContentDiv(ns[j]) {
      var k := LastContent(ns, j);
      OneLastContent(ns, k);
      NotParagraph(ns[k]);
      if BodyPrecedes(ns, k) || TextContent(Pruned(ns[k])) == "" {
        forall g, h ensures VisitAll(g, ns).textStorage == VisitAll(h, ns).textStorage {
          SameText(g, h, ns, k);
        }
        assert IsFresh(root);
      } else {
        var g, h := Globals("", ""), Globals("x", "");
        FinalText(g, ns, k);
        FinalText(h, ns, k);
        FinalKey(g, ns[..k]);
        FinalKey(h, ns[..k]);
        assert VisitAll(g, ns).textStorage != VisitAll(h, ns).textStorage;
      }
    } else {
      NoContent(Globals("", ""), ns);
      NoContent(Globals("", "x"), ns);
      assert VisitAll(Globals("", ""), ns).textStorage != VisitAll(Globals("", "x"), ns).textStorage;
    }
  }

  lemma OneLastContent(ns: seq<Node>, k: nat)
    requires IsLastContent(ns, k)
    ensures forall i: nat :: IsLastContent(ns, i) ==> i == k
  {
  }

  lemma NotParagraph(n: Node)
    requires IsContentDiv(n)
    ensures !IsClassedParagraph(n)
  {
  }

  lemma SameText(g: Globals, h: Globals, ns: seq<Node>, k: nat)
    requires IsLastContent(ns, k) && (BodyPrecedes(ns, k) || TextContent(Pruned(ns[k])) == "")
    ensures VisitAll(g, ns).textStorage == VisitAll(h, ns).textStorage
  {
    hide VisitAll, IsClassedBody, IsContentDiv, TextContent, Pruned, IsClassedParagraph;
    FinalText(g, ns, k);
    FinalText(h, ns, k);
    if BodyPrecedes(ns, k) {
      var b :| 0 <= b < k && IsClassedBody(ns[b]);
      var last := LastBody(ns[..k], b);
      FinalKey(g, ns[..k]);
      FinalKey(h, ns[..k]);
    }
  }

  lemma {:induction false} LastContent(ns: seq<Node>, j: nat) returns (k: nat)
    requires j < |ns| && IsContentDiv(ns[j])
    ensures IsLastContent(ns, k)
    decreases |ns| - j
  {
    if i :| j < i < |ns| && IsContentDiv(ns[i]) {
      k := LastContent(ns, i);
    } else {
      k := j;
    }
  }

  lemma {:induction false} LastBody(ns: seq<Node>, j: nat) returns (k: nat)
    requires j < |ns| && IsClassedBody(ns[j])
    ensures IsLastBody(ns, k)
    decreases |ns| - j
  {
    if i :| j < i < |ns| && IsClassedBody(ns[i]) {
      k := LastBody(ns, i);
    } else {
      k := j;
    }
  }
}
