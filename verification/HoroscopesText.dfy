/**
 What the prediction of a content div holds: its text leaves outside classed paragraphs, in document order.
 */
module HoroscopesText {
  import opened HoroscopesParser

  // ----- child by child -----

  lemma {:induction false} PrunedConcat(a: seq<Node>, b: seq<Node>)
    ensures PrunedAll(a + b) == PrunedAll(a) + PrunedAll(b)
    decreases |b|
  {
    hide Pruned, IsClassedParagraph;
    if b == [] {
      assert a + b == a;
    } else {
      PrunedConcat(a, b[..|b| - 1]);
      assert (a + b)[..|a + b| - 1] == a + b[..|b| - 1];
    }
  }

  lemma {:induction false} TextConcat(a: seq<Node>, b: seq<Node>)
    ensures TextContents(a + b) == TextContents(a) + TextContents(b)
    decreases |b|
  {
    hide TextContent;
    if b == [] {
      assert a + b == a;
    } else {
      TextConcat(a, b[..|b| - 1]);
      assert (a + b)[..|a + b| - 1] == a + b[..|b| - 1];
    }
  }

  /** The text below the nodes that the walk sees. */
  function Seen(ns: seq<Node>): string {
    TextContents(PrunedAll(ns))
  }

  lemma SeenConcat(a: seq<Node>, b: seq<Node>)
    ensures Seen(a + b) == Seen(a) + Seen(b)
  {
    PrunedConcat(a, b);
    TextConcat(PrunedAll(a), PrunedAll(b));
  }

  lemma SeenOne(c: Node)
    ensures Seen([c]) == match c
                         case Text(t) => t
                         case Element(_, _, childNodes) => if IsClassedParagraph(c) then "" else Seen(childNodes)
                         case Other => ""
  {
    assert [c][..0] == [] && PrunedAll([]) == [] && TextContents([]) == "";
    var p := if IsClassedParagraph(c) then [] else [Pruned(c)];
    assert PrunedAll([c]) == p && p[..0] == [];
    assert p != [] ==> TextContents(p) == TextContent(p[0]);
  }

  lemma ExtractedIsSeen(n: Node, key: string)
    requires n.Element? && !IsClassedParagraph(n) && key != ""
    ensures Extracted(n, key) == Seen(n.childNodes)
  {
  }

  /**
   The text of an element whose children are `a`, then `c`, then `b`: what `a` gives, then what `c` adds, then
   what `b` gives. A text adds itself, an element what it gives alone, a classed paragraph and anything else nothing.
   */
  lemma TextOfChild(name: string, attributes: seq<Attribute>, a: seq<Node>, c: Node, b: seq<Node>, key: string)
    requires key != "" && !IsClassedParagraph(Element(name, attributes, []))
    ensures var before := Extracted(Element(name, attributes, a), key);
            var after := Extracted(Element(name, attributes, b), key);
            var all := Extracted(Element(name, attributes, a + [c] + b), key);
            && (c.Text? ==> all == before + c.textContent + after)
            && (c.Element? && !IsClassedParagraph(c) ==> all == before + Extracted(c, key) + after)
            && (IsClassedParagraph(c) || c.Other? ==> all == before + after)
    ensures Extracted(Element(name, attributes, []), key) == ""
  {
    ExtractedIsSeen(Element(name, attributes, a + [c] + b), key);
    ExtractedIsSeen(Element(name, attributes, a), key);
    ExtractedIsSeen(Element(name, attributes, b), key);
    ExtractedIsSeen(Element(name, attributes, []), key);
    SeenConcat(a + [c], b);
    SeenConcat(a, [c]);
    SeenOne(c);
    if c.Element? && !IsClassedParagraph(c) {
      ExtractedIsSeen(c, key);
    }
    assert Seen([]) == "";
    hide Extracted, Seen;
    assert Seen(a) + "" == Seen(a);
  }

  /** Classed paragraphs are `p` elements whose last `class` attribute is not empty. */
  lemma ClassedParagraphs(name: string, before: seq<Attribute>, value: string, after: seq<Attribute>, ns: seq<Node>)
    requires !HasClass(after)
    ensures IsClassedParagraph(Element(name, before + [Attribute("class", value)] + after, ns))
            <==> name == "p" && value != ""
    ensures !IsClassedParagraph(Element(name, after, ns))
  {
    LastClassOf(before, value, after);
  }

  // ----- leaf by leaf -----

  /** Which child to go to, level by level. */
  type Path = seq<nat>

  /** The path leads to a text and nowhere through a classed paragraph. */
  predicate LeadsToText(n: Node, path: Path)
    decreases |path|
  {
    if path == [] then n.Text?
    else
      && n.Element? && !IsClassedParagraph(n) && path[0] < |n.childNodes|
      && LeadsToText(n.childNodes[path[0]], path[1..])
  }

  function TextAt(n: Node, path: Path): string
    requires LeadsToText(n, path)
    decreases |path|
  {
    if path == [] then n.textContent else TextAt(n.childNodes[path[0]], path[1..])
  }

  /** `p` comes first in document order: where they part, it goes to an earlier child. */
  predicate Earlier(p: Path, q: Path)
    decreases |p|
  {
    p != [] && q != [] && (p[0] < q[0] || (p[0] == q[0] && Earlier(p[1..], q[1..])))
  }

  /** These are all the texts the walk sees, in document order. */
  ghost predicate AreLeaves(n: Node, paths: seq<Path>) {
    && (forall p: Path :: p in paths <==> LeadsToText(n, p))
    && forall i, j :: 0 <= i < j < |paths| ==> Earlier(paths[i], paths[j])
  }

  function TextsAt(n: Node, paths: seq<Path>): string
    requires forall i :: 0 <= i < |paths| ==> LeadsToText(n, paths[i])
  {
    if paths == [] then "" else TextAt(n, paths[0]) + TextsAt(n, paths[1..])
  }

  lemma {:induction false} TextsConcat(n: Node, a: seq<Path>, b: seq<Path>)
    requires forall i :: 0 <= i < |a| ==> LeadsToText(n, a[i])
    requires forall i :: 0 <= i < |b| ==> LeadsToText(n, b[i])
    ensures TextsAt(n, a + b) == TextsAt(n, a) + TextsAt(n, b)
  {
    hide LeadsToText, TextAt;
    if a == [] {
      assert a + b == b;
    } else {
      TextsConcat(n, a[1..], b);
      assert (a + b)[1..] == a[1..] + b;
    }
  }

  function Under(k: nat, paths: seq<Path>): (r: seq<Path>)
    ensures |r| == |paths| && forall i :: 0 <= i < |r| ==> r[i] == [k] + paths[i]
  {
    seq(|paths|, i requires 0 <= i < |paths| => [k] + paths[i])
  }

  lemma StepDown(n: Node, k: nat, p: Path)
    requires n.Element? && !IsClassedParagraph(n) && k < |n.childNodes|
    ensures LeadsToText(n, [k] + p) <==> LeadsToText(n.childNodes[k], p)
    ensures LeadsToText(n.childNodes[k], p) ==> TextAt(n, [k] + p) == TextAt(n.childNodes[k], p)
  {
    assert ([k] + p)[1..] == p;
  }

  lemma {:induction false} TextsUnder(n: Node, k: nat, paths: seq<Path>)
    requires n.Element? && !IsClassedParagraph(n) && k < |n.childNodes|
    requires forall i :: 0 <= i < |paths| ==> LeadsToText(n.childNodes[k], paths[i])
    ensures forall i :: 0 <= i < |paths| ==> LeadsToText(n, Under(k, paths)[i])
    ensures TextsAt(n, Under(k, paths)) == TextsAt(n.childNodes[k], paths)
    decreases |paths|
  {
    hide LeadsToText, TextAt;
    forall i | 0 <= i < |paths| ensures LeadsToText(n, Under(k, paths)[i]) {
      StepDown(n, k, paths[i]);
    }
    if paths != [] {
      StepDown(n, k, paths[0]);
      TextsUnder(n, k, paths[1..]);
      assert Under(k, paths)[1..] == Under(k, paths[1..]);
    }
  }

  /** The leaves below the first `k` children. */
  ghost predicate AreLeavesUpTo(n: Node, k: nat, paths: seq<Path>) {
    && (forall p: Path :: p in paths <==> p != [] && p[0] < k && LeadsToText(n, p))
    && forall i, j :: 0 <= i < j < |paths| ==> Earlier(paths[i], paths[j])
  }

  /** The leaves below one more child come behind those before. */
  lemma NextChild(n: Node, k: nat, before: seq<Path>, paths: seq<Path>)
    requires n.Element? && !IsClassedParagraph(n) && k < |n.childNodes|
    requires AreLeavesUpTo(n, k, before) && AreLeaves(n.childNodes[k], paths)
    ensures AreLeavesUpTo(n, k + 1, before + Under(k, paths))
  {
    hide LeadsToText;
    var under := Under(k, paths);
    var all := before + under;
    forall p: Path ensures p in all <==> p != [] && p[0] < k + 1 && LeadsToText(n, p) {
      if p in under {
        var i :| 0 <= i < |under| && under[i] == p;
        StepDown(n, k, paths[i]);
      }
      if p != [] && p[0] == k && LeadsToText(n, p) {
        assert p == [k] + p[1..];
        StepDown(n, k, p[1..]);
        var i :| 0 <= i < |paths| && paths[i] == p[1..];
        assert under[i] == p;
      }
    }
    forall i, j | 0 <= i < j < |all| ensures Earlier(all[i], all[j]) {
      if i < |before| <= j {
        assert all[i] in before && all[j] == [k] + paths[j - |before|];
      } else if i >= |before| {
        assert all[i][1..] == paths[i - |before|] && all[j][1..] == paths[j - |before|];
      }
    }
  }

  /**
   The prediction in a subtree is its texts, each once and in document order: all but those in classed paragraphs.
   */
  lemma {:induction false} TextInDocumentOrder(n: Node, key: string) returns (paths: seq<Path>)
    requires key != ""
    ensures AreLeaves(n, paths) && Extracted(n, key) == TextsAt(n, paths)
    decreases n
  {
    if n.Text? {
      paths := [[]];
      assert TextsAt(n, paths[1..]) == "";
    } else if n.Element? && !IsClassedParagraph(n) {
      paths := ChildrenInOrder(n, key, |n.childNodes|);
      assert n.childNodes[..|n.childNodes|] == n.childNodes;
      ExtractedIsSeen(n, key);
      assert forall p: Path :: LeadsToText(n, p) ==> p != [] && p[0] < |n.childNodes|;
    } else {
      paths := [];
    }
  }

  lemma {:induction false} ChildrenInOrder(n: Node, key: string, k: nat) returns (paths: seq<Path>)
    requires key != "" && n.Element? && !IsClassedParagraph(n) && k <= |n.childNodes|
    ensures AreLeavesUpTo(n, k, paths) && Seen(n.childNodes[..k]) == TextsAt(n, paths)
    decreases n, k
  {
    hide IsClassedParagraph, LeadsToText, Extracted, Seen, AreLeaves;
    if k == 0 {
      paths := [];
      SeenNothing();
    } else {
      var before := ChildrenInOrder(n, key, k - 1);
      var last := TextInDocumentOrder(n.childNodes[k - 1], key);
      hide AreLeavesUpTo;
      paths := OneMoreChild(n, key, k - 1, before, last);
    }
  }

  lemma OneMoreChild(n: Node, key: string, k: nat, before: seq<Path>, last: seq<Path>) returns (paths: seq<Path>)
    requires key != "" && n.Element? && !IsClassedParagraph(n) && k < |n.childNodes|
    requires AreLeavesUpTo(n, k, before) && Seen(n.childNodes[..k]) == TextsAt(n, before)
    requires AreLeaves(n.childNodes[k], last) && Extracted(n.childNodes[k], key) == TextsAt(n.childNodes[k], last)
    ensures AreLeavesUpTo(n, k + 1, paths) && Seen(n.childNodes[..k + 1]) == TextsAt(n, paths)
  {
    hide IsClassedParagraph, LeadsToText, Extracted, Seen, TextsAt, Earlier;
    var child := n.childNodes[k];
    NextChild(n, k, before, last);
    TextsUnder(n, k, last);
    TextsConcat(n, before, Under(k, last));
    assert n.childNodes[..k + 1] == n.childNodes[..k] + [child];
    SeenConcat(n.childNodes[..k], [child]);
    SeenIsExtracted(child, key);
    paths := before + Under(k, last);
  }

  lemma SeenNothing()
    ensures Seen([]) == ""
  {
  }

  lemma SeenIsExtracted(c: Node, key: string)
    requires key != ""
    ensures Seen([c]) == Extracted(c, key)
  {
    SeenOne(c);
  }

  lemma {:induction false} NotBothEarlier(p: Path, q: Path)
    ensures !(Earlier(p, q) && Earlier(q, p)) && !Earlier(p, p)
    decreases |p|
  {
    if p != [] {
      NotBothEarlier(p[1..], if q == [] then [] else q[1..]);
    }
  }

  predicate InOrder(paths: seq<Path>) {
    forall i, j :: 0 <= i < j < |paths| ==> Earlier(paths[i], paths[j])
  }

  /** A set of paths has one order. */
  lemma {:induction false} OneOrder(a: seq<Path>, b: seq<Path>)
    requires InOrder(a) && InOrder(b) && forall p: Path :: p in a <==> p in b
    ensures a == b
    decreases |a|
  {
    hide Earlier;
    assert (a != [] ==> a[0] in b) && (b != [] ==> b[0] in a);
    if a != [] {
      SameFirst(a, b);
      forall p: Path ensures p in a[1..] <==> p in b[1..] {
        NotFirst(a, p);
        NotFirst(b, p);
      }
      OneOrder(a[1..], b[1..]);
      assert a == [a[0]] + a[1..] && b == [b[0]] + b[1..];
    }
  }

  lemma SameFirst(a: seq<Path>, b: seq<Path>)
    requires InOrder(a) && InOrder(b) && a != [] && b != [] && a[0] in b && b[0] in a
    ensures a[0] == b[0]
  {
    hide Earlier;
    NotBothEarlier(a[0], b[0]);
  }

  lemma NotFirst(a: seq<Path>, p: Path)
    requires InOrder(a) && a != []
    ensures p in a[1..] <==> p in a && p != a[0]
  {
    hide Earlier;
    NotBothEarlier(a[0], a[0]);
    if p in a[1..] {
      var i :| 0 <= i < |a| - 1 && a[1..][i] == p;
      assert a[i + 1] == p;
    }
    if p in a && p != a[0] {
      var i :| 0 <= i < |a| && a[i] == p;
      assert a[1..][i - 1] == p;
    }
  }

  /** There is one list of all the texts in order, and it gives the prediction of the subtree. */
  lemma TextIsOfLeaves(n: Node, key: string)
    requires key != ""
    ensures exists paths :: AreLeaves(n, paths)
    ensures forall paths :: AreLeaves(n, paths) ==> Extracted(n, key) == TextsAt(n, paths)
  {
    hide Extracted, TextsAt, LeadsToText, Earlier;
    var all := TextInDocumentOrder(n, key);
    forall paths | AreLeaves(n, paths) ensures Extracted(n, key) == TextsAt(n, paths) {
      OneOrder(all, paths);
    }
  }

  // ----- the page -----

  /**
   The prediction of a page, whatever was parsed before: the texts of its last content div, in order and but for
   classed paragraphs, if the sign is known there.
   */
  lemma PredictionOfPage(g: Globals, root: Node, k: nat)
    requires root.Element? && IsLastContent(Preorder(root), k)
    ensures var div, known := Preorder(root)[k], VisitAll(g, Preorder(root)[..k]).zodiacKey;
            var text := VisitAll(g, Preorder(root)).textStorage;
            && (known == "" ==> text == "")
            && (known != "" ==> forall paths :: AreLeaves(div, paths) ==> text == TextsAt(div, paths))
  {
    hide AreLeaves, TextsAt, Preorder, VisitAll, IsClassedParagraph;
    FinalText(g, Preorder(root), k);
    if VisitAll(g, Preorder(root)[..k]).zodiacKey != "" {
      TextIsOfLeaves(Preorder(root)[k], VisitAll(g, Preorder(root)[..k]).zodiacKey);
    }
  }

  /** A page: `<body class="aries"><div class="horoscope-content"><p>text</p></div></body>`. */
  function SmallPage(sign: string, text: string): Node {
    Element("body", [Attribute("class", sign)],
            [Element("div", [Attribute("class", "horoscope-content")], [Element("p", [], [Text(text)])])])
  }

  lemma SmallPageGives(g: Globals, sign: string, text: string)
    requires sign != ""
    ensures VisitAll(g, Preorder(SmallPage(sign, text))) == Globals(sign, text)
  {
    var p := Element("p", [], [Text(text)]);
    var div := Element("div", [Attribute("class", "horoscope-content")], [p]);
    var body := SmallPage(sign, text);
    OneChild(p, Text(text));
    OneChild(div, p);
    OneChild(body, div);
    assert [div] + [p] == [div, p] && [body] + [div, p] == [body, div, p] && [p] + [] == [p];
    hide Preorder, PreorderAll, Extracted;
    assert [body, div, p][..2] == [body, div] && [body, div][..1] == [body] && [body][..0] == [];
    SmallDivGives(sign, text);
    VisitsOf(g, sign, div, p);
    var after := Globals(sign, g.textStorage);
    assert VisitAll(g, [body]) == Visit(g, body) == after by {
      assert LastClass(body.attributes) == sign && body.attributes[0].name == "class";
      assert IsClassedBody(body);
    }
    hide Visit;
    assert VisitAll(g, [body, div]) == Visit(after, div);
    assert VisitAll(g, [body, div, p]) == Visit(Visit(after, div), p);
  }

  lemma VisitsOf(g: Globals, sign: string, div: Node, p: Node)
    requires div.Element? && div.nodeName == "div" && div.attributes == [Attribute("class", "horoscope-content")]
    requires p.Element? && p.nodeName == "p"
    ensures Visit(Globals(sign, g.textStorage), div) == Globals(sign, Extracted(div, sign))
    ensures forall h: Globals :: Visit(h, p) == h
  {
    assert IsContent(div.attributes[0]);
    hide Extracted;
  }

  lemma OneChild(n: Node, c: Node)
    requires n.Element? && n.childNodes == [c]
    ensures Preorder(n) == [n] + if c.Element? then Preorder(c) else []
  {
    assert [c][..0] == [] && PreorderAll([]) == [];
  }

  lemma SmallDivGives(sign: string, text: string)
    requires sign != ""
    ensures var p := Element("p", [], [Text(text)]);
            Extracted(Element("div", [Attribute("class", "horoscope-content")], [p]), sign) == text
  {
    var p := Element("p", [], [Text(text)]);
    SeenOne(p);
    SeenOne(Text(text));
    assert LastClass([]) == "";
    ExtractedIsSeen(Element("div", [Attribute("class", "horoscope-content")], [p]), sign);
  }
}
