/** How a builder tree renders: the general rules for closing an element,
    for names and for sibling order, and the trees the renderer is pinned
    down by, each with the fragments its traversal yields. */
module BuilderFixtures {

  import opened Results
  import opened XmlBuilders
  import opened BuilderStreams

  /*** General rules ***/

  /** Siblings render in the order they are declared, each verbatim. */
  lemma {:induction false} RenderAllAppend(a: seq<Node>, b: seq<Node>)
    ensures RenderAll(a + b) == RenderAll(a) + RenderAll(b)
    decreases |a|
  {
    if a == [] {
      assert a + b == b;
    } else {
      assert (a + b)[0] == a[0];
      assert (a + b)[1..] == a[1..] + b;
      RenderAllAppend(a[1..], b);
    }
  }

  /** An element without child nodes closes itself, after its attributes. */
  lemma {:induction false} ChildlessElementSelfCloses(prefix: string, localName: string, uri: string, attributes: seq<Node>)
    ensures Render(Element(prefix, localName, uri, attributes, [])) ==
      "<" + QualifiedName(prefix, localName) + RenderAll(attributes) + " />"
  {
  }

  /** An element with child nodes gets `>`, its children and an end tag. */
  lemma {:induction false} ParentElementHasEndTag(prefix: string, localName: string, uri: string,
                                                  attributes: seq<Node>, childNodes: seq<Node>)
    requires childNodes != []
    ensures Render(Element(prefix, localName, uri, attributes, childNodes)) ==
      "<" + QualifiedName(prefix, localName) + RenderAll(attributes) +
      (">" + RenderAll(childNodes) + "</" + QualifiedName(prefix, localName) + ">")
  {
  }

  /** A single empty text child is a child all the same: the element gets
      an end tag instead of closing itself. */
  lemma {:induction false} EmptyTextKeepsEndTag(prefix: string, localName: string, uri: string, attributes: seq<Node>)
    ensures Render(Element(prefix, localName, uri, attributes, [Text("")])) ==
      "<" + QualifiedName(prefix, localName) + RenderAll(attributes) + ("></" + QualifiedName(prefix, localName) + ">")
    ensures Render(Element(prefix, localName, uri, attributes, [Text("")])) !=
      Render(Element(prefix, localName, uri, attributes, []))
  {
    var q, attrs := QualifiedName(prefix, localName), RenderAll(attributes);
    var open := "<" + q + attrs;
    assert [Text("")][1..] == [];
    assert RenderAll([Text("")]) == "";
    var withText := open + ("></" + q + ">");
    var without := open + " />";
    assert withText[|open|] == '>' && without[|open|] == ' ';
  }

  /** A qualified name is the local name alone exactly when the prefix is
      empty, and otherwise the prefix and the local name around one colon. */
  lemma {:induction false} QualifiedNameForms(prefix: string, localName: string)
    ensures prefix == "" ==> QualifiedName(prefix, localName) == localName
    ensures prefix != "" ==> QualifiedName(prefix, localName)[..|prefix| + 1] == prefix + ":"
    ensures prefix != "" ==> QualifiedName(prefix, localName)[|prefix| + 1..] == localName
  {
    if prefix != "" {
      var q := QualifiedName(prefix, localName);
      assert q == (prefix + ":") + localName;
    }
  }

  /** A null root yields the final empty fragment and nothing else. */
  lemma {:induction false} NullRootYieldsNothing()
    ensures Remaining(Push(Bottom, RootFrame(None))) == [""]
    ensures RenderRoot(None) == ""
  {
    assert Unvisited(RootFrame(None)) == [];
  }

  /*** Short sibling sequences ***/

  // Helpers for the tree lemmas below: `FragmentsAll` unfolded over one to
  // four siblings.

  /** The fragments of an element with both attributes and child nodes, in terms of its parts. */
  lemma {:induction false} ElementFragments(n: Node)
    requires n.Element? && HasAttributes(n) && HasChildNodes(n)
    ensures Fragments(n) ==
      [OpenTagStart(n)] + FragmentsAll(n.attributes) + ([">"] + FragmentsAll(n.childNodes) + [EndTag(n)])
  {
  }

  lemma {:induction false} FragmentsAllOne(a: Node)
    ensures FragmentsAll([a]) == Fragments(a)
  {
    assert [a][1..] == [];
  }

  lemma {:induction false} FragmentsAllPair(a: Node, b: Node)
    ensures FragmentsAll([a, b]) == Fragments(a) + Fragments(b)
  {
    assert [a, b][1..] == [b];
    FragmentsAllOne(b);
  }

  lemma {:induction false} FragmentsAllTriple(a: Node, b: Node, c: Node)
    ensures FragmentsAll([a, b, c]) == Fragments(a) + (Fragments(b) + Fragments(c))
  {
    assert [a, b, c][1..] == [b, c];
    FragmentsAllPair(b, c);
  }

  lemma {:induction false} FragmentsAllQuad(a: Node, b: Node, c: Node, d: Node)
    ensures FragmentsAll([a, b, c, d]) == Fragments(a) + (Fragments(b) + (Fragments(c) + Fragments(d)))
  {
    assert [a, b, c, d][1..] == [b, c, d];
    FragmentsAllTriple(b, c, d);
  }

  /*** The fragment texts the trees below spell out ***/

  // Helpers for the tree lemmas below, not properties of the stream: each one
  // joins the pieces a fragment function puts together for one name or one
  // attribute into the literal text the trees expect, so that the tree lemmas
  // stay within their resource bounds.

  lemma {:induction false} RootTags()
    ensures "<" + "root" == "<root"
    ensures "<" + "root" + ">" == "<root>"
    ensures "<" + "root" + " />" == "<root />"
    ensures "</" + "root" + ">" == "</root>"
  {
  }

  lemma {:induction false} ChildTags()
    ensures "<" + "child" == "<child"
    ensures "<" + "child" + ">" == "<child>"
    ensures "<" + "child" + " />" == "<child />"
    ensures "</" + "child" + ">" == "</child>"
  {
  }

  lemma {:induction false} S1RootTags()
    ensures "<" + "s1" + ":" + "root" == "<s1:root"
    ensures "</" + "s1" + ":" + "root" + ">" == "</s1:root>"
  {
  }

  lemma {:induction false} S1ChildTags()
    ensures "<" + "s1" + ":" + "child" + ">" == "<s1:child>"
    ensures "</" + "s1" + ":" + "child" + ">" == "</s1:child>"
  {
  }

  lemma {:induction false} ChildOneTags()
    ensures "<" + "child-one" + ">" == "<child-one>"
    ensures "<" + "child-one" + " />" == "<child-one />"
    ensures "</" + "child-one" + ">" == "</child-one>"
  {
  }

  lemma {:induction false} ChildTwoTags()
    ensures "<" + "child-two" + ">" == "<child-two>"
    ensures "<" + "child-two" + " />" == "<child-two />"
    ensures "</" + "child-two" + ">" == "</child-two>"
  {
  }

  lemma {:induction false} S1ChildOneTags()
    ensures "<" + "s1" + ":" + "child-one" + ">" == "<s1:child-one>"
    ensures "</" + "s1" + ":" + "child-one" + ">" == "</s1:child-one>"
  {
  }

  lemma {:induction false} GrandChildOneTags()
    ensures "<" + "grand-child-one" + ">" == "<grand-child-one>"
    ensures "</" + "grand-child-one" + ">" == "</grand-child-one>"
  {
  }

  lemma {:induction false} GrandChildTwoTags()
    ensures "<" + "grand-child-two" == "<grand-child-two"
    ensures "</" + "grand-child-two" + ">" == "</grand-child-two>"
  {
  }

  lemma {:induction false} S2ChildTwoTags()
    ensures "<" + "s2" + ":" + "child-two" + ">" == "<s2:child-two>"
    ensures "</" + "s2" + ":" + "child-two" + ">" == "</s2:child-two>"
  {
  }

  lemma {:induction false} A1OneAttribute()
    ensures " " + "a1" + "=\"" + "one" + "\"" == " a1=\"one\""
  {
  }

  lemma {:induction false} A2TwoAttribute()
    ensures " " + "a2" + "=\"" + "two" + "\"" == " a2=\"two\""
  {
  }

  lemma {:induction false} XmlnsUrnNsOneAttribute()
    ensures " " + "xmlns" + "=\"" + "urn:ns-one" + "\"" == " xmlns=\"urn:ns-one\""
  {
  }

  lemma {:induction false} XmlnsS1UrnNsOneAttribute()
    ensures " " + "xmlns" + ":" + "s1" + "=\"" + "urn:ns-one" + "\"" == " xmlns:s1=\"urn:ns-one\""
  {
  }

  lemma {:induction false} S2A2TwoAttribute()
    ensures " " + "s2" + ":" + "a2" + "=\"" + "two" + "\"" == " s2:a2=\"two\""
  {
  }

  lemma {:induction false} XmlnsS2UrnNsTwoAttribute()
    ensures " " + "xmlns" + ":" + "s2" + "=\"" + "urn:ns-two" + "\"" == " xmlns:s2=\"urn:ns-two\""
  {
  }

  lemma {:induction false} MarkupInValueAttribute()
    ensures " " + "a" + "=\"" + "x<y" + "\"" == " a=\"x<y\""
  {
  }

  /*** The trees the renderer is pinned down by ***/

  // For each tree, the fragments its traversal yields, one per step and in
  // order; by `BuilderStreams.FragmentsRender` they make up the markup shown
  // in the lemma's comment, which is the markup the tree is expected to render
  // as. A text builder whose value was never set is `Text("")`.

  /** `<root><child /></root>` */
  lemma {:induction false} RootWithChild()
    ensures Fragments(Element("", "root", "", [], [Element("", "child", "", [], [])])) ==
      ["<root>", "<child />", "</root>"]
  {
    var child := Element("", "child", "", [], []);
    ChildTags();
    RootTags();
    FragmentsAllOne(child);
  }

  /** `<root a1="one" a2="two"><child a1="one" a2="two" /></root>` */
  lemma {:induction false} AttributesOnRootAndChild()
    ensures Fragments(Element("", "root", "",
        [Attribute("", "a1", "", "one"), Attribute("", "a2", "", "two")],
        [Element("", "child", "",
           [Attribute("", "a1", "", "one"), Attribute("", "a2", "", "two")],
           [])])) ==
      ["<root", " a1=\"one\"", " a2=\"two\"", ">", "<child", " a1=\"one\"", " a2=\"two\"", " />",
      "</root>"]
  {
    var a1 := Attribute("", "a1", "", "one");
    A1OneAttribute();
    var a2 := Attribute("", "a2", "", "two");
    A2TwoAttribute();
    var child := Element("", "child", "", [a1, a2], []);
    ChildTags();
    FragmentsAllPair(a1, a2);
    RootTags();
    FragmentsAllPair(a1, a2);
    FragmentsAllOne(child);
  }

  /** `<root><child></child></root>` */
  lemma {:induction false} ChildWithNullText()
    ensures Fragments(Element("", "root", "", [], [Element("", "child", "", [], [Text("")])])) ==
      ["<root>", "<child>", "", "</child>", "</root>"]
  {
    var nullText := Text("");
    var child := Element("", "child", "", [], [nullText]);
    ChildTags();
    FragmentsAllOne(nullText);
    RootTags();
    FragmentsAllOne(child);
  }

  /** `<root><child>content</child></root>` */
  lemma {:induction false} ChildWithText()
    ensures Fragments(Element("", "root", "", [], [Element("", "child", "", [], [Text("content")])])) ==
      ["<root>", "<child>", "content", "</child>", "</root>"]
  {
    var contentText := Text("content");
    var child := Element("", "child", "", [], [contentText]);
    ChildTags();
    FragmentsAllOne(contentText);
    RootTags();
    FragmentsAllOne(child);
  }

  /** `<root xmlns="urn:ns-one"><child>content</child></root>` */
  lemma {:induction false} DefaultNamespace()
    ensures Fragments(Element("", "root", "urn:ns-one",
        [Attribute("", "xmlns", "", "urn:ns-one")],
        [Element("", "child", "urn:ns-one", [], [Text("content")])])) ==
      ["<root", " xmlns=\"urn:ns-one\"", ">", "<child>", "content", "</child>", "</root>"]
  {
    var xmlns := Attribute("", "xmlns", "", "urn:ns-one");
    XmlnsUrnNsOneAttribute();
    var contentText := Text("content");
    var child := Element("", "child", "urn:ns-one", [], [contentText]);
    ChildTags();
    FragmentsAllOne(contentText);
    RootTags();
    FragmentsAllOne(xmlns);
    FragmentsAllOne(child);
  }

  /** `<s1:root xmlns:s1="urn:ns-one"><s1:child>content</s1:child></s1:root>` */
  lemma {:induction false} PrefixedNamespace()
    ensures Fragments(Element("s1", "root", "urn:ns-one",
        [Attribute("xmlns", "s1", "", "urn:ns-one")],
        [Element("s1", "child", "urn:ns-one", [], [Text("content")])])) ==
      ["<s1:root", " xmlns:s1=\"urn:ns-one\"", ">", "<s1:child>", "content", "</s1:child>",
      "</s1:root>"]
  {
    var xmlnsS1 := Attribute("xmlns", "s1", "", "urn:ns-one");
    XmlnsS1UrnNsOneAttribute();
    var contentText := Text("content");
    var s1Child := Element("s1", "child", "urn:ns-one", [], [contentText]);
    S1ChildTags();
    FragmentsAllOne(contentText);
    S1RootTags();
    FragmentsAllOne(xmlnsS1);
    FragmentsAllOne(s1Child);
  }

  /** `<root><child-one /><child-two /></root>` */
  lemma {:induction false} SiblingsInOrder()
    ensures Fragments(Element("", "root", "",
        [],
        [Element("", "child-one", "", [], []), Element("", "child-two", "", [], [])])) ==
      ["<root>", "<child-one />", "<child-two />", "</root>"]
  {
    var childOne := Element("", "child-one", "", [], []);
    ChildOneTags();
    var childTwo := Element("", "child-two", "", [], []);
    ChildTwoTags();
    RootTags();
    FragmentsAllPair(childOne, childTwo);
  }

  /** `<root><child-one></child-one><child-two></child-two></root>` */
  lemma {:induction false} SiblingsWithNullText()
    ensures Fragments(Element("", "root", "",
        [],
        [Element("", "child-one", "", [], [Text("")]),
         Element("", "child-two", "", [], [Text("")])])) ==
      ["<root>", "<child-one>", "", "</child-one>", "<child-two>", "", "</child-two>", "</root>"]
  {
    var nullText := Text("");
    var childOne := Element("", "child-one", "", [], [nullText]);
    ChildOneTags();
    FragmentsAllOne(nullText);
    var childTwo := Element("", "child-two", "", [], [nullText]);
    ChildTwoTags();
    FragmentsAllOne(nullText);
    RootTags();
    FragmentsAllPair(childOne, childTwo);
  }

  /** `<root />` */
  lemma {:induction false} BareRoot()
    ensures Fragments(Element("", "root", "", [], [])) ==
      ["<root />"]
  {
    RootTags();
  }

  /** `<root a1="one" a2="two" />` */
  lemma {:induction false} RootWithAttributesOnly()
    ensures Fragments(Element("", "root", "",
        [Attribute("", "a1", "", "one"), Attribute("", "a2", "", "two")],
        [])) ==
      ["<root", " a1=\"one\"", " a2=\"two\"", " />"]
  {
    var a1 := Attribute("", "a1", "", "one");
    A1OneAttribute();
    var a2 := Attribute("", "a2", "", "two");
    A2TwoAttribute();
    RootTags();
    FragmentsAllPair(a1, a2);
  }

  /** `<root xmlns="urn:ns-one" />` */
  lemma {:induction false} DefaultNamespaceOnly()
    ensures Fragments(Element("", "root", "urn:ns-one", [Attribute("", "xmlns", "", "urn:ns-one")], [])) ==
      ["<root", " xmlns=\"urn:ns-one\"", " />"]
  {
    var xmlns := Attribute("", "xmlns", "", "urn:ns-one");
    XmlnsUrnNsOneAttribute();
    RootTags();
    FragmentsAllOne(xmlns);
  }

  /** `<s1:root xmlns:s1="urn:ns-one" />` */
  lemma {:induction false} PrefixedNamespaceOnly()
    ensures Fragments(Element("s1", "root", "urn:ns-one", [Attribute("xmlns", "s1", "", "urn:ns-one")], [])) ==
      ["<s1:root", " xmlns:s1=\"urn:ns-one\"", " />"]
  {
    var xmlnsS1 := Attribute("xmlns", "s1", "", "urn:ns-one");
    XmlnsS1UrnNsOneAttribute();
    S1RootTags();
    FragmentsAllOne(xmlnsS1);
  }

  /** `<root></root>` */
  lemma {:induction false} RootWithNullText()
    ensures Fragments(Element("", "root", "", [], [Text("")])) ==
      ["<root>", "", "</root>"]
  {
    var nullText := Text("");
    RootTags();
    FragmentsAllOne(nullText);
  }

  /** `<root a1="one" a2="two"></root>` */
  lemma {:induction false} RootWithAttributesAndNullText()
    ensures Fragments(Element("", "root", "",
        [Attribute("", "a1", "", "one"), Attribute("", "a2", "", "two")],
        [Text("")])) ==
      ["<root", " a1=\"one\"", " a2=\"two\"", ">", "", "</root>"]
  {
    var a1 := Attribute("", "a1", "", "one");
    A1OneAttribute();
    var a2 := Attribute("", "a2", "", "two");
    A2TwoAttribute();
    var nullText := Text("");
    RootTags();
    FragmentsAllPair(a1, a2);
    FragmentsAllOne(nullText);
  }

  /** `<s1:root xmlns:s1="urn:ns-one"></s1:root>` */
  lemma {:induction false} PrefixedRootWithNullText()
    ensures Fragments(Element("s1", "root", "urn:ns-one",
        [Attribute("xmlns", "s1", "", "urn:ns-one")],
        [Text("")])) ==
      ["<s1:root", " xmlns:s1=\"urn:ns-one\"", ">", "", "</s1:root>"]
  {
    var xmlnsS1 := Attribute("xmlns", "s1", "", "urn:ns-one");
    XmlnsS1UrnNsOneAttribute();
    var nullText := Text("");
    S1RootTags();
    FragmentsAllOne(xmlnsS1);
    FragmentsAllOne(nullText);
  }

  /** `<root a1="one" a2="two">content</root>` */
  lemma {:induction false} RootWithAttributesAndText()
    ensures Fragments(Element("", "root", "",
        [Attribute("", "a1", "", "one"), Attribute("", "a2", "", "two")],
        [Text("content")])) ==
      ["<root", " a1=\"one\"", " a2=\"two\"", ">", "content", "</root>"]
  {
    var a1 := Attribute("", "a1", "", "one");
    A1OneAttribute();
    var a2 := Attribute("", "a2", "", "two");
    A2TwoAttribute();
    var contentText := Text("content");
    RootTags();
    FragmentsAllPair(a1, a2);
    FragmentsAllOne(contentText);
  }

  /** `<root>content</root>` */
  lemma {:induction false} RootWithText()
    ensures Fragments(Element("", "root", "", [], [Text("content")])) ==
      ["<root>", "content", "</root>"]
  {
    var contentText := Text("content");
    RootTags();
    FragmentsAllOne(contentText);
  }

  /** `<s1:child-one><grand-child-one>grand-content</grand-child-one>content<grand-child-two a1="one" s2:a2="two">grand-content</grand-child-two></s1:child-one>` */
  lemma {:induction false} PrefixedTreeChildOne()
    ensures Fragments(Element("s1", "child-one", "urn:ns-one",
        [],
        [Element("", "grand-child-one", "", [], [Text("grand-content")]),
         Text("content"),
         Element("", "grand-child-two", "",
           [Attribute("", "a1", "", "one"), Attribute("s2", "a2", "urn:ns-two", "two")],
           [Text("grand-content")])])) ==
      ["<s1:child-one>", "<grand-child-one>", "grand-content", "</grand-child-one>", "content",
      "<grand-child-two", " a1=\"one\"", " s2:a2=\"two\"", ">", "grand-content",
      "</grand-child-two>", "</s1:child-one>"]
  {
    var grandContentText := Text("grand-content");
    var grandChildOne := Element("", "grand-child-one", "", [], [grandContentText]);
    GrandChildOneTags();
    FragmentsAllOne(grandContentText);
    var contentText := Text("content");
    var a1 := Attribute("", "a1", "", "one");
    A1OneAttribute();
    var s2A2 := Attribute("s2", "a2", "urn:ns-two", "two");
    S2A2TwoAttribute();
    var grandChildTwo := Element("", "grand-child-two", "", [a1, s2A2], [grandContentText]);
    GrandChildTwoTags();
    FragmentsAllPair(a1, s2A2);
    FragmentsAllOne(grandContentText);
    S1ChildOneTags();
    FragmentsAllTriple(grandChildOne, contentText, grandChildTwo);
  }

  /** The tree of `PrefixedTree`, named so that the lemmas below can refer to its parts. */
  function PrefixedTreeNode(): Node {
    Element("s1", "root", "urn:ns-one",
      [Attribute("", "a1", "", "one"),
       Attribute("s2", "a2", "urn:ns-two", "two"),
       Attribute("xmlns", "s1", "", "urn:ns-one"),
       Attribute("xmlns", "s2", "", "urn:ns-two")],
      [Element("s1", "child-one", "urn:ns-one",
         [],
         [Element("", "grand-child-one", "", [], [Text("grand-content")]),
          Text("content"),
          Element("", "grand-child-two", "",
            [Attribute("", "a1", "", "one"), Attribute("s2", "a2", "urn:ns-two", "two")],
            [Text("grand-content")])]),
       Text("intermezzo"),
       Element("s2", "child-two", "urn:ns-two", [], [Text("content")])])
  }

  /** The attributes of `PrefixedTree`. */
  lemma {:induction false} PrefixedTreeAttributes()
    ensures FragmentsAll(PrefixedTreeNode().attributes) ==
      [" a1=\"one\"", " s2:a2=\"two\"", " xmlns:s1=\"urn:ns-one\"", " xmlns:s2=\"urn:ns-two\""]
  {
    var a1 := Attribute("", "a1", "", "one");
    A1OneAttribute();
    var s2A2 := Attribute("s2", "a2", "urn:ns-two", "two");
    S2A2TwoAttribute();
    var xmlnsS1 := Attribute("xmlns", "s1", "", "urn:ns-one");
    XmlnsS1UrnNsOneAttribute();
    var xmlnsS2 := Attribute("xmlns", "s2", "", "urn:ns-two");
    XmlnsS2UrnNsTwoAttribute();
    FragmentsAllQuad(a1, s2A2, xmlnsS1, xmlnsS2);
  }

  /** The child nodes of `PrefixedTree`. */
  lemma {:induction false} PrefixedTreeChildren()
    ensures FragmentsAll(PrefixedTreeNode().childNodes) ==
      ["<s1:child-one>", "<grand-child-one>", "grand-content", "</grand-child-one>", "content",
      "<grand-child-two", " a1=\"one\"", " s2:a2=\"two\"", ">", "grand-content",
      "</grand-child-two>", "</s1:child-one>", "intermezzo", "<s2:child-two>", "content",
      "</s2:child-two>"]
  {
    var s1ChildOne := Element("s1", "child-one", "urn:ns-one",
      [],
      [Element("", "grand-child-one", "", [], [Text("grand-content")]),
       Text("content"),
       Element("", "grand-child-two", "",
         [Attribute("", "a1", "", "one"), Attribute("s2", "a2", "urn:ns-two", "two")],
         [Text("grand-content")])]);
    PrefixedTreeChildOne();
    var intermezzoText := Text("intermezzo");
    var contentText := Text("content");
    var s2ChildTwo := Element("s2", "child-two", "urn:ns-two", [], [contentText]);
    S2ChildTwoTags();
    FragmentsAllOne(contentText);
    FragmentsAllTriple(s1ChildOne, intermezzoText, s2ChildTwo);
  }

  /** `<s1:root a1="one" s2:a2="two" xmlns:s1="urn:ns-one" xmlns:s2="urn:ns-two"><s1:child-one><grand-child-one>grand-content</grand-child-one>content<grand-child-two a1="one" s2:a2="two">grand-content</grand-child-two></s1:child-one>intermezzo<s2:child-two>content</s2:child-two></s1:root>` */
  lemma {:induction false} PrefixedTree()
    ensures Fragments(PrefixedTreeNode()) ==
      ["<s1:root"] +
      [" a1=\"one\"", " s2:a2=\"two\"", " xmlns:s1=\"urn:ns-one\"", " xmlns:s2=\"urn:ns-two\""] +
      ([">"] + ["<s1:child-one>", "<grand-child-one>", "grand-content", "</grand-child-one>", "content",
       "<grand-child-two", " a1=\"one\"", " s2:a2=\"two\"", ">", "grand-content",
       "</grand-child-two>", "</s1:child-one>", "intermezzo", "<s2:child-two>", "content",
       "</s2:child-two>"] +
      ["</s1:root>"])
  {
    S1RootTags();
    PrefixedTreeAttributes();
    PrefixedTreeChildren();
    ElementFragments(PrefixedTreeNode());
  }

  /** `<child-one><grand-child-one>grand-content</grand-child-one>content<grand-child-two a1="one" s2:a2="two">grand-content</grand-child-two></child-one>` */
  lemma {:induction false} DefaultNamespaceTreeChildOne()
    ensures Fragments(Element("", "child-one", "urn:ns-one",
        [],
        [Element("", "grand-child-one", "urn:ns-one", [], [Text("grand-content")]),
         Text("content"),
         Element("", "grand-child-two", "urn:ns-one",
           [Attribute("", "a1", "", "one"), Attribute("s2", "a2", "urn:ns-two", "two")],
           [Text("grand-content")])])) ==
      ["<child-one>", "<grand-child-one>", "grand-content", "</grand-child-one>", "content",
      "<grand-child-two", " a1=\"one\"", " s2:a2=\"two\"", ">", "grand-content",
      "</grand-child-two>", "</child-one>"]
  {
    var grandContentText := Text("grand-content");
    var grandChildOne := Element("", "grand-child-one", "urn:ns-one", [], [grandContentText]);
    GrandChildOneTags();
    FragmentsAllOne(grandContentText);
    var contentText := Text("content");
    var a1 := Attribute("", "a1", "", "one");
    A1OneAttribute();
    var s2A2 := Attribute("s2", "a2", "urn:ns-two", "two");
    S2A2TwoAttribute();
    var grandChildTwo := Element("", "grand-child-two", "urn:ns-one", [a1, s2A2], [grandContentText]);
    GrandChildTwoTags();
    FragmentsAllPair(a1, s2A2);
    FragmentsAllOne(grandContentText);
    ChildOneTags();
    FragmentsAllTriple(grandChildOne, contentText, grandChildTwo);
  }

  /** The tree of `DefaultNamespaceTree`, named so that the lemmas below can refer to its parts. */
  function DefaultNamespaceTreeNode(): Node {
    Element("", "root", "urn:ns-one",
      [Attribute("", "a1", "", "one"),
       Attribute("s2", "a2", "urn:ns-two", "two"),
       Attribute("", "xmlns", "", "urn:ns-one"),
       Attribute("xmlns", "s2", "", "urn:ns-two")],
      [Element("", "child-one", "urn:ns-one",
         [],
         [Element("", "grand-child-one", "urn:ns-one", [], [Text("grand-content")]),
          Text("content"),
          Element("", "grand-child-two", "urn:ns-one",
            [Attribute("", "a1", "", "one"), Attribute("s2", "a2", "urn:ns-two", "two")],
            [Text("grand-content")])]),
       Text("intermezzo"),
       Element("s2", "child-two", "urn:ns-two", [], [Text("content")])])
  }

  /** The attributes of `DefaultNamespaceTree`. */
  lemma {:induction false} DefaultNamespaceTreeAttributes()
    ensures FragmentsAll(DefaultNamespaceTreeNode().attributes) ==
      [" a1=\"one\"", " s2:a2=\"two\"", " xmlns=\"urn:ns-one\"", " xmlns:s2=\"urn:ns-two\""]
  {
    var a1 := Attribute("", "a1", "", "one");
    A1OneAttribute();
    var s2A2 := Attribute("s2", "a2", "urn:ns-two", "two");
    S2A2TwoAttribute();
    var xmlns := Attribute("", "xmlns", "", "urn:ns-one");
    XmlnsUrnNsOneAttribute();
    var xmlnsS2 := Attribute("xmlns", "s2", "", "urn:ns-two");
    XmlnsS2UrnNsTwoAttribute();
    FragmentsAllQuad(a1, s2A2, xmlns, xmlnsS2);
  }

  /** The child nodes of `DefaultNamespaceTree`. */
  lemma {:induction false} DefaultNamespaceTreeChildren()
    ensures FragmentsAll(DefaultNamespaceTreeNode().childNodes) ==
      ["<child-one>", "<grand-child-one>", "grand-content", "</grand-child-one>", "content",
      "<grand-child-two", " a1=\"one\"", " s2:a2=\"two\"", ">", "grand-content",
      "</grand-child-two>", "</child-one>", "intermezzo", "<s2:child-two>", "content",
      "</s2:child-two>"]
  {
    var childOne := Element("", "child-one", "urn:ns-one",
      [],
      [Element("", "grand-child-one", "urn:ns-one", [], [Text("grand-content")]),
       Text("content"),
       Element("", "grand-child-two", "urn:ns-one",
         [Attribute("", "a1", "", "one"), Attribute("s2", "a2", "urn:ns-two", "two")],
         [Text("grand-content")])]);
    DefaultNamespaceTreeChildOne();
    var intermezzoText := Text("intermezzo");
    var contentText := Text("content");
    var s2ChildTwo := Element("s2", "child-two", "urn:ns-two", [], [contentText]);
    S2ChildTwoTags();
    FragmentsAllOne(contentText);
    FragmentsAllTriple(childOne, intermezzoText, s2ChildTwo);
  }

  /** `<root a1="one" s2:a2="two" xmlns="urn:ns-one" xmlns:s2="urn:ns-two"><child-one><grand-child-one>grand-content</grand-child-one>content<grand-child-two a1="one" s2:a2="two">grand-content</grand-child-two></child-one>intermezzo<s2:child-two>content</s2:child-two></root>` */
  lemma {:induction false} DefaultNamespaceTree()
    ensures Fragments(DefaultNamespaceTreeNode()) ==
      ["<root"] +
      [" a1=\"one\"", " s2:a2=\"two\"", " xmlns=\"urn:ns-one\"", " xmlns:s2=\"urn:ns-two\""] +
      ([">"] + ["<child-one>", "<grand-child-one>", "grand-content", "</grand-child-one>", "content",
       "<grand-child-two", " a1=\"one\"", " s2:a2=\"two\"", ">", "grand-content",
       "</grand-child-two>", "</child-one>", "intermezzo", "<s2:child-two>", "content",
       "</s2:child-two>"] +
      ["</root>"])
  {
    RootTags();
    DefaultNamespaceTreeAttributes();
    DefaultNamespaceTreeChildren();
    ElementFragments(DefaultNamespaceTreeNode());
  }

  /** `<root a="x<y">a & b</root>` */
  lemma {:induction false} ValuesAreNotEscaped()
    ensures Fragments(Element("", "root", "", [Attribute("", "a", "", "x<y")], [Text("a & b")])) ==
      ["<root", " a=\"x<y\"", ">", "a & b", "</root>"]
  {
    var a := Attribute("", "a", "", "x<y");
    MarkupInValueAttribute();
    var markupText := Text("a & b");
    RootTags();
    FragmentsAllOne(a);
    FragmentsAllOne(markupText);
  }
}
