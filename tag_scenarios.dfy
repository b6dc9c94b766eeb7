
/** The nesting layout the repository's tests describe: a root holding a
    leaf and a nested tag that holds a leaf, at indent size 1. */
module TagScenarios {
  import opened Attributes
  import opened Markup
  import opened Tags

  lemma LeafLine(name: string, level: int)
    requires 0 <= level
    ensures Lines(Element(name, [], []), level, 1) == [Spaces(level) + "<" + name + " />"]
  {
    var e := Element(name, [], []);
    assert level * 1 == level;
    assert FormatAttributes(e.attributes) == "";
    assert SelfClosingLine(e, level, 1) == Spaces(level) + "<" + name + " />";
  }

  lemma NestedLines()
    ensures Lines(Element("nested", [], [Element("inner", [], [])]), 1, 1) == [" <nested>", "  <inner />", " </nested>"]
  {
    var nested := Element("nested", [], [Element("inner", [], [])]);
    assert Spaces(1) == " " && Spaces(2) == "  ";
    LeafLine("inner", 2);
    assert nested.children[0] == Element("inner", [], []);
    assert Spaces(2) + "<" + "inner" + " />" == "  <inner />";
    assert LinesAll(nested.children[1..], 2, 1) == [];
    assert LinesAll(nested.children, 2, 1) == ["  <inner />"];
    assert FormatAttributes(nested.attributes) == "";
    assert OpenLine(nested, 1, 1) == " <nested>";
    assert CloseLine(nested, 1, 1) == " </nested>";
  }

  lemma RootLines()
    ensures Lines(Element("root", [], [Element("inner", [], []), Element("nested", [], [Element("inner", [], [])])]), 0, 1)
         == ["<root>", " <inner />", " <nested>", "  <inner />", " </nested>", "</root>"]
  {
    var nested := Element("nested", [], [Element("inner", [], [])]);
    var root := Element("root", [], [Element("inner", [], []), nested]);
    assert Spaces(0) == "" && Spaces(1) == " ";
    LeafLine("inner", 1);
    NestedLines();
    assert root.children[0] == Element("inner", [], []) && root.children[1] == nested;
    assert Spaces(1) + "<" + "inner" + " />" == " <inner />";
    assert root.children[1..][1..] == [];
    assert LinesAll(root.children[1..], 1, 1) == [" <nested>", "  <inner />", " </nested>"];
    assert LinesAll(root.children, 1, 1) == [" <inner />", " <nested>", "  <inner />", " </nested>"];
    assert FormatAttributes(root.attributes) == "";
    assert OpenLine(root, 0, 1) == "<root>";
    assert CloseLine(root, 0, 1) == "</root>";
  }

  /** The tree a root with one leaf becomes once a tag holding one leaf is
      appended to it, and its text: six lines joined by newlines. */
  lemma AppendedText(first: Element, second: Element)
    requires first == Element("root", [], [Element("inner", [], [])])
    requires second == Element("nested", [], [Element("inner", [], [])])
    ensures Render(first.(children := first.children + [second]), 0, 1)
         == Join("\n", ["<root>", " <inner />", " <nested>", "  <inner />", " </nested>", "</root>"])
  {
    var e := first.(children := first.children + [second]);
    assert e == Element("root", [], [Element("inner", [], []), Element("nested", [], [Element("inner", [], [])])]);
    RootLines();
    RenderIsJoinedLines(e, 0, 1);
  }

  /** A fresh tag named `name` holding one fresh childless tag `childName`. */
  method TagWithLeaf(name: string, childName: string) returns (t: Tag)
    ensures t.Valid() && fresh(t.Repr)
    ensures t.View() == Element(name, [], [Element(childName, [], [])])
  {
    t := new Tag(name);
    var leaf := new Tag(childName);
    t.AddTag(leaf);
  }

  /** Built through `Tag` objects, the tree prints the same text. */
  method NestedLayout() returns (s: string)
    ensures s == Join("\n", ["<root>", " <inner />", " <nested>", "  <inner />", " </nested>", "</root>"])
  {
    var root := TagWithLeaf("root", "inner");
    var nested := TagWithLeaf("nested", "inner");
    ghost var first, second := root.View(), nested.View();
    assert root !in nested.Repr;
    root.AddTag(nested);
    ghost var tree := root.View();
    assert tree == first.(children := first.children + [second]);
    s := root.ToString();
    AppendedText(first, second);
  }

  /** Two new attributes print in the order they were added. */
  lemma TwoAttributesText(e: Element)
    requires e == Element("element", [("attr1", "val1"), ("attr2", "val2")], [])
    ensures Render(e, 0, 1) == "<element" + " attr1=\"val1\"" + " attr2=\"val2\"" + " />"
  {
    var a1, a2 := e.attributes[0], e.attributes[1];
    assert e.attributes == [a1] + [a2];
    RenderRootLeaf(e, 1);
    TwoSpaced(a1, a2);
    PairsText(a1, a2);
  }

  lemma TwoSpaced(a1: Attribute, a2: Attribute)
    ensures EachAttrSpaced([a1] + [a2]) == " " + AttrText(a1) + " " + AttrText(a2)
  {
    EachAttrSpacedAppend([a1], a2);
    assert [a1][1..] == [];
  }

  lemma PairsText(a1: Attribute, a2: Attribute)
    requires a1 == ("attr1", "val1") && a2 == ("attr2", "val2")
    ensures "<" + "element" + (" " + AttrText(a1) + " " + AttrText(a2)) + " />" == "<element" + " attr1=\"val1\"" + " attr2=\"val2\"" + " />"
  {
    assert AttrText(a1) == "attr1=\"val1\"" && AttrText(a2) == "attr2=\"val2\"";
  }

  /** `add_attr` twice with new names, then `str()`. */
  method TwoAttributes() returns (s: string)
    ensures s == "<element" + " attr1=\"val1\"" + " attr2=\"val2\"" + " />"
  {
    var t := new Tag("element");
    t.AddAttr("attr1", "val1");
    ghost var once := t.attributes;
    assert once == [("attr1", "val1")];
    t.AddAttr("attr2", "val2");
    assert !HasKey(once, "attr2");
    AssignNew(once, "attr2", "val2");
    assert t.View() == Element("element", [("attr1", "val1"), ("attr2", "val2")], []);
    s := t.ToString();
    TwoAttributesText(t.View());
  }
}
