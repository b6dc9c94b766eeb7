/** The text a tag tree serialises to. A tree is taken here as a value,
    `Element`, and `Render` is the serialisation of `TAT_Tag.format_string`:
    a childless tag is one self-closing line; a tag with children is an open
    line, each child one level deeper, and a close line, joined by newlines.
    `Lines` is the same output seen as the list of lines it consists of. */
module Markup {
  import opened Attributes

  datatype Element = Element(name: string, attributes: seq<Attribute>, children: seq<Element>)

  /** `" " * n`: n spaces, and the empty string when n is not positive. */
  function Spaces(n: int): (s: string)
    ensures |s| == (if n <= 0 then 0 else n)
    ensures forall k :: 0 <= k < |s| ==> s[k] == ' '
  {
    if n <= 0 then "" else Spaces(n - 1) + " "
  }

  /** `t` is a suffix of `s`. */
  predicate EndsWith(s: string, t: string) {
    |t| <= |s| && s[|s| - |t|..] == t
  }

  /** Total length of the parts. */
  function TotalLength(parts: seq<string>): nat {
    if parts == [] then 0 else |parts[0]| + TotalLength(parts[1..])
  }

  /** `sep.join(parts)`. */
  function Join(sep: string, parts: seq<string>): string
  {
    if |parts| == 0 then ""
    else if |parts| == 1 then parts[0]
    else parts[0] + sep + Join(sep, parts[1..])
  }

  /** `sep.join(parts)` begins with the first part and ends with the last. */
  lemma {:induction false} JoinEnds(sep: string, parts: seq<string>)
    requires parts != []
    ensures parts[0] <= Join(sep, parts)
    ensures EndsWith(Join(sep, parts), parts[|parts| - 1])
  {
    if |parts| > 1 {
      var rest := Join(sep, parts[1..]);
      JoinEnds(sep, parts[1..]);
      assert Join(sep, parts) == parts[0] + (sep + rest);
      assert parts[1..][|parts| - 2] == parts[|parts| - 1];
    }
  }

  /** `sep.join(parts)` is as long as the parts plus one `sep` per gap
      between neighbours. */
  lemma {:induction false} JoinLength(sep: string, parts: seq<string>)
    requires parts != []
    ensures |Join(sep, parts)| == TotalLength(parts) + (|parts| - 1) * |sep|
  {
    if |parts| > 1 {
      JoinLength(sep, parts[1..]);
      var n := |parts| - 2;
      assert n * |sep| + |sep| == (n + 1) * |sep|;
    }
  }

  /** One attribute as `name="value"`. */
  function AttrText(a: Attribute): string {
    a.0 + "=\"" + a.1 + "\""
  }

  /** The attribute part of an opening tag: empty without attributes, else a
      space and the `name="value"` pairs joined by single spaces. */
  function FormatAttributes(attrs: seq<Attribute>): (r: string)
    ensures r == "" <==> attrs == []
    ensures attrs != [] ==> r[0] == ' '
  {
    if |attrs| == 0 then ""
    else " " + Join(" ", seq(|attrs|, k requires 0 <= k < |attrs| => AttrText(attrs[k])))
  }

  /** Reference reading of the attribute text: each attribute, in order,
      contributes one space followed by its `name="value"`. */
  function EachAttrSpaced(attrs: seq<Attribute>): string {
    if attrs == [] then "" else " " + AttrText(attrs[0]) + EachAttrSpaced(attrs[1..])
  }

  function SelfClosingLine(e: Element, level: int, indent: int): string {
    Spaces(level * indent) + "<" + e.name + FormatAttributes(e.attributes) + " />"
  }

  function OpenLine(e: Element, level: int, indent: int): string {
    Spaces(level * indent) + "<" + e.name + FormatAttributes(e.attributes) + ">"
  }

  function CloseLine(e: Element, level: int, indent: int): string {
    Spaces(level * indent) + "</" + e.name + ">"
  }

  /** `format_string(level, indent_size)` of the tag `e`: it begins with
      its indent, `<` and the name, and ends with ` />` when `e` has no
      children and with the close tag `</name>` when it has. */
  function Render(e: Element, level: int, indent: int): (r: string)
    ensures Spaces(level * indent) + "<" + e.name <= r
    ensures if e.children == [] then EndsWith(r, " />") else EndsWith(r, "</" + e.name + ">")
    decreases e
  {
    var head := Spaces(level * indent) + "<" + e.name;
    if |e.children| == 0 then
      assert SelfClosingLine(e, level, indent) == head + (FormatAttributes(e.attributes) + " />");
      SelfClosingLine(e, level, indent)
    else
      var parts := [OpenLine(e, level, indent)] + RenderAll(e.children, level + 1, indent) + [CloseLine(e, level, indent)];
      assert OpenLine(e, level, indent) == head + (FormatAttributes(e.attributes) + ">");
      assert CloseLine(e, level, indent) == Spaces(level * indent) + ("</" + e.name + ">");
      assert parts[0] == OpenLine(e, level, indent) && parts[|parts| - 1] == CloseLine(e, level, indent);
      JoinEnds("\n", parts);
      Join("\n", parts)
  }

  /** The children rendered at one level, in list order. */
  function RenderAll(cs: seq<Element>, level: int, indent: int): (r: seq<string>)
    ensures |r| == |cs|
    ensures forall k :: 0 <= k < |cs| ==> r[k] == Render(cs[k], level, indent)
    decreases cs
  {
    if cs == [] then [] else [Render(cs[0], level, indent)] + RenderAll(cs[1..], level, indent)
  }

  /** The lines of the output of `Render`. */
  function Lines(e: Element, level: int, indent: int): (ls: seq<string>)
    ensures |ls| >= 1
    decreases e
  {
    if |e.children| == 0 then [SelfClosingLine(e, level, indent)]
    else [OpenLine(e, level, indent)] + LinesAll(e.children, level + 1, indent) + [CloseLine(e, level, indent)]
  }

  function LinesAll(cs: seq<Element>, level: int, indent: int): (ls: seq<string>)
    ensures cs != [] <==> ls != []
    decreases cs
  {
    if cs == [] then [] else Lines(cs[0], level, indent) + LinesAll(cs[1..], level, indent)
  }

  /** Every line prefixed by n more spaces. */
  function Indented(ls: seq<string>, n: int): (r: seq<string>)
    ensures |r| == |ls|
  {
    seq(|ls|, k requires 0 <= k < |ls| => Spaces(n) + ls[k])
  }

  /** Number of tags in a tree, and number of those that have children. */
  function TagCount(e: Element): nat
    decreases e
  {
    1 + TagCountAll(e.children)
  }

  function TagCountAll(cs: seq<Element>): nat
    decreases cs
  {
    if cs == [] then 0 else TagCount(cs[0]) + TagCountAll(cs[1..])
  }

  function ParentCount(e: Element): nat
    decreases e
  {
    (if |e.children| == 0 then 0 else 1) + ParentCountAll(e.children)
  }

  function ParentCountAll(cs: seq<Element>): nat
    decreases cs
  {
    if cs == [] then 0 else ParentCount(cs[0]) + ParentCountAll(cs[1..])
  }

  // ---------------------------------------------------------------------
  // Indentation

  /** Runs of spaces add up. */
  lemma SpacesAdd(a: int, b: int)
    requires a >= 0 && b >= 0
    ensures Spaces(a + b) == Spaces(a) + Spaces(b)
  {
    var s, t := Spaces(a + b), Spaces(a) + Spaces(b);
    assert |s| == |t|;
    forall k | 0 <= k < |s| ensures s[k] == t[k] {
      if k < a { assert t[k] == Spaces(a)[k]; } else { assert t[k] == Spaces(b)[k - a]; }
    }
  }

  /** The indent of level `level` is exactly `level * indent` spaces. */
  lemma SpacesOfLevel(level: int, indent: int)
    requires level >= 0 && indent >= 0
    ensures |Spaces(level * indent)| == level * indent
    ensures forall k :: 0 <= k < level * indent ==> Spaces(level * indent)[k] == ' '
  {
    assert level * indent >= 0;
  }

  // ---------------------------------------------------------------------
  // Joining

  lemma {:induction false} JoinAppend(sep: string, a: seq<string>, b: seq<string>)
    requires a != [] && b != []
    ensures Join(sep, a + b) == Join(sep, a) + sep + Join(sep, b)
  {
    if |a| == 1 {
      assert (a + b)[1..] == b;
    } else {
      assert (a + b)[1..] == a[1..] + b;
      JoinAppend(sep, a[1..], b);
    }
  }

  // ---------------------------------------------------------------------
  // Attributes

  /** The attribute text is one space before each `name="value"`, in
      insertion order. */
  lemma {:induction false} FormatAttributesSpaced(attrs: seq<Attribute>)
    ensures FormatAttributes(attrs) == EachAttrSpaced(attrs)
  {
    if |attrs| == 1 {
      assert seq(1, k requires 0 <= k < 1 => AttrText(attrs[k])) == [AttrText(attrs[0])];
    } else if |attrs| > 1 {
      var rest := attrs[1..];
      var texts := seq(|attrs|, k requires 0 <= k < |attrs| => AttrText(attrs[k]));
      var restTexts := seq(|rest|, k requires 0 <= k < |rest| => AttrText(rest[k]));
      assert texts[1..] == restTexts;
      FormatAttributesSpaced(rest);
    }
  }

  lemma {:induction false} EachAttrSpacedAppend(attrs: seq<Attribute>, a: Attribute)
    ensures EachAttrSpaced(attrs + [a]) == EachAttrSpaced(attrs) + " " + AttrText(a)
  {
    if attrs != [] {
      assert (attrs + [a])[1..] == attrs[1..] + [a];
      EachAttrSpacedAppend(attrs[1..], a);
    }
  }

  /** A name new to the dictionary adds ` name="value"` at the end of the
      attribute text. */
  lemma AssignNewFormat(attrs: seq<Attribute>, key: string, value: string)
    requires !HasKey(attrs, key)
    ensures FormatAttributes(Assign(attrs, key, value)) == FormatAttributes(attrs) + " " + key + "=\"" + value + "\""
  {
    AssignNew(attrs, key, value);
    FormatAttributesSpaced(attrs + [(key, value)]);
    FormatAttributesSpaced(attrs);
    EachAttrSpacedAppend(attrs, (key, value));
  }

  // ---------------------------------------------------------------------
  // Shape of the output

  /** A childless tag is exactly one self-closing line. */
  lemma RenderLeaf(e: Element, level: int, indent: int)
    requires e.children == []
    ensures Render(e, level, indent) == Spaces(level * indent) + "<" + e.name + FormatAttributes(e.attributes) + " />"
    ensures Lines(e, level, indent) == [Render(e, level, indent)]
  {
  }

  /** `TAT_Tag("some_name")` prints as `<some_name />` at the root. */
  lemma RenderBareRoot(name: string, indent: int)
    ensures Render(Element(name, [], []), 0, indent) == "<" + name + " />"
  {
    assert Spaces(0) == "";
  }

  /** A childless root tag prints `<name`, then ` name="value"` for each
      attribute in insertion order, then ` />`. */
  lemma RenderRootLeaf(e: Element, indent: int)
    requires e.children == []
    ensures Render(e, 0, indent) == "<" + e.name + EachAttrSpaced(e.attributes) + " />"
  {
    FormatAttributesSpaced(e.attributes);
    assert Spaces(0 * indent) == "";
  }

  /** A tag with children: the open line, the children's renderings one
      level deeper in list order, the close line, separated by newlines. */
  lemma RenderParent(e: Element, level: int, indent: int)
    requires e.children != []
    ensures Render(e, level, indent)
         == OpenLine(e, level, indent) + "\n"
          + Join("\n", RenderAll(e.children, level + 1, indent)) + "\n"
          + CloseLine(e, level, indent)
  {
    var o, kids, c := [OpenLine(e, level, indent)], RenderAll(e.children, level + 1, indent), [CloseLine(e, level, indent)];
    JoinAppend("\n", o, kids + c);
    JoinAppend("\n", kids, c);
    assert o + kids + c == o + (kids + c);
  }

  /** `str(tag)`: rendered from level 0, the first line starts in column 0. */
  lemma StrStartsAtColumnZero(e: Element)
    ensures "<" + e.name <= Render(e, 0, 1)
  {
    assert Spaces(0 * 1) == "";
  }

  /** The output is the lines of `Lines`, joined by newlines. */
  lemma {:induction false} RenderIsJoinedLines(e: Element, level: int, indent: int)
    ensures Render(e, level, indent) == Join("\n", Lines(e, level, indent))
    decreases e, 1
  {
    if e.children != [] {
      var o, c := [OpenLine(e, level, indent)], [CloseLine(e, level, indent)];
      var kids, kidLines := RenderAll(e.children, level + 1, indent), LinesAll(e.children, level + 1, indent);
      RenderAllIsJoinedLines(e.children, level + 1, indent);
      JoinAppend("\n", o, kids + c);
      JoinAppend("\n", kids, c);
      JoinAppend("\n", o, kidLines + c);
      JoinAppend("\n", kidLines, c);
      assert o + kids + c == o + (kids + c);
      assert o + kidLines + c == o + (kidLines + c);
    }
  }

  lemma {:induction false} RenderAllIsJoinedLines(cs: seq<Element>, level: int, indent: int)
    requires cs != []
    ensures Join("\n", RenderAll(cs, level, indent)) == Join("\n", LinesAll(cs, level, indent))
    decreases cs, 0
  {
    RenderIsJoinedLines(cs[0], level, indent);
    var rest := cs[1..];
    if rest == [] {
      assert LinesAll(cs, level, indent) == Lines(cs[0], level, indent);
    } else {
      RenderAllIsJoinedLines(rest, level, indent);
      assert RenderAll(cs, level, indent) == [Render(cs[0], level, indent)] + RenderAll(rest, level, indent);
      JoinAppend("\n", Lines(cs[0], level, indent), LinesAll(rest, level, indent));
    }
  }

  /** No tag name, attribute name or attribute value in the tree contains a
      newline. `TAT_Tag` does not check this; when it holds, each entry of
      `Lines` is one line of the output. */
  predicate PlainTree(e: Element)
    decreases e
  {
    && '\n' !in e.name
    && (forall a :: a in e.attributes ==> '\n' !in a.0 && '\n' !in a.1)
    && forall c :: c in e.children ==> PlainTree(c)
  }

  lemma SpacesNoNewline(n: int)
    ensures '\n' !in Spaces(n)
  {
  }

  lemma {:induction false} AttrsNoNewline(attrs: seq<Attribute>)
    requires forall a :: a in attrs ==> '\n' !in a.0 && '\n' !in a.1
    ensures '\n' !in EachAttrSpaced(attrs)
  {
    if attrs != [] {
      assert attrs[0] in attrs;
      AttrsNoNewline(attrs[1..]);
    }
  }

  /** For a tree without newlines in its names and values no entry of
      `Lines` contains a newline, so with `RenderIsJoinedLines` the entries
      are exactly the output split at `"\n"`. */
  lemma {:induction false} LinesHaveNoNewline(e: Element, level: int, indent: int)
    requires PlainTree(e)
    ensures forall l :: l in Lines(e, level, indent) ==> '\n' !in l
    decreases e, 1
  {
    SpacesNoNewline(level * indent);
    FormatAttributesSpaced(e.attributes);
    AttrsNoNewline(e.attributes);
    if e.children != [] {
      LinesAllHaveNoNewline(e.children, level + 1, indent);
    }
  }

  lemma {:induction false} LinesAllHaveNoNewline(cs: seq<Element>, level: int, indent: int)
    requires forall c :: c in cs ==> PlainTree(c)
    ensures forall l :: l in LinesAll(cs, level, indent) ==> '\n' !in l
    decreases cs, 0
  {
    if cs != [] {
      assert cs[0] in cs;
      LinesHaveNoNewline(cs[0], level, indent);
      LinesAllHaveNoNewline(cs[1..], level, indent);
    }
  }

  /** A self-closing tag takes one line, a tag with children two: the line
      count is the tag count plus the count of tags that have children. */
  lemma {:induction false} LineCount(e: Element, level: int, indent: int)
    ensures |Lines(e, level, indent)| == TagCount(e) + ParentCount(e)
    decreases e, 1
  {
    if e.children != [] {
      LineCountAll(e.children, level + 1, indent);
    }
  }

  lemma {:induction false} LineCountAll(cs: seq<Element>, level: int, indent: int)
    ensures |LinesAll(cs, level, indent)| == TagCountAll(cs) + ParentCountAll(cs)
    decreases cs, 0
  {
    if cs != [] {
      LineCount(cs[0], level, indent);
      LineCountAll(cs[1..], level, indent);
    }
  }

  /** The indent of `level + d` is the indent of `d` levels followed by
      that of `level`. */
  lemma IndentShift(level: int, d: int, indent: int)
    requires level >= 0 && d >= 0 && indent >= 0
    ensures Spaces((level + d) * indent) == Spaces(d * indent) + Spaces(level * indent)
  {
    assert (level + d) * indent == d * indent + level * indent;
    assert level * indent >= 0 && d * indent >= 0;
    SpacesAdd(d * indent, level * indent);
  }

  /** The three kinds of line each gain `d * indent` leading spaces. */
  lemma TagLinesShift(e: Element, level: int, d: int, indent: int)
    requires level >= 0 && d >= 0 && indent >= 0
    ensures SelfClosingLine(e, level + d, indent) == Spaces(d * indent) + SelfClosingLine(e, level, indent)
    ensures OpenLine(e, level + d, indent) == Spaces(d * indent) + OpenLine(e, level, indent)
    ensures CloseLine(e, level + d, indent) == Spaces(d * indent) + CloseLine(e, level, indent)
  {
    IndentShift(level, d, indent);
  }

  /** Nesting composes: rendering `d` levels deeper indents every line of
      the output by `d * indent` more spaces and changes nothing else. */
  lemma {:induction false} LinesShift(e: Element, level: int, d: int, indent: int)
    requires level >= 0 && d >= 0 && indent >= 0
    ensures Lines(e, level + d, indent) == Indented(Lines(e, level, indent), d * indent)
    decreases e, 1
  {
    TagLinesShift(e, level, d, indent);
    if e.children != [] {
      LinesAllShift(e.children, level + 1, d, indent);
      assert level + 1 + d == level + d + 1;
      var o, kids, c := [OpenLine(e, level, indent)], LinesAll(e.children, level + 1, indent), [CloseLine(e, level, indent)];
      IndentedAppend(o, kids, d * indent);
      IndentedAppend(o + kids, c, d * indent);
    }
  }

  lemma {:induction false} LinesAllShift(cs: seq<Element>, level: int, d: int, indent: int)
    requires level >= 0 && d >= 0 && indent >= 0
    ensures LinesAll(cs, level + d, indent) == Indented(LinesAll(cs, level, indent), d * indent)
    decreases cs, 0
  {
    if cs != [] {
      LinesShift(cs[0], level, d, indent);
      LinesAllShift(cs[1..], level, d, indent);
      IndentedAppend(Lines(cs[0], level, indent), LinesAll(cs[1..], level, indent), d * indent);
    }
  }

  lemma IndentedAppend(a: seq<string>, b: seq<string>, n: int)
    ensures Indented(a + b, n) == Indented(a, n) + Indented(b, n)
  {
    assert forall k :: 0 <= k < |a| ==> (a + b)[k] == a[k];
    assert forall k :: |a| <= k < |a| + |b| ==> (a + b)[k] == b[k - |a|];
  }

  /** Each line of a tag rendered at `level` starts with that level's indent
      (its own lines exactly so, its descendants' lines deeper). */
  lemma LinesIndented(e: Element, level: int, indent: int)
    requires level >= 0 && indent >= 0
    ensures forall k :: 0 <= k < |Lines(e, level, indent)| ==>
              Spaces(level * indent) <= Lines(e, level, indent)[k]
  {
    LinesShift(e, 0, level, indent);
    assert 0 + level == level;
    forall k | 0 <= k < |Lines(e, level, indent)|
      ensures Spaces(level * indent) <= Lines(e, level, indent)[k]
    {
      assert Lines(e, level, indent)[k] == Spaces(level * indent) + Lines(e, 0, indent)[k];
    }
  }

  // ---------------------------------------------------------------------
  // Adding a child

  lemma {:induction false} LinesAllAppend(cs: seq<Element>, c: Element, level: int, indent: int)
    ensures LinesAll(cs + [c], level, indent) == LinesAll(cs, level, indent) + Lines(c, level, indent)
  {
    if cs == [] {
      assert [c][1..] == [];
    } else {
      assert (cs + [c])[1..] == cs[1..] + [c];
      LinesAllAppend(cs[1..], c, level, indent);
    }
  }

  /** `add_tag(c)` puts the lines of `c`, one level deeper, just before the
      close line, after all lines of the earlier children. */
  lemma AddChildLines(e: Element, c: Element, level: int, indent: int)
    ensures Lines(e.(children := e.children + [c]), level, indent)
         == [OpenLine(e, level, indent)] + LinesAll(e.children, level + 1, indent)
          + Lines(c, level + 1, indent) + [CloseLine(e, level, indent)]
  {
    LinesAllAppend(e.children, c, level + 1, indent);
  }
}
