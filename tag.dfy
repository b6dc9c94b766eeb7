/** `TAT_Tag`: a markup tag whose children are other tag objects. `add_tag`
    and `add_attr` change the tag in place; `format_string` walks the object
    tree. `View` reads the object tree as an `Element` value, and
    `FormatString` is proved to produce `Render(View(), ...)`. */
module Tags {
  import opened Attributes
  import opened Markup

  class Tag {
    var name: string
    var children: seq<Tag>
    var attributes: seq<Attribute>
    /** The tag and every tag reachable from it. */
    ghost var Repr: set<object>

    /** The children are well-formed tags below this one (so the tree has no
        cycle) and the attribute names are unique, as in a dict. */
    ghost predicate Valid()
      reads this, Repr
      decreases Repr
    {
      && this in Repr
      && UniqueKeys(attributes)
      && forall i :: 0 <= i < |children| ==>
           && children[i] in Repr
           && children[i].Repr <= Repr
           && this !in children[i].Repr
           && children[i].Valid()
    }

    /** The tree rooted here, as a value. */
    ghost function View(): (e: Element)
      reads this, Repr
      requires Valid()
      ensures e.name == name && e.attributes == attributes && |e.children| == |children|
      decreases Repr, 1, 0
    {
      Element(name, attributes, ChildViews(|children|))
    }

    ghost function ChildViews(k: nat): (vs: seq<Element>)
      reads this, Repr
      requires Valid() && k <= |children|
      ensures |vs| == k
      ensures forall j :: 0 <= j < k ==> vs[j] == children[j].View()
      decreases Repr, 0, k
    {
      if k == 0 then [] else ChildViews(k - 1) + [children[k - 1].View()]
    }

    constructor (name: string)
      ensures Valid() && Repr == {this}
      ensures this.name == name && children == [] && attributes == []
      ensures View() == Element(name, [], [])
    {
      this.name := name;
      children := [];
      attributes := [];
      Repr := {this};
    }

    /** `format_string(level, indent_size)`. */
    function FormatString(level: int, indentSize: int): (s: string)
      reads this, Repr
      requires Valid()
      ensures s == Render(View(), level, indentSize)
      decreases Repr, 1, 0
    {
      var space := Spaces(level * indentSize);
      var formattedAttributes := FormatAttributes(attributes);
      if |children| == 0 then
        space + "<" + name + formattedAttributes + " />"
      else
        var formattedChildren := FormatChildren(|children|, level + 1, indentSize);
        assert formattedChildren == RenderAll(View().children, level + 1, indentSize);
        Join("\n", [space + "<" + name + formattedAttributes + ">"] + formattedChildren + [space + "</" + name + ">"])
    }

    /** The first `k` children formatted at `level`. */
    function FormatChildren(k: nat, level: int, indentSize: int): (lines: seq<string>)
      reads this, Repr
      requires Valid() && k <= |children|
      ensures |lines| == k
      ensures forall j :: 0 <= j < k ==> lines[j] == Render(children[j].View(), level, indentSize)
      decreases Repr, 0, k
    {
      if k == 0 then [] else FormatChildren(k - 1, level, indentSize) + [children[k - 1].FormatString(level, indentSize)]
    }

    /** `str(tag)`: `format_string(0)` with the default indent size 1. */
    function ToString(): (s: string)
      reads this, Repr
      requires Valid()
      ensures s == Render(View(), 0, 1)
    {
      FormatString(0, 1)
    }

    /** `add_tag(tag)`: appends `tag` after the existing children. */
    method AddTag(tag: Tag)
      requires Valid() && tag.Valid()
      requires this !in tag.Repr
      modifies this
      ensures Valid()
      ensures name == old(name) && attributes == old(attributes)
      ensures children == old(children) + [tag]
      ensures Repr == old(Repr) + tag.Repr
      ensures View() == old(View()).(children := old(View()).children + [tag.View()])
    {
      ghost var before := View();
      children := children + [tag];
      Repr := Repr + tag.Repr;
      assert Valid();
      forall j | 0 <= j < |before.children| ensures View().children[j] == before.children[j] {
        assert children[j] == old(children[j]);
      }
      assert View().children == before.children + [tag.View()];
    }

    /** `add_attr(name, value)`: dict assignment on the attributes. */
    method AddAttr(key: string, value: string)
      requires Valid()
      modifies this
      ensures Valid()
      ensures name == old(name) && children == old(children) && Repr == old(Repr)
      ensures attributes == Assign(old(attributes), key, value)
      ensures View() == old(View()).(attributes := Assign(old(attributes), key, value))
    {
      ghost var before := View();
      AssignKeepsUnique(attributes, key, value);
      attributes := Assign(attributes, key, value);
      assert Valid();
      forall j | 0 <= j < |before.children| ensures View().children[j] == before.children[j] {
        assert children[j] == old(children[j]);
      }
      assert View().children == before.children;
    }
  }
}
