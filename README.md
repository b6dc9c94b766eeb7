# Viewport-to-SVG exporter: markup tag tree and colour helpers

This project models two self-contained parts of a Blender add-on that exports the 3D viewport as SVG markup:

- **The tag tree `TAT_Tag`** (`export_svg_280.py`). A tag has a name, an ordered list of child tags and an insertion-ordered attribute dictionary. `add_tag` and `add_attr` change a tag in place. `format_string(level, indent_size)` serialises the tree:
  - the indent is `level * indent_size` spaces;
  - attributes become ` name="value"` pairs;
  - a childless tag is a self-closing `<name … />` line;
  - a tag with children is an open line, each child one level deeper, and a close line, joined by newlines.

  `str(tag)` is `format_string(0)`.
- **Colour-index helpers** (`color_ops.py`).
  - `generate_color_hue(idx, bits)` reverses the low `bits` bits of `idx` in a loop and gives the hue `reverse / 2^bits`.
  - `color_to_hstring` writes a colour as `#rrggbb`.

Modules:

- `Attributes` (attributes.dfy): the attribute dictionary as a sequence of `(name, value)` pairs. `Assign` is `d[name] = value`: an existing name keeps its place and gets the new value, and a new name goes at the end. `Lookup` is `d[name]`.
- `Markup` (markup.dfy): the tree as a value, `Element`. Besides it:
  - `Render` is the serialisation;
  - `Lines` is the output as the list of parts that `Render` joins with `"\n"`. When no name or value contains a newline (`PlainTree`), these parts are exactly the output's lines;
  - the lemmas state the layout: indent, attribute text, open/close structure, line count, how nesting shifts the indent, and what appending a child does.
- `Tags` (tag.dfy): `class Tag`, with the source's three fields.
  - Children are `Tag` objects, as in Python, and a ghost `Repr` footprint keeps the tree acyclic.
  - `View()` reads the object tree as an `Element`.
  - `FormatString` walks the objects recursively, as `format_string` does, and is proved equal to `Render(View(), …)`.
  - `AddTag` and `AddAttr` are methods with `modifies this` that state the whole new state.
- `TagScenarios` (tag_scenarios.dfy): the layouts the repository's tests describe, built through `Tag` objects. One is a nested tree at indent size 1; the other is a tag with two attributes.
- `ColorOps` (color_ops.dfy): `ReverseBits` is the specification of the bit reversal. `GenerateColorHue` is the source's loop, proved against `ReverseBits` with an invariant. Components are `Byte` values, `0 <= b < 256`.

Design points:

- The `int` operations in `GenerateColorHue` match the source's bit operations for `idx >= 0`:
  - `(reverse << 1) | (idx & 0x1)` equals `2 * reverse + idx % 2`, because the shifted value has a clear low bit;
  - `idx >> 1` equals `idx / 2`.
- `Spaces(n)` is Python's `" " * n`, so a non-positive product gives the empty string. Levels and indent sizes are `int`, as in the source.
- Rendering has no side effects: `FormatString` and `ToString` are functions, with `reads` clauses and no `modifies`. Rendering an unchanged tree twice therefore gives the same string by construction.

## Model

| member | source | states |
|---|---|---|
| Attributes.Assign | export_svg_280.py:57-58 | `d[key] = value` keeps every name at its position, adds one entry only when `key` is new, and leaves `key` present; AssignExisting and AssignNew give the full result and LookupAssign the dict semantics |
| Attributes.AssignExisting | export_svg_280.py:57-58 | assigning to a name already in the dictionary replaces that entry's value in place; positions and all other entries are unchanged |
| Attributes.AssignNew | export_svg_280.py:57-58 | assigning to a name not yet in the dictionary appends `(name, value)` after all existing entries |
| Attributes.AssignKeepsUnique | export_svg_280.py:57-58 | attribute names stay unique after an assignment |
| Attributes.LookupAssign | export_svg_280.py:57-58 | after `d[k] = v`, reading `k` gives `v` and every other name reads as before |
| Markup.Spaces | export_svg_280.py:28-29 | `" " * n` has `max(n, 0)` characters, all spaces |
| Markup.SpacesOfLevel | export_svg_280.py:28-29 | for non-negative level and indent size, the indent is exactly `level * indent` space characters |
| Markup.Join | export_svg_280.py:33-35 | `sep.join(parts)`; specified by JoinEnds, JoinLength and JoinAppend |
| Markup.JoinEnds | export_svg_280.py:43-49 | a non-empty join begins with its first part and ends with its last |
| Markup.JoinLength | export_svg_280.py:43-49 | a join is as long as its parts plus one separator per gap between neighbours |
| Markup.FormatAttributes | export_svg_280.py:31-35 | the attribute text is empty exactly when the dictionary is empty, and otherwise starts with a space; FormatAttributesSpaced gives its full text |
| Markup.FormatAttributesSpaced | export_svg_280.py:31-35 | the attribute text is one space followed by `name="value"` for each attribute, in insertion order, pairs separated by single spaces |
| Markup.AssignNewFormat | export_svg_280.py:31-35 | after `add_attr` with a new name, the attribute text is the old text followed by ` name="value"` |
| Markup.RenderAll | export_svg_280.py:40-42 | the children's texts are one per child, in list order, each child rendered at the given level |
| Markup.RenderLeaf | export_svg_280.py:37-38 | a childless tag renders as the single line `indent + "<" + name + attrs + " />"` |
| Markup.RenderBareRoot | test_tags_attributes_tree_format.py:9-11 | a childless, attribute-less tag prints `<name />` at level 0, for any indent size |
| Markup.RenderRootLeaf | export_svg_280.py:31-38 | a childless root tag prints `<name`, then ` name="value"` per attribute in insertion order, then ` />` |
| Markup.RenderParent | export_svg_280.py:40-49 | a tag with children renders its open line, a newline, the children's renderings at `level + 1` joined by newlines in list order, a newline, and its close line |
| Markup.Render | export_svg_280.py:27-49 | `format_string` on a tree value: it begins with its indent, `<` and the name, and ends with ` />` for a childless tag and with `</name>` otherwise; RenderLeaf, RenderParent and RenderIsJoinedLines give the full text |
| Markup.StrStartsAtColumnZero | export_svg_280.py:51-52 | `str(tag)`, rendered at level 0 with indent size 1, starts with `<name`: no leading spaces |
| Markup.RenderIsJoinedLines | export_svg_280.py:36-49 | the rendering is the list of parts (self-closing line, or open line, children's parts, close line) joined by `"\n"` |
| Markup.LinesHaveNoNewline | export_svg_280.py:36-49 | when no tag name, attribute name or value in the tree contains a newline, no part contains one, so the parts are exactly the output's lines |
| Markup.LineCount | export_svg_280.py:36-49 | the output has one part per tag plus one more per tag that has children, i.e. 2 plus the children's counts for a parent tag; for a tree without newlines, that is its line count |
| Markup.LinesShift | export_svg_280.py:28-42 | rendering `d` levels deeper prefixes every part with `d * indent` more spaces and changes nothing else, so each child's indent is its parent's plus one level at any depth |
| Markup.LinesIndented | export_svg_280.py:28-42 | every part of a tag rendered at `level` starts with `level * indent` spaces |
| Markup.LinesAllAppend | export_svg_280.py:40-42 | the parts of children `cs + [c]` are the parts of `cs` followed by those of `c` |
| Markup.AddChildLines | export_svg_280.py:54-55 | after appending child `c`, the output is the open line, the earlier children's parts, `c`'s parts one level deeper, then the close line |
| Tags.Tag.View | export_svg_280.py:21-25 | the value view of a tag has the tag's name, attributes and one child view per child, in order |
| Tags.Tag.constructor | export_svg_280.py:22-25 | a new tag has the given name, no children and no attributes |
| Tags.Tag.FormatString | export_svg_280.py:27-49 | `format_string(level, indent_size)`, computed over the child objects, equals `Render` of the tag's view |
| Tags.Tag.FormatChildren | export_svg_280.py:40-42 | the formatted children are, in order, each child object's rendering at the given level |
| Tags.Tag.ToString | export_svg_280.py:51-52 | `str(tag)` is the rendering at level 0 with indent size 1 |
| Tags.Tag.AddTag | export_svg_280.py:54-55 | `add_tag` appends the child after the existing ones; the name, the attributes and the earlier children are unchanged; the tree stays valid |
| Tags.Tag.AddAttr | export_svg_280.py:57-58 | `add_attr` sets the attributes to the dictionary assignment of the old ones; the name and children are unchanged; names stay unique |
| TagScenarios.RootLines | tests/test_tags_attributes_tree_format.py:62-72 | a root holding a leaf and a nested tag with a leaf renders as the six lines `<root>`, ` <inner />`, ` <nested>`, `  <inner />`, ` </nested>`, `</root>` |
| TagScenarios.NestedLayout | tests/test_tags_attributes_tree_format.py:62-72 | the same tree built with `Tag` objects and `AddTag` prints those six lines joined by newlines |
| TagScenarios.TwoAttributes | tests/test_tags_attributes_tree_format.py:15-31 | a tag given `attr1="val1"` and then `attr2="val2"` prints `<element attr1="val1" attr2="val2" />` |
| ColorOps.ReverseBits | color_ops.py:10-17 | the reversed numerator is below `2^bits`, so the hue lies in [0, 1) |
| ColorOps.ReverseBitsBit | color_ops.py:13-16 | bit `j` of the numerator is bit `bits - 1 - j` of `idx` |
| ColorOps.ReverseBitsLowBitsOnly | color_ops.py:13-16 | only `idx mod 2^bits` affects the result |
| ColorOps.ReverseBitsInvolution | color_ops.py:13-16 | reversing the numerator again with the same `bits` gives back `idx mod 2^bits` |
| ColorOps.ReverseBitsOfZero | color_ops.py:13-17 | index 0 gives numerator 0 |
| ColorOps.ReverseBitsOfOne | color_ops.py:13-17 | index 1 gives numerator `2^(bits-1)`, which is hue one half |
| ColorOps.GenerateColorHue | color_ops.py:10-17 | the loop ends after `bits` turns; it returns the numerator `ReverseBits(idx, bits)` over the denominator `2^bits`, numerator below denominator (default `bits = 8`) |
| ColorOps.Hex2 | color_ops.py:7 | `format(b, "02x")` is two lowercase hex digits, with a leading `0` exactly when `b < 16` |
| ColorOps.Hex2RoundTrip | color_ops.py:7 | each two-digit field parses back to its component |
| ColorOps.ParseHex2RoundTrip | color_ops.py:7 | every two-digit lowercase hex field is the text of the value it spells |
| ColorOps.ColorToHString | color_ops.py:5-7 | the text is 7 characters: `#`, then three 2-digit lowercase hex fields that parse back to the components, in component order |
| ColorOps.HStringRoundTrip | color_ops.py:5-7 | every lowercase `#rrggbb` string is the text of the colour its fields spell, so no text is produced by two colours |

## Left out

- Attribute values are strings. The source's f-string would `str()` any value; converting other types to text is not modelled.
- Tags.Tag.AddTag: requires that the new child's subtree does not contain the receiver. The source accepts a cycle, but then `format_string` recurses through the list comprehension until Python raises `RecursionError`.
- Names and values may contain newlines, and `Render` still gives the exact output for them. Only the reading of `Lines` entries as output lines, and so LineCount and LinesIndented as statements about lines, needs the `PlainTree` condition of LinesHaveNoNewline.
- Growing a tag that is already some other tag's child is not modelled. Calling `AddTag` on that child enlarges its `Repr`, so the parent's `Valid()` no longer holds and the parent must not be rendered again in the model. In Python the parent would show the new grandchild. Changing such a child's attributes is modelled: `AddAttr` keeps `Repr`, so every ancestor stays valid and renders the new attributes.
- The test at tests/test_tags_attributes_tree_format.py:62-72 also adds a comment node. No comment type is part of this model, so the scenario checks only the tag lines of that expected output.
- `TAT_Node`, `TAT_Comment`, `Spacer`, `add_attrs`, `add_nodes`, name and value validation, and return-self chaining appear only in the tests. No modelled source file defines them.
- ColorOps.GenerateColorHue: returns the hue as `numerator` and `denominator`. The source's float division `reverse / float(1 << bits)` and its rounding are not modelled.
- ColorOps.GenerateColorHue: takes `idx` and `bits` as naturals. For a negative `bits`, the source loop never ends. Python's arithmetic shift of a negative `idx` is outside the intended use.
- ColorOps.ColorToHString: takes the integer components `0..255`. The float scaling `int(255 * color[i])` is not modelled, nor is formatting of components outside that range.
- `get_color_by_idx` (HSV-to-RGB conversion in floats) is not modelled. Nor are the rest of `export_svg_280.py` (scene, mesh and projection code, shading, randomness, file writing, compression, operators and UI panels), `mathutils_play.py`, `debug_arrow.py` and `progressbar.py`. All of these depend on the host application, floating point or I/O.
