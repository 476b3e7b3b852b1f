/** How printed documents look: one reference for compact mode, and one for line breaks and indentation. */
module Layouts {
  import opened Text
  import opened Entities
  import opened PrintSpec

  // ----- tags -----

  function AttributeText(attributes: seq<Pair>): string {
    if attributes == [] then ""
    else " " + attributes[0].name + "=\"" + Escape(attributes[0].value, false) + "\"" + AttributeText(attributes[1..])
  }

  /** Comments, declarations and unknowns. */
  predicate Markup(d: Dom) {
    d.Comment? || d.Declaration? || d.Unknown?
  }

  function MarkupText(d: Dom): string
    requires Markup(d)
  {
    match d
    case Comment(v) => "<!--" + v + "-->"
    case Declaration(v) => "<?" + v + "?>"
    case Unknown(v) => "<!" + v + ">"
  }

  function TextText(v: string, cdata: bool): string {
    if cdata then "<![CDATA[" + v + "]]>" else Escape(v, true)
  }

  lemma {:induction false} AttributesAre(attributes: seq<Pair>)
    ensures PrintAttributes(attributes) == AttributeText(attributes)
  {
    hide Escape;
    if attributes != [] {
      AttributesAre(attributes[1..]);
    }
  }

  // ----- compact mode -----

  /** Tags, markup and texts, with nothing between them. */
  function Flat(ds: seq<Dom>): string
    decreases ds
  {
    if ds == [] then "" else FlatNode(ds[0]) + Flat(ds[1..])
  }

  function FlatNode(d: Dom): string
    decreases d
  {
    match d
    case Text(v, cdata) => TextText(v, cdata)
    case Element(name, attributes, kids) =>
      if kids == [] then "<" + name + AttributeText(attributes) + "/>"
      else "<" + name + AttributeText(attributes) + ">" + Flat(kids) + ("</" + name + ">")
    case _ => MarkupText(d)
  }

  lemma Regroup(x: string, y: string, z: string)
    ensures x + (y + z) == x + y + z
  {
  }

  lemma Assoc(x: string, y: string, z: string, more: string)
    ensures x + (y + (z + more)) == x + y + z + more
  {
    Regroup(y, z, more);
    Regroup(x, y + z, more);
    Regroup(x, y, z);
  }

  /** An element as the printer puts it together, and read from the left. */
  lemma Joined(gap: string, name: string, attributes: string, content: string, last: string)
    ensures gap + ("<" + (name + (attributes + (content + last)))) == gap + "<" + name + attributes + content + last
  {
    Assoc("<", name, attributes, content + last);
    Regroup(gap, "<" + name + attributes, content + last);
    Regroup(gap, "<" + name, attributes);
    Regroup(gap, "<", name);
    Regroup(gap + "<" + name + attributes, content, last);
  }

  lemma ContentIs(name: string, kids: seq<Dom>, compact: bool, depth: nat, inner: Printed)
    ensures PrintContent(name, kids, compact, depth, inner) ==
      if kids == [] then "/>" else ">" + inner.text + Break(compact, depth, inner.layout) + ("</" + name + ">")
  {
    hide Break;
    Assoc(">", inner.text, Break(compact, depth, inner.layout), "</" + name + ">");
  }

  lemma LeafIs(d: Dom, compact: bool, depth: nat, st: Layout)
    requires !d.Element?
    ensures PrintNode(d, compact, depth, st) ==
      if d.Text? then Printed(TextText(d.value, d.cdata), st.(textDepth := depth - 1))
      else Printed(Break(compact, depth, st) + MarkupText(d), st.(first := false))
  {
    hide Break, Escape;
    match d
    case Text(v, cdata) => Regroup("<![CDATA[", v, "]]>");
    case Comment(v) => Regroup("<!--", v, "-->");
    case Declaration(v) => Regroup("<?", v, "?>");
    case Unknown(v) => Regroup("<!", v, ">");
  }

  lemma ElementIs(d: Dom, compact: bool, depth: nat, st: Layout)
    requires d.Element?
    ensures var inner := PrintList(d.kids, compact, depth + 1, st.(first := false));
      PrintNode(d, compact, depth, st) ==
        Printed(Break(compact, depth, st) + "<" + d.name + AttributeText(d.attributes) +
                  (if d.kids == [] then "/>"
                   else ">" + inner.text + Break(compact, depth, inner.layout) + ("</" + d.name + ">")) +
                  LastBreak(compact, depth),
                CloseLayout(depth, inner.layout))
  {
    hide Break, LastBreak, PrintContent, PrintList, AttributeText, PrintAttributes;
    var inner := PrintList(d.kids, compact, depth + 1, st.(first := false));
    AttributesAre(d.attributes);
    ContentIs(d.name, d.kids, compact, depth, inner);
    Joined(Break(compact, depth, st), d.name, AttributeText(d.attributes),
      PrintContent(d.name, d.kids, compact, depth, inner), LastBreak(compact, depth));
  }

  lemma {:induction false} NodeIsFlat(d: Dom, depth: nat, st: Layout)
    ensures PrintNode(d, true, depth, st).text == FlatNode(d)
    decreases d
  {
    hide PrintNode, Escape, AttributeText, PrintList, Flat, TextText, MarkupText;
    if d.Element? {
      var name, attributes, text := d.name, AttributeText(d.attributes), Flat(d.kids);
      ElementIs(d, true, depth, st);
      ListIsFlat(d.kids, depth + 1, st.(first := false));
      assert "" + "<" == "<" && ">" + text + "" == ">" + text;
      var whole := "<" + name + attributes + if d.kids == [] then "/>" else ">" + text + ("</" + name + ">");
      assert whole + "" == whole;
      Assoc("<" + name + attributes, ">", text, "</" + name + ">");
      Regroup(">", text, "</" + name + ">");
    } else {
      LeafIs(d, true, depth, st);
      assert !d.Text? ==> "" + MarkupText(d) == MarkupText(d);
    }
  }

  lemma {:induction false} ListIsFlat(ds: seq<Dom>, depth: nat, st: Layout)
    ensures PrintList(ds, true, depth, st).text == Flat(ds)
    decreases ds
  {
    hide PrintNode, FlatNode;
    if ds != [] {
      NodeIsFlat(ds[0], depth, st);
      ListIsFlat(ds[1..], depth, PrintNode(ds[0], true, depth, st).layout);
    }
  }

  // ----- line breaks -----

  /** Whether text forbids a break: no; yes, as the last text stands in the innermost open element; or yes, as it
  stands in an open element around that one. */
  datatype Mute = Free | Inside | Above

  /** The text of a node or of a list, whether all markup is still to come, and what the last text forbids behind it. */
  datatype Laid = Laid(text: string, first: bool, mute: Mute)

  /** One line feed and four blanks for each level of depth, except in front of everything and where text forbids it. */
  function Gap(depth: nat, first: bool, mute: Mute): string {
    if first || mute != Free then "" else "\n" + seq(4 * depth, _ => ' ')
  }

  function LaidNode(d: Dom, depth: nat, first: bool, mute: Mute): Laid
    decreases d
  {
    match d
    case Text(v, cdata) => Laid(TextText(v, cdata), first, if depth == 0 then Free else Inside)
    case Element(name, attributes, kids) =>
      var inner := LaidList(kids, depth + 1, false, if mute == Free then Free else Above);
      Laid(
        Gap(depth, first, mute) + "<" + name + AttributeText(attributes) +
        (if kids == [] then "/>" else ">" + inner.text + Gap(depth, false, inner.mute) + ("</" + name + ">")) +
        (if depth == 0 then "\n" else ""),
        false,
        if inner.mute == Above then mute else Free)
    case _ => Laid(Gap(depth, first, mute) + MarkupText(d), false, mute)
  }

  function LaidList(ds: seq<Dom>, depth: nat, first: bool, mute: Mute): Laid
    decreases ds
  {
    if ds == [] then Laid("", first, mute)
    else
      var head := LaidNode(ds[0], depth, first, mute);
      var rest := LaidList(ds[1..], depth, head.first, head.mute);
      Laid(head.text + rest.text, rest.first, rest.mute)
  }

  function MuteOf(depth: nat, textDepth: int): Mute {
    if textDepth < 0 then Free else if textDepth == depth - 1 then Inside else Above
  }

  lemma GapIs(depth: nat, st: Layout)
    ensures Break(false, depth, st) == Gap(depth, st.first, MuteOf(depth, st.textDepth))
  {
    assert Spaces(depth) == seq(4 * depth, _ => ' ');
  }

  lemma MutedAlike(depth: nat, textDepth: int)
    ensures Gap(depth, false, MuteOf(depth, textDepth)) == Gap(depth, false, MuteOf(depth + 1, textDepth))
  {
  }

  /** The layout says the same as the text in front, the open elements and the texts in them. */
  predicate Agrees(depth: nat, st: Layout, p: Printed, l: Laid) {
    p.text == l.text && p.layout.first == l.first && MuteOf(depth, p.layout.textDepth) == l.mute &&
    LayoutOk(depth, p.layout) && (l.mute == Above ==> p.layout.textDepth == st.textDepth)
  }

  lemma {:induction false} NodeIsLaid(d: Dom, depth: nat, st: Layout)
    requires LayoutOk(depth, st)
    ensures Agrees(depth, st, PrintNode(d, false, depth, st), LaidNode(d, depth, st.first, MuteOf(depth, st.textDepth)))
    decreases d
  {
    hide PrintNode, Escape, AttributeText, PrintList, LaidList, Break, Gap, TextText, MarkupText;
    GapIs(depth, st);
    if d.Element? {
      var st' := st.(first := false);
      ElementIs(d, false, depth, st);
      ListIsLaid(d.kids, depth + 1, st');
      LastFirst(d.kids, depth + 1, st');
      GapIs(depth, PrintList(d.kids, false, depth + 1, st').layout);
      MutedAlike(depth, PrintList(d.kids, false, depth + 1, st').layout.textDepth);
    } else {
      LeafIs(d, false, depth, st);
    }
  }

  lemma {:induction false} ListIsLaid(ds: seq<Dom>, depth: nat, st: Layout)
    requires LayoutOk(depth, st)
    ensures Agrees(depth, st, PrintList(ds, false, depth, st),
      LaidList(ds, depth, st.first, MuteOf(depth, st.textDepth)))
    decreases ds
  {
    hide PrintNode, LaidNode;
    if ds != [] {
      NodeIsLaid(ds[0], depth, st);
      ListIsLaid(ds[1..], depth, PrintNode(ds[0], false, depth, st).layout);
    }
  }

  lemma {:induction false} LastFirst(ds: seq<Dom>, depth: nat, st: Layout)
    requires !st.first
    ensures !PrintList(ds, false, depth, st).layout.first
    decreases ds
  {
    if ds != [] {
      NodeLast(ds[0], depth, st);
      LastFirst(ds[1..], depth, PrintNode(ds[0], false, depth, st).layout);
    }
  }

  lemma NodeLast(d: Dom, depth: nat, st: Layout)
    requires !st.first
    ensures !PrintNode(d, false, depth, st).layout.first
  {
    hide PrintList;
  }

  // ----- documents -----

  function Mark(bom: bool): string {
    if bom then [239 as char, 187 as char, 191 as char] else ""
  }

  /** In compact mode a document is its tags, markup and texts side by side. */
  lemma CompactIs(doc: seq<Dom>, bom: bool)
    ensures PrintDocument(doc, bom, true) == Mark(bom) + Flat(doc)
  {
    hide PrintList, Flat;
    ListIsFlat(doc, 0, START);
  }

  /** Otherwise it is laid out from depth 0 on, with no break in front of its first markup. */
  lemma LaidOutIs(doc: seq<Dom>, bom: bool)
    ensures PrintDocument(doc, bom, false) == Mark(bom) + LaidList(doc, 0, true, Free).text
  {
    hide PrintList, LaidList;
    ListIsLaid(doc, 0, START);
  }

  /** What the printer writes at a break: nothing in compact mode, at the beginning and where text forbids it. */
  lemma BreakIs(compact: bool, depth: nat, st: Layout)
    ensures Break(compact, depth, st) ==
      if compact || st.first || 0 <= st.textDepth then "" else "\n" + seq(4 * depth, _ => ' ')
    ensures LastBreak(compact, depth) == if !compact && depth == 0 then "\n" else ""
  {
    GapIs(depth, st);
  }

  lemma OneNode(d: Dom, depth: nat, first: bool, mute: Mute)
    ensures Flat([d]) == FlatNode(d)
    ensures LaidList([d], depth, first, mute) == LaidNode(d, depth, first, mute)
  {
    hide FlatNode, LaidNode;
    var head := LaidNode(d, depth, first, mute);
    assert [d][1..] == [] && FlatNode(d) + "" == FlatNode(d) && head.text + "" == head.text;
    assert LaidList([], depth, head.first, head.mute) == Laid("", head.first, head.mute);
  }

  lemma EmptyElement(b: string)
    ensures FlatNode(Element(b, [], [])) == "<" + b + "/>"
    ensures LaidNode(Element(b, [], []), 1, false, Free) == Laid("\n    <" + b + "/>", false, Free)
  {
    hide Flat, LaidList;
    NothingInside(2);
    assert seq(4, _ => ' ') == "    ";
    assert "<" + b + "" == "<" + b && "\n    " + "<" == "\n    <";
    assert "\n    <" + b + "" == "\n    <" + b && "\n    <" + b + "/>" + "" == "\n    <" + b + "/>";
  }

  lemma AroundOne(a: string, inner: Dom)
    ensures FlatNode(Element(a, [], [inner])) == "<" + a + ">" + FlatNode(inner) + ("</" + a + ">")
    ensures LaidNode(inner, 1, false, Free).mute == Free ==>
      LaidNode(Element(a, [], [inner]), 0, true, Free).text ==
        "<" + a + (">" + LaidNode(inner, 1, false, Free).text + "\n" + ("</" + a + ">")) + "\n"
  {
    hide Flat, LaidList;
    OneNode(inner, 1, false, Free);
    assert seq(0, _ => ' ') == "" && "\n" + "" == "\n" && "" + "<" == "<" && "<" + a + "" == "<" + a;
  }

  /** An element in an element, in both modes. */
  lemma NestedExample(a: string, b: string)
    ensures var doc := [Element(a, [], [Element(b, [], [])])];
      PrintDocument(doc, false, true) == "<" + a + "><" + b + "/></" + a + ">" &&
      PrintDocument(doc, false, false) == "<" + a + ">\n    <" + b + "/>\n</" + a + ">\n"
  {
    hide PrintDocument, LaidList, Flat, LaidNode, FlatNode;
    var inner := Element(b, [], []);
    var outer := Element(a, [], [inner]);
    CompactIs([outer], false);
    LaidOutIs([outer], false);
    OneNode(outer, 0, true, Free);
    EmptyElement(b);
    AroundOne(a, inner);
    assert "<" + a + ">" + ("<" + b + "/>") + ("</" + a + ">") == "<" + a + "><" + b + "/></" + a + ">";
    assert "<" + a + (">" + ("\n    <" + b + "/>") + "\n" + ("</" + a + ">")) + "\n" ==
      "<" + a + ">\n    <" + b + "/>\n</" + a + ">\n";
  }

  lemma NothingInside(depth: nat)
    ensures Flat([]) == "" && LaidList([], depth, false, Free) == Laid("", false, Free)
  {
  }
}
