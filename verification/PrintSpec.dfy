/** The value of a document, and the text it prints as, read off the structure of the tree.

The printer of the program is a stream of events over mutable fields; `Layout` is the part of that
state that survives from one node to the next. */
module PrintSpec {
  import opened Text
  import opened Entities

  datatype Pair = Pair(name: string, value: string)

  datatype Dom =
    | Element(name: string, attributes: seq<Pair>, kids: seq<Dom>)
    | Text(value: string, cdata: bool)
    | Comment(value: string)
    | Declaration(value: string)
    | Unknown(value: string)

  /** `firstElement` and `textDepth`: nothing printed yet, and the depth inside which text forbids breaks. */
  datatype Layout = Layout(first: bool, textDepth: int)

  datatype Printed = Printed(text: string, layout: Layout)

  function Spaces(n: nat): (r: string)
    ensures |r| == 4 * n && forall k :: 0 <= k < |r| ==> r[k] == ' '
  {
    if n == 0 then "" else "    " + Spaces(n - 1)
  }

  /** The line break and indentation in front of markup. */
  function Break(compact: bool, depth: nat, st: Layout): (r: string)
    ensures forall k :: 0 <= k < |r| ==> IsSpace(r[k])
  {
    if st.textDepth < 0 && !st.first && !compact then "\n" + Spaces(depth) else ""
  }

  function PrintAttribute(a: Pair): string {
    " " + a.name + "=\"" + Escape(a.value, false) + "\""
  }

  function PrintAttributes(attributes: seq<Pair>): string {
    if attributes == [] then "" else PrintAttribute(attributes[0]) + PrintAttributes(attributes[1..])
  }

  /** What follows the attributes of an element, up to its own end: children and end tag. */
  function PrintContent(name: string, kids: seq<Dom>, compact: bool, depth: nat, inner: Printed): string {
    if kids == [] then "/>"
    else ">" + (inner.text + (Break(compact, depth, inner.layout) + ("</" + name + ">")))
  }

  function CloseLayout(depth: nat, st: Layout): Layout {
    Layout(false, if st.textDepth == depth then -1 else st.textDepth)
  }

  function PrintNode(d: Dom, compact: bool, depth: nat, st: Layout): (r: Printed)
    decreases d
  {
    match d
    case Text(v, cdata) =>
      Printed(if cdata then "<![CDATA[" + (v + "]]>") else Escape(v, true), st.(textDepth := depth - 1))
    case Comment(v) => Printed(Break(compact, depth, st) + ("<!--" + (v + "-->")), st.(first := false))
    case Declaration(v) => Printed(Break(compact, depth, st) + ("<?" + (v + "?>")), st.(first := false))
    case Unknown(v) => Printed(Break(compact, depth, st) + ("<!" + (v + ">")), st.(first := false))
    case Element(name, attributes, kids) =>
      var inner := PrintList(kids, compact, depth + 1, st.(first := false));
      Printed(Break(compact, depth, st) + ("<" + (name + (PrintAttributes(attributes) +
                (PrintContent(name, kids, compact, depth, inner) + LastBreak(compact, depth))))),
              CloseLayout(depth, inner.layout))
  }

  /** The line break behind an element of the top level. */
  function LastBreak(compact: bool, depth: nat): string {
    if depth == 0 && !compact then "\n" else ""
  }

  function PrintList(ds: seq<Dom>, compact: bool, depth: nat, st: Layout): (r: Printed)
    decreases ds
  {
    if ds == [] then Printed("", st)
    else
      var head := PrintNode(ds[0], compact, depth, st);
      var rest := PrintList(ds[1..], compact, depth, head.layout);
      Printed(head.text + rest.text, rest.layout)
  }

  const START: Layout := Layout(true, -1)

  const BOM: string := "\U{EF}\U{BB}\U{BF}"

  /** The whole output for a document, behind the byte order mark of one that was read with it. */
  function PrintDocument(doc: seq<Dom>, bom: bool, compact: bool): string {
    (if bom then BOM else "") + PrintList(doc, compact, 0, START).text
  }

  // ----- the documents that survive printing -----

  predicate Clean(v: string) {
    CR !in v && NUL !in v
  }

  predicate LegalName(name: string) {
    name != "" && IsAlpha(name[0]) && forall k :: 0 <= k < |name| ==> IsNameChar(name[k])
  }

  /** No place in `v` holds the terminator. */
  predicate Free(v: string, terminator: string) {
    forall k :: 0 <= k <= |v| ==> !HasAt(v, k, terminator)
  }

  predicate PlainText(d: Dom) {
    d.Text? && !d.cdata
  }

  predicate Blank(v: string) {
    forall k :: 0 <= k < |v| ==> IsSpace(v[k])
  }

  predicate LegalAttributes(attributes: seq<Pair>) {
    (forall k :: 0 <= k < |attributes| ==> LegalName(attributes[k].name) && Clean(attributes[k].value)) &&
    forall j, k :: 0 <= j < k < |attributes| ==> attributes[j].name != attributes[k].name
  }

  predicate Printable(d: Dom) {
    match d
    case Text(v, cdata) => Clean(v) && if cdata then Free(v, "]]>") else !Blank(v)
    case Comment(v) => Clean(v) && Free(v, "-->")
    case Declaration(v) => Clean(v) && Free(v, "?>")
    case Unknown(v) => Clean(v) && Free(v, ">") && !HasAt(v, 0, "--") && !HasAt(v, 0, "[CDATA[")
    case Element(name, attributes, kids) => LegalName(name) && LegalAttributes(attributes) && PrintableList(kids)
  }

  /** Printable nodes, with no two plain texts side by side. */
  predicate PrintableList(ds: seq<Dom>) {
    ds == [] ||
    (Printable(ds[0]) && PrintableList(ds[1..]) && (PlainText(ds[0]) && |ds| > 1 ==> !PlainText(ds[1])))
  }

  /** A document has no plain text among its own children. */
  predicate PrintableDocument(doc: seq<Dom>) {
    doc != [] && PrintableList(doc) && forall k :: 0 <= k < |doc| ==> !PlainText(doc[k])
  }

  /** `textDepth` never reaches the current depth, and after text at this depth it stays set. */
  predicate LayoutOk(depth: nat, st: Layout) {
    -1 <= st.textDepth < depth || (depth == 0 && st.textDepth == -1)
  }

  lemma {:induction false} LayoutKept(d: Dom, compact: bool, depth: nat, st: Layout)
    requires LayoutOk(depth, st)
    ensures LayoutOk(depth, PrintNode(d, compact, depth, st).layout)
    ensures PlainText(d) && depth > 0 ==> PrintNode(d, compact, depth, st).layout.textDepth >= 0
    decreases d
  {
    if d.Element? {
      LayoutListKept(d.kids, compact, depth + 1, st.(first := false));
    }
  }

  lemma {:induction false} LayoutListKept(ds: seq<Dom>, compact: bool, depth: nat, st: Layout)
    requires LayoutOk(depth, st)
    ensures LayoutOk(depth, PrintList(ds, compact, depth, st).layout)
    decreases ds
  {
    if ds != [] {
      LayoutKept(ds[0], compact, depth, st);
      LayoutListKept(ds[1..], compact, depth, PrintNode(ds[0], compact, depth, st).layout);
    }
  }

  // ----- the output is a C string -----

  lemma {:induction false} NodeNoNul(d: Dom, compact: bool, depth: nat, st: Layout)
    requires Printable(d)
    ensures NUL !in PrintNode(d, compact, depth, st).text
    decreases d, 1
  {
    hide PrintList, PrintAttributes, PrintContent, Break, Escape;
    BreakNoNul(compact, depth, st);
    var gap := Break(compact, depth, st);
    match d
    case Text(v, cdata) =>
      EscapeSafe(v, true);
      MarkupNoNul("", "<![CDATA[", v, "]]>");
    case Comment(v) => MarkupNoNul(gap, "<!--", v, "-->");
    case Declaration(v) => MarkupNoNul(gap, "<?", v, "?>");
    case Unknown(v) => MarkupNoNul(gap, "<!", v, ">");
    case Element(name, attributes, kids) =>
      ElementNoNul(d, compact, depth, st);
  }

  lemma {:induction false} ElementNoNul(d: Dom, compact: bool, depth: nat, st: Layout)
    requires Printable(d) && d.Element?
    ensures NUL !in PrintNode(d, compact, depth, st).text
    decreases d, 0
  {
    hide PrintList, PrintAttributes, Escape, PrintContent, Break, LastBreak;
    var name, attributes, kids := d.name, d.attributes, d.kids;
    NameNoNul(name);
    AttributesNoNul(attributes);
    ListNoNul(kids, compact, depth + 1, st.(first := false));
    var inner := PrintList(kids, compact, depth + 1, st.(first := false));
    ContentNoNul(name, kids, compact, depth, inner);
    BreakNoNul(compact, depth, st);
    var tail := PrintContent(name, kids, compact, depth, inner) + LastBreak(compact, depth);
    NotInConcat(PrintContent(name, kids, compact, depth, inner), LastBreak(compact, depth));
    NotInConcat(PrintAttributes(attributes), tail);
    NotInConcat(name, PrintAttributes(attributes) + tail);
    NotInConcat("<", name + (PrintAttributes(attributes) + tail));
    NotInConcat(Break(compact, depth, st), "<" + (name + (PrintAttributes(attributes) + tail)));
  }

  lemma MarkupNoNul(gap: string, head: string, v: string, tail: string)
    requires NUL !in gap && NUL !in head && NUL !in v && NUL !in tail
    ensures NUL !in head + (v + tail) && NUL !in gap + (head + (v + tail))
  {
    NotInConcat(v, tail);
    NotInConcat(head, v + tail);
    NotInConcat(gap, head + (v + tail));
  }

  lemma BreakNoNul(compact: bool, depth: nat, st: Layout)
    ensures NUL !in Break(compact, depth, st) && NUL !in LastBreak(compact, depth)
  {
  }

  lemma ContentNoNul(name: string, kids: seq<Dom>, compact: bool, depth: nat, inner: Printed)
    requires NUL !in name && NUL !in inner.text
    ensures NUL !in PrintContent(name, kids, compact, depth, inner)
  {
    hide Break;
    BreakNoNul(compact, depth, inner.layout);
    var gap := Break(compact, depth, inner.layout);
    assert NUL !in "</" + name + ">";
    NotInConcat(gap, "</" + name + ">");
    NotInConcat(inner.text, gap + ("</" + name + ">"));
  }

  lemma NameNoNul(name: string)
    requires LegalName(name)
    ensures NUL !in name
  {
    forall k | 0 <= k < |name| ensures name[k] != NUL {
      assert IsNameChar(name[k]);
    }
  }

  lemma {:induction false} AttributesNoNul(attributes: seq<Pair>)
    requires forall k :: 0 <= k < |attributes| ==> LegalName(attributes[k].name) && Clean(attributes[k].value)
    ensures NUL !in PrintAttributes(attributes)
  {
    if attributes != [] {
      AttributesNoNul(attributes[1..]);
      NameNoNul(attributes[0].name);
      EscapeSafe(attributes[0].value, false);
      NotInConcat(PrintAttribute(attributes[0]), PrintAttributes(attributes[1..]));
    }
  }

  lemma {:induction false} ListNoNul(ds: seq<Dom>, compact: bool, depth: nat, st: Layout)
    requires PrintableList(ds)
    ensures NUL !in PrintList(ds, compact, depth, st).text
    decreases ds, 0
  {
    hide PrintNode, Printable;
    if ds != [] {
      NodeNoNul(ds[0], compact, depth, st);
      ListNoNul(ds[1..], compact, depth, PrintNode(ds[0], compact, depth, st).layout);
      NotInConcat(PrintNode(ds[0], compact, depth, st).text,
        PrintList(ds[1..], compact, depth, PrintNode(ds[0], compact, depth, st).layout).text);
    }
  }
}
