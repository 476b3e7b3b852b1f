/** `XMLPrinter`: a stream of events over a few fields, which prints what the tree prescribes. */
module Printers {
  import opened Text
  import opened Entities
  import opened PrintSpec
  import Layouts

  const ENTITY_RANGE: nat := 64

  lemma {:induction false} EscapeConcat(u: string, v: string, restricted: bool)
    ensures Escape(u + v, restricted) == Escape(u, restricted) + Escape(v, restricted)
  {
    hide EscapeChar, Escape;
    if u == [] {
      assert u + v == v && "" + Escape(v, restricted) == Escape(v, restricted);
      EscapeFirst(u, restricted);
    } else {
      EscapeConcat(u[1..], v, restricted);
      assert (u + v)[1..] == u[1..] + v && (u + v)[0] == u[0];
      EscapeFirst(u, restricted);
      EscapeFirst(u + v, restricted);
    }
  }

  lemma EscapeFirst(u: string, restricted: bool)
    ensures u == "" ==> Escape(u, restricted) == ""
    ensures u != "" ==> Escape(u, restricted) == EscapeChar(u[0], restricted) + Escape(u[1..], restricted)
  {
    hide EscapeChar;
  }

  predicate NeedsEntity(c: char, restricted: bool) {
    c == '&' || c == '<' || c == '>' || (!restricted && (c == '\"' || c == '\''))
  }

  lemma {:induction false} PlainRun(v: string, restricted: bool)
    requires forall k :: 0 <= k < |v| ==> !NeedsEntity(v[k], restricted)
    ensures Escape(v, restricted) == v
  {
    if v != [] {
      PlainRun(v[1..], restricted);
      assert v == [v[0]] + v[1..];
    }
  }

  class XMLPrinter {
    const compactMode: bool
    var elementJustOpened: bool
    var firstElement: bool
    var depth: int
    var textDepth: int
    var stack: seq<string>
    var buffer: string
    var entityFlag: seq<bool>
    var restrictedEntityFlag: seq<bool>

    constructor (compact: bool)
      ensures Valid() && compactMode == compact && buffer == "" && stack == [] && depth == 0
      ensures Layout() == START && !elementJustOpened
    {
      compactMode := compact;
      elementJustOpened, firstElement, depth, textDepth := false, true, 0, -1;
      stack, buffer := [], "";
      var flags := seq(ENTITY_RANGE, i => false);
      restrictedEntityFlag := flags['&' as nat := true]['<' as nat := true]['>' as nat := true];
      var i := 0;
      while i < |ENTITIES|
        invariant 0 <= i <= |ENTITIES| && |flags| == ENTITY_RANGE
        invariant forall k :: 0 <= k < ENTITY_RANGE ==>
          (flags[k] <==> exists j :: 0 <= j < i && ENTITIES[j].value as nat == k)
      {
        flags := flags[ENTITIES[i].value as nat := true];
        i := i + 1;
      }
      entityFlag := flags;
      new;
      FlagTable(entityFlag);
    }

    /** The depth is the height of the stack of open elements, and the tables hold what is to be escaped. */
    ghost predicate Valid()
      reads this
    {
      depth == |stack| && |entityFlag| == |restrictedEntityFlag| == ENTITY_RANGE &&
      (forall k :: 0 <= k < ENTITY_RANGE ==> (entityFlag[k] <==> NeedsEntity(k as char, false))) &&
      forall k :: 0 <= k < ENTITY_RANGE ==> (restrictedEntityFlag[k] <==> NeedsEntity(k as char, true))
    }

    ghost function Layout(): Layout
      reads this
    {
      PrintSpec.Layout(firstElement, textDepth)
    }

    method Print(s: string)
      modifies this`buffer
      ensures buffer == old(buffer) + s
    {
      buffer := buffer + s;
    }

    method PrintSpace(depth: nat)
      modifies this`buffer
      ensures buffer == old(buffer) + Spaces(depth)
    {
      for i := 0 to depth
        invariant buffer + Spaces(depth - i) == old(buffer) + Spaces(depth)
      {
        assert Spaces(depth - i) == "    " + Spaces(depth - i - 1);
        Print("    ");
      }
    }

    /** Runs of bytes between entities are printed as they stand. */
    method PrintString(v: string, restricted: bool)
      requires Valid() && NUL !in v
      modifies this`buffer
      ensures buffer == old(buffer) + Escape(v, restricted)
    {
      hide Escape, NeedsEntity, EscapeChar;
      var flag := if restricted then restrictedEntityFlag else entityFlag;
      var p, q := 0, 0;
      EmptyEscape(restricted);
      assert v[..0] == "";
      while q < |v|
        invariant 0 <= p <= q <= |v|
        invariant buffer == old(buffer) + Escape(v[..p], restricted)
        invariant forall k :: p <= k < q ==> !NeedsEntity(v[k], restricted)
      {
        FlagTells(flag, restricted, v[q]);
        if (v[q] as nat) < ENTITY_RANGE && flag[v[q] as nat] {
          FlushRun(v, p, q);
          RunEscaped(v, p, q, restricted);
          p := q;
          OneEscaped(v, q, restricted);
          PrintEntity(v[q], restricted);
          p := p + 1;
        }
        q := q + 1;
      }
      RunEscaped(v, p, q, restricted);
      assert v[..|v|] == v && v[p..q] == v[p..];
      if q - p > 0 {
        Print(v[p..]);
      }
    }

    /** Flushes the run of bytes between two entities. */
    method FlushRun(v: string, p: nat, q: nat)
      requires p <= q <= |v|
      modifies this`buffer
      ensures buffer == old(buffer) + v[p..q]
    {
      var i := p;
      while i < q
        invariant p <= i <= q && buffer == old(buffer) + v[p..i]
      {
        assert v[p..i + 1] == v[p..i] + [v[i]];
        Print([v[i]]);
        i := i + 1;
      }
    }

    /** The search for the entity of a character. */
    method PrintEntity(c: char, restricted: bool)
      requires NeedsEntity(c, restricted)
      modifies this`buffer
      ensures buffer == old(buffer) + EscapeChar(c, restricted)
    {
      ghost var j := EntityIndex(c);
      var i := 0;
      while i < |ENTITIES| && ENTITIES[i].value != c
        invariant 0 <= i <= j && buffer == old(buffer)
      {
        i := i + 1;
      }
      Print("&" + ENTITIES[i].pattern + ";");
      EntityText(i, restricted);
    }

    // ----- events -----

    method SealElement()
      modifies this`elementJustOpened, this`buffer
      ensures !elementJustOpened && buffer == old(buffer) + ">"
    {
      elementJustOpened := false;
      Print(">");
    }

    /** Seals an open tag, if there is one. */
    method Seal()
      modifies this`elementJustOpened, this`buffer
      ensures !elementJustOpened && buffer == old(buffer) + Sealing(old(elementJustOpened))
    {
      if elementJustOpened {
        SealElement();
      }
      assert !old(elementJustOpened) ==> buffer + "" == buffer;
    }

    /** The line break and indentation of `depth`, unless text or compact mode forbids it. */
    method PrintBreak()
      requires 0 <= depth
      modifies this`buffer
      ensures buffer == old(buffer) + Break(compactMode, depth, Layout())
    {
      if textDepth < 0 && !firstElement && !compactMode {
        Print("\n");
        PrintSpace(depth);
        assert old(buffer) + "\n" + Spaces(depth) == old(buffer) + ("\n" + Spaces(depth));
      } else {
        assert buffer + "" == buffer;
      }
    }

    method OpenElement(name: string)
      requires Valid()
      modifies this
      ensures Valid() && elementJustOpened && stack == old(stack) + [name]
      ensures Layout() == old(Layout()).(first := false) && entityFlag == old(entityFlag)
      ensures buffer ==
        old(buffer) + Sealing(old(elementJustOpened)) + Break(compactMode, old(depth), old(Layout())) + "<" + name
    {
      hide Break;
      Seal();
      stack := stack + [name];
      PrintBreak();
      Print("<");
      Print(name);
      elementJustOpened := true;
      firstElement := false;
      depth := depth + 1;
    }

    method PushAttribute(name: string, value: string)
      requires Valid() && elementJustOpened && NUL !in value
      modifies this`buffer
      ensures buffer == old(buffer) + PrintAttribute(Pair(name, value))
    {
      hide Escape;
      Print(" " + name + "=\"");
      PrintString(value, false);
      Print("\"");
      Regroup(old(buffer), " " + name + "=\"", Escape(value, false), "\"");
    }

    method CloseElement()
      requires Valid() && stack != []
      modifies this
      ensures Valid() && !elementJustOpened && stack == old(stack)[..|old(stack)| - 1]
      ensures var name := old(stack)[|old(stack)| - 1];
        buffer == old(buffer) +
          (if old(elementJustOpened) then "/>"
           else Break(compactMode, depth, old(Layout()).(first := false)) + ("</" + name + ">"))
          + LastBreak(compactMode, depth)
      ensures Layout() == PrintSpec.Layout(old(firstElement), if old(textDepth) == depth then -1 else old(textDepth))
    {
      depth := depth - 1;
      var name := stack[|stack| - 1];
      stack := stack[..|stack| - 1];
      if elementJustOpened {
        Print("/>");
      } else {
        if textDepth < 0 && !compactMode {
          Print("\n");
          PrintSpace(depth);
        }
        Print("</" + name + ">");
        assert old(buffer) + "\n" + Spaces(depth) + ("</" + name + ">") ==
          old(buffer) + (("\n" + Spaces(depth)) + ("</" + name + ">"));
        assert old(buffer) + ("</" + name + ">") == old(buffer) + ("" + ("</" + name + ">"));
      }
      if textDepth == depth {
        textDepth := -1;
      }
      assert buffer + "" == buffer;
      if depth == 0 && !compactMode {
        Print("\n");
      }
      elementJustOpened := false;
    }

    method PushText(text: string, cdata: bool)
      requires Valid() && NUL !in text
      modifies this
      ensures Valid() && !elementJustOpened && stack == old(stack)
      ensures Layout() == old(Layout()).(textDepth := old(depth) - 1)
      ensures buffer == old(buffer) + Sealing(old(elementJustOpened)) +
        if cdata then "<![CDATA[" + (text + "]]>") else Escape(text, true)
    {
      hide Escape;
      textDepth := depth - 1;
      Seal();
      if cdata {
        ghost var b := buffer;
        Print("<![CDATA[");
        Print(text);
        Print("]]>");
        Regroup(b, "<![CDATA[", text, "]]>");
      } else {
        PrintString(text, true);
      }
    }

    /** The common part of comments, declarations and unknowns. */
    method PushMarkup(header: string, value: string, terminator: string)
      requires Valid()
      modifies this
      ensures Valid() && !elementJustOpened && stack == old(stack) && Layout() == old(Layout()).(first := false)
      ensures buffer == old(buffer) + Sealing(old(elementJustOpened)) +
        (Break(compactMode, old(depth), old(Layout())) + (header + (value + terminator)))
    {
      hide Break;
      Seal();
      ghost var b := buffer;
      PrintBreak();
      ghost var gap := Break(compactMode, depth, Layout());
      firstElement := false;
      Print(header + (value + terminator));
      assert b + gap + (header + (value + terminator)) == b + (gap + (header + (value + terminator)));
    }

    method PushComment(comment: string)
      requires Valid()
      modifies this
      ensures Valid() && !elementJustOpened && stack == old(stack)
      ensures var r := PrintNode(Comment(comment), compactMode, old(depth), old(Layout()));
        buffer == old(buffer) + Sealing(old(elementJustOpened)) + r.text && Layout() == r.layout
    {
      PushMarkup("<!--", comment, "-->");
    }

    method PushDeclaration(value: string)
      requires Valid()
      modifies this
      ensures Valid() && !elementJustOpened && stack == old(stack)
      ensures var r := PrintNode(Declaration(value), compactMode, old(depth), old(Layout()));
        buffer == old(buffer) + Sealing(old(elementJustOpened)) + r.text && Layout() == r.layout
    {
      PushMarkup("<?", value, "?>");
    }

    method PushUnknown(value: string)
      requires Valid()
      modifies this
      ensures Valid() && !elementJustOpened && stack == old(stack)
      ensures var r := PrintNode(Unknown(value), compactMode, old(depth), old(Layout()));
        buffer == old(buffer) + Sealing(old(elementJustOpened)) + r.text && Layout() == r.layout
    {
      PushMarkup("<!", value, ">");
    }

    // ----- traversal -----

    /** `XMLDocument::Print` with a new printer: the whole output of the document. */
    method PrintTree(doc: seq<Dom>, hasBOM: bool)
      requires Valid() && buffer == "" && stack == [] && Layout() == START && !elementJustOpened
      requires forall k :: 0 <= k < |doc| ==> NoNul(doc[k])
      modifies this
      ensures Valid() && buffer == PrintDocument(doc, hasBOM, compactMode) && depth == 0 && stack == []
      ensures buffer == Layouts.Mark(hasBOM) +
        if compactMode then Layouts.Flat(doc) else Layouts.LaidList(doc, 0, true, Layouts.Free).text
    {
      hide PrintList, NoNul, Layouts.Mark, Layouts.Flat, Layouts.LaidList;
      if hasBOM {
        Print(BOM);
      }
      ghost var b := buffer;
      assert b == if hasBOM then BOM else "";
      assert b + Sealing(false) == b && b + "" == b;
      AcceptAll(doc);
      if compactMode {
        Layouts.CompactIs(doc, hasBOM);
      } else {
        Layouts.LaidOutIs(doc, hasBOM);
      }
    }

    /** `VisitEnter` on an element: the tag stays open until its first child. */
    method VisitEnter(name: string, attributes: seq<Pair>)
      requires Valid() && forall k :: 0 <= k < |attributes| ==> NUL !in attributes[k].value
      modifies this
      ensures Valid() && elementJustOpened && stack == old(stack) + [name]
      ensures Layout() == old(Layout()).(first := false)
      ensures buffer == old(buffer) + Sealing(old(elementJustOpened)) +
        (Break(compactMode, old(depth), old(Layout())) + ("<" + (name + PrintAttributes(attributes))))
    {
      hide Break, PrintAttribute;
      OpenElement(name);
      ghost var b := buffer;
      var i := 0;
      assert attributes[0..] == attributes;
      while i < |attributes|
        invariant 0 <= i <= |attributes| && Valid() && elementJustOpened && stack == old(stack) + [name]
        invariant Layout() == old(Layout()).(first := false)
        invariant buffer + PrintAttributes(attributes[i..]) == b + PrintAttributes(attributes)
      {
        assert attributes[i..][1..] == attributes[i + 1..];
        assert Pair(attributes[i].name, attributes[i].value) == attributes[i];
        ghost var c := buffer;
        PushAttribute(attributes[i].name, attributes[i].value);
        assert c + (PrintAttribute(attributes[i]) + PrintAttributes(attributes[i + 1..]))
          == buffer + PrintAttributes(attributes[i + 1..]);
        i := i + 1;
      }
      assert buffer + "" == buffer;
      OpenRegroup(old(buffer) + Sealing(old(elementJustOpened)), Break(compactMode, old(depth), old(Layout())), name,
        PrintAttributes(attributes));
    }

    /** `Accept` on one node prints what the tree prescribes, sealing an open tag first. */
    method Accept(d: Dom)
      requires Valid() && NoNul(d)
      modifies this
      ensures Valid() && !elementJustOpened && stack == old(stack)
      ensures var r := PrintNode(d, compactMode, old(depth), old(Layout()));
        buffer == old(buffer) + Sealing(old(elementJustOpened)) + r.text && Layout() == r.layout
      decreases d, 1
    {
      hide Break, Escape, PrintList, PrintAttributes;
      match d {
        case Text(v, cdata) => PushText(v, cdata);
        case Comment(v) => PushComment(v);
        case Declaration(v) => PushDeclaration(v);
        case Unknown(v) => PushUnknown(v);
        case Element(name, attributes, kids) => AcceptElement(d);
      }
    }

    method AcceptElement(d: Dom)
      requires Valid() && NoNul(d) && d.Element?
      modifies this
      ensures Valid() && !elementJustOpened && stack == old(stack)
      ensures var r := PrintNode(d, compactMode, old(depth), old(Layout()));
        buffer == old(buffer) + Sealing(old(elementJustOpened)) + r.text && Layout() == r.layout
      decreases d, 0
    {
      hide Break, Escape, PrintList, PrintAttributes, LastBreak;
      VisitEnter(d.name, d.attributes);
      ghost var b := buffer;
      AcceptAll(d.kids);
      assert stack[..|stack| - 1] == old(stack);
      CloseElement();
      ghost var inner := PrintList(d.kids, compactMode, old(depth) + 1, old(Layout()).(first := false));
      assert d.kids == [] ==> inner == Printed("", old(Layout()).(first := false)) by {
        EmptyList(compactMode, old(depth) + 1, old(Layout()).(first := false));
      }
      ListNotFirst(d.kids, compactMode, old(depth) + 1, old(Layout()).(first := false));
      ElementText(old(buffer) + Sealing(old(elementJustOpened)), b, buffer, d, compactMode, old(depth), old(Layout()));
    }

    /** The children of an element or a document, one after the other. */
    method AcceptAll(ds: seq<Dom>)
      requires Valid() && forall k :: 0 <= k < |ds| ==> NoNul(ds[k])
      modifies this
      ensures Valid() && elementJustOpened == (old(elementJustOpened) && ds == []) && stack == old(stack)
      ensures var r := PrintList(ds, compactMode, old(depth), old(Layout()));
        buffer == old(buffer) + (if ds == [] then "" else Sealing(old(elementJustOpened))) + r.text &&
        Layout() == r.layout
      decreases ds, 0
    {
      hide PrintNode, NoNul;
      ghost var r := PrintList(ds, compactMode, depth, Layout());
      ghost var b := buffer + if ds == [] then "" else Sealing(elementJustOpened);
      var i := 0;
      assert ds[0..] == ds;
      while i < |ds|
        invariant 0 <= i <= |ds| && Valid() && stack == old(stack)
        invariant elementJustOpened == (old(elementJustOpened) && i == 0)
        invariant i == 0 ==> buffer == old(buffer) && Layout() == old(Layout())
        invariant 0 < i ==> buffer + PrintList(ds[i..], compactMode, depth, Layout()).text == b + r.text
        invariant PrintList(ds[i..], compactMode, depth, Layout()).layout == r.layout
      {
        assert ds[i..][0] == ds[i] && ds[i..][1..] == ds[i + 1..];
        ghost var c, open, st := buffer, elementJustOpened, Layout();
        Accept(ds[i]);
        ghost var head := PrintNode(ds[i], compactMode, depth, st);
        ghost var rest := PrintList(ds[i + 1..], compactMode, depth, head.layout);
        assert PrintList(ds[i..], compactMode, depth, st) == Printed(head.text + rest.text, rest.layout);
        SiblingText(c, open, head.text, rest.text);
        i := i + 1;
      }
      assert PrintList([], compactMode, depth, Layout()) == Printed("", Layout());
      assert ds[|ds|..] == [];
      assert buffer + "" == buffer;
      assert old(buffer) + "" + "" == old(buffer);
    }
  }

  lemma {:induction false} NodeNotFirst(d: Dom, compact: bool, depth: nat, st: Layout)
    requires !st.first
    ensures !PrintNode(d, compact, depth, st).layout.first
  {
  }

  lemma {:induction false} ListNotFirst(ds: seq<Dom>, compact: bool, depth: nat, st: Layout)
    requires !st.first
    ensures !PrintList(ds, compact, depth, st).layout.first
  {
    if ds != [] {
      NodeNotFirst(ds[0], compact, depth, st);
      ListNotFirst(ds[1..], compact, depth, PrintNode(ds[0], compact, depth, st).layout);
    }
  }

  lemma {:induction false} PrintableNoNul(d: Dom)
    requires Printable(d)
    ensures NoNul(d)
    decreases d, 1
  {
    if d.Element? {
      NameNoNul(d.name);
      PrintableListNoNul(d.kids);
    }
  }

  lemma {:induction false} PrintableListNoNul(ds: seq<Dom>)
    requires PrintableList(ds)
    ensures forall k :: 0 <= k < |ds| ==> NoNul(ds[k])
    decreases ds, 0
  {
    if ds != [] {
      PrintableNoNul(ds[0]);
      PrintableListNoNul(ds[1..]);
      assert forall k :: 1 <= k < |ds| ==> ds[k] == ds[1..][k - 1];
    }
  }

  function Sealing(open: bool): string {
    if open then ">" else ""
  }

  /** The strings of a tree are C strings. */
  predicate NoNul(d: Dom) {
    match d
    case Element(name, attributes, kids) =>
      NUL !in name && (forall k :: 0 <= k < |attributes| ==> NUL !in attributes[k].value) &&
      forall k :: 0 <= k < |kids| ==> NoNul(kids[k])
    case _ => NUL !in d.value
  }

  lemma EntityIndex(c: char) returns (j: nat)
    requires NeedsEntity(c, false)
    ensures j < |ENTITIES| && ENTITIES[j].value == c
  {
    j := if c == '\"' then 0 else if c == '&' then 1 else if c == '\'' then 2 else if c == '<' then 3 else 4;
  }

  lemma FlagTable(flags: seq<bool>)
    requires |flags| == ENTITY_RANGE
    requires forall k :: 0 <= k < ENTITY_RANGE ==>
      (flags[k] <==> exists j :: 0 <= j < |ENTITIES| && ENTITIES[j].value as nat == k)
    ensures forall k :: 0 <= k < ENTITY_RANGE ==> (flags[k] <==> NeedsEntity(k as char, false))
  {
    forall k | 0 <= k < ENTITY_RANGE ensures flags[k] <==> NeedsEntity(k as char, false) {
      if NeedsEntity(k as char, false) {
        var j := EntityIndex(k as char);
        assert ENTITIES[j].value as nat == k;
      }
    }
  }

  lemma EmptyEscape(restricted: bool)
    ensures Escape("", restricted) == ""
  {
  }

  lemma FlagTells(flag: seq<bool>, restricted: bool, c: char)
    requires |flag| == ENTITY_RANGE
    requires forall k :: 0 <= k < ENTITY_RANGE ==> (flag[k] <==> NeedsEntity(k as char, restricted))
    ensures (c as nat) < ENTITY_RANGE && flag[c as nat] <==> NeedsEntity(c, restricted)
  {
    if (c as nat) < ENTITY_RANGE {
      assert (c as nat) as char == c;
    }
  }

  lemma RunEscaped(v: string, p: nat, q: nat, restricted: bool)
    requires p <= q <= |v| && forall k :: p <= k < q ==> !NeedsEntity(v[k], restricted)
    ensures Escape(v[..q], restricted) == Escape(v[..p], restricted) + v[p..q]
  {
    assert v[..q] == v[..p] + v[p..q];
    EscapeConcat(v[..p], v[p..q], restricted);
    PlainRun(v[p..q], restricted);
  }

  lemma OneEscaped(v: string, p: nat, restricted: bool)
    requires p < |v|
    ensures Escape(v[..p + 1], restricted) == Escape(v[..p], restricted) + EscapeChar(v[p], restricted)
  {
    assert v[..p + 1] == v[..p] + [v[p]];
    EscapeConcat(v[..p], [v[p]], restricted);
    assert [v[p]][1..] == "" && EscapeChar(v[p], restricted) + "" == EscapeChar(v[p], restricted);
  }

  lemma EntityText(i: nat, restricted: bool)
    requires i < |ENTITIES| && NeedsEntity(ENTITIES[i].value, restricted)
    ensures EscapeChar(ENTITIES[i].value, restricted) == "&" + ENTITIES[i].pattern + ";"
  {
  }

  lemma Regroup(b: string, u: string, v: string, w: string)
    ensures b + u + v + w == b + (u + v + w) && u + v + w == u + (v + w)
  {
  }

  lemma OpenRegroup(b: string, gap: string, name: string, attributes: string)
    ensures b + gap + "<" + name + attributes == b + (gap + ("<" + (name + attributes)))
  {
  }

  lemma EmptyList(compact: bool, depth: nat, st: Layout)
    ensures PrintList([], compact, depth, st) == Printed("", st)
  {
  }

  lemma SiblingText(c: string, open: bool, head: string, rest: string)
    ensures c + Sealing(open) + head + rest == c + Sealing(open) + (head + rest)
  {
  }

  /** The parts that the events of an element print are the text of the element. */
  lemma ElementText(a: string, b: string, c: string, d: Dom, compact: bool, depth: nat, st: Layout)
    requires d.Element?
    requires b == a + (Break(compact, depth, st) + ("<" + (d.name + PrintAttributes(d.attributes))))
    requires var inner := PrintList(d.kids, compact, depth + 1, st.(first := false));
      c == b + (if d.kids == [] then "" else ">") + inner.text
        + (if d.kids == [] then "/>" else Break(compact, depth, inner.layout.(first := false)) + ("</" + d.name + ">"))
        + LastBreak(compact, depth)
    requires PrintList(d.kids, compact, depth + 1, st.(first := false)).layout.first == false
    ensures c == a + PrintNode(d, compact, depth, st).text
  {
    hide Break, PrintAttributes, LastBreak, PrintList;
    var inner := PrintList(d.kids, compact, depth + 1, st.(first := false));
    var gap, tag, tail := Break(compact, depth, st), PrintAttributes(d.attributes), LastBreak(compact, depth);
    if d.kids == [] {
      EmptyList(compact, depth + 1, st.(first := false));
      assert a + (gap + ("<" + (d.name + tag))) + "" + "" + "/>" + tail ==
        a + (gap + ("<" + (d.name + (tag + ("/>" + tail)))));
    } else {
      var close := Break(compact, depth, inner.layout) + ("</" + d.name + ">");
      assert inner.layout.(first := false) == inner.layout;
      assert a + (gap + ("<" + (d.name + tag))) + ">" + inner.text + close + tail
        == a + (gap + ("<" + (d.name + (tag + (">" + (inner.text + close) + tail)))));
    }
  }
}
