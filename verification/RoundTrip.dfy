/** Printing a document and parsing the output gives the document back. */
module RoundTrip {
  import opened Options
  import opened Text
  import opened Entities
  import opened StrPairs
  import opened PrintSpec
  import P = ParserSpec

  // ----- when a parsed node stands for a value -----

  ghost predicate SpanReads(s: string, span: Span, v: string) {
    span.start <= span.end <= |s| && Meaning(s, span) == Some(v)
  }

  /** A name carries no flags: it is read as it stands. */
  ghost predicate NameReads(s: string, span: Span, name: string) {
    span.flags == PLAIN && span.start <= span.end <= |s| && s[span.start..span.end] == name
  }

  ghost predicate AttributesRead(s: string, parsed: seq<P.Attribute>, attributes: seq<Pair>) {
    |parsed| == |attributes| &&
    forall k :: 0 <= k < |parsed| ==>
      NameReads(s, parsed[k].name, attributes[k].name) && SpanReads(s, parsed[k].value, attributes[k].value)
  }

  /** The lazily decoded strings of `n` and of everything below it are those of `d`. */
  ghost predicate Reads(s: string, n: P.Node, d: Dom)
    decreases d
  {
    match d
    case Text(v, cdata) => n.Text? && n.cdata == cdata && SpanReads(s, n.value, v)
    case Comment(v) => n.Comment? && SpanReads(s, n.value, v)
    case Declaration(v) => n.Declaration? && SpanReads(s, n.value, v)
    case Unknown(v) => n.Unknown? && SpanReads(s, n.value, v)
    case Element(name, attributes, kids) =>
      n.Element? && NameReads(s, n.name, name) && AttributesRead(s, n.attributes, attributes) &&
      ReadsList(s, n.kids, kids)
  }

  ghost predicate ReadsList(s: string, ns: seq<P.Node>, ds: seq<Dom>)
    decreases ds
  {
    if ds == [] then ns == []
    else ns != [] && Reads(s, ns[0], ds[0]) && ReadsList(s, ns[1..], ds[1..])
  }

  // ----- single spans -----

  /** Text without a carriage return is its own newline normalisation. */
  lemma {:induction false} CleanReading(s: string, i: nat)
    requires i <= |s| && CR !in s
    ensures Decode(s, i, i, NEWLINES) == Some(s[i..])
    decreases |s| - i
  {
    if i < |s| {
      CleanReading(s, i + 1);
      assert s[i..] == [s[i]] + s[i + 1..];
    } else {
      assert s[i..] == [];
    }
  }

  /** The first terminator behind a free text is the one that follows it: the last byte of the
  terminator is not among its other bytes, so none can straddle the end of the text. */
  lemma FindAfter(s: string, p: nat, v: string, w: string)
    requires HasAt(s, p, v + w) && Free(v, w) && w != []
    requires forall j :: 0 <= j < |w| - 1 ==> w[j] != w[|w| - 1]
    ensures Find(s, p, w) == Some(p + |v|)
    ensures s[p..p + |v|] == v
  {
    HasAtConcat(s, p, v, w);
    forall k | p <= k < p + |v| ensures !HasAt(s, k, w) {
      if k + |w| <= p + |v| {
        HasAtInside(s, p, v, k, w);
      } else if k + |w| <= |s| {
        HasAtChar(s, p + |v|, w, k + |w| - 1 - (p + |v|));
        assert s[k + |w| - 1] != w[|w| - 1];
        assert s[k..k + |w|][|w| - 1] == s[k + |w| - 1];
      }
    }
    FindIs(s, p, p + |v|, w);
  }

  lemma SpanParsed(s: string, p: nat, v: string, w: string, error: P.Error, make: Span -> P.Node)
    requires HasAt(s, p, v + w) && Free(v, w) && w != [] && CR !in v
    requires forall j :: 0 <= j < |w| - 1 ==> w[j] != w[|w| - 1]
    ensures P.ParseSpan(s, p, w, error, make) == P.Parsed(make(Span(p, p + |v|, NEWLINES)), None, p + |v| + |w|)
    ensures SpanReads(s, Span(p, p + |v|, NEWLINES), v)
  {
    FindAfter(s, p, v, w);
    CleanReading(v, 0);
    assert v[0..] == v;
  }

  lemma NameParsed(s: string, p: nat, name: string)
    requires LegalName(name) && HasAt(s, p, name) && !IsNameChar(At(s, p + |name|))
    ensures p < |s| && IsAlpha(s[p]) && NameEnd(s, p) == p + |name|
    ensures NameReads(s, Span(p, p + |name|, PLAIN), name)
  {
    forall k | 0 <= k < |name| ensures s[p + k] == name[k] { HasAtChar(s, p, name, k); }
    assert forall k :: p <= k < p + |name| ==> s[k] == name[k - p];
    NameEndIs(s, p, p + |name|);
  }

  lemma NotSpace(s: string, p: nat)
    requires p < |s| && !IsSpace(s[p])
    ensures SkipSpace(s, p) == p
  {
  }

  // ----- attributes -----

  /** What is printed behind the name of one attribute. */
  function AfterName(a: Pair): string {
    "=\"" + (Escape(a.value, false) + "\"")
  }

  lemma AttributeParts(a: Pair)
    ensures PrintAttribute(a) == " " + (a.name + AfterName(a))
  {
    var v := Escape(a.value, false);
    assert " " + a.name + "=\"" + v + "\"" == " " + (a.name + ("=\"" + (v + "\"")));
  }

  lemma AttributeParsed(s: string, p: nat, a: Pair) returns (parsed: P.Attribute)
    requires LegalName(a.name) && Clean(a.value) && HasAt(s, p, PrintAttribute(a))
    ensures p + 1 < |s| && SkipSpace(s, p) == p + 1 && IsAlpha(s[p + 1])
    ensures P.ParseAttribute(s, p + 1) == P.OneAttribute(parsed, p + |PrintAttribute(a)|)
    ensures NameReads(s, parsed.name, a.name) && SpanReads(s, parsed.value, a.value)
  {
    hide EscapeChar, Escape, SpanReads, LegalName, HasAt, Find, NameEnd, SkipSpace, P.ParseAttribute;
    var v := Escape(a.value, false);
    AttributeParts(a);
    HasAtConcat(s, p, " ", a.name + AfterName(a));
    HasAtChar(s, p, " ", 0);
    HasAtConcat(s, p + 1, a.name, AfterName(a));
    var e := p + 1 + |a.name|;
    HasAtConcat(s, e, "=\"", v + "\"");
    HasAtChar(s, e, "=\"", 0);
    HasAtChar(s, e, "=\"", 1);
    NameParsed(s, p + 1, a.name);
    SkipSpaceIs(s, p, p + 1);
    NotSpace(s, e);
    NotSpace(s, e + 1);
    ValueParsed(s, e + 2, a.value);
    parsed := AttributeAt(s, p + 1, e, e + 2 + |v|);
  }

  lemma AttributeAt(s: string, p: nat, e: nat, v: nat) returns (parsed: P.Attribute)
    requires p < |s| && IsAlpha(s[p]) && NameEnd(s, p) == e
    requires SkipSpace(s, e) == e && At(s, e) == '=' && e + 2 <= |s|
    requires SkipSpace(s, e + 1) == e + 1 && At(s, e + 1) == '\"' && Find(s, e + 2, ['\"']) == Some(v)
    ensures parsed == P.Attribute(Span(p, e, PLAIN), Span(e + 2, v, BOTH))
    ensures P.ParseAttribute(s, p) == P.OneAttribute(parsed, v + 1)
  {
    parsed := P.Attribute(Span(p, e, PLAIN), Span(e + 2, v, BOTH));
  }

  /** A span over escaped text reads as what was escaped. */
  lemma EscapedSpan(s: string, p: nat, v: string, restricted: bool)
    requires Clean(v) && HasAt(s, p, Escape(v, restricted))
    ensures SpanReads(s, Span(p, p + |Escape(v, restricted)|, BOTH), v)
  {
    hide Escape, Decode;
    var e := Escape(v, restricted);
    EscapeUndone(e, 0, 0, v, restricted);
    assert e[0..] == e && s[p..p + |e|] == e;
  }

  lemma ValueParsed(s: string, p: nat, v: string)
    requires Clean(v) && HasAt(s, p, Escape(v, false) + "\"")
    ensures p <= |s| && Find(s, p, ['\"']) == Some(p + |Escape(v, false)|)
    ensures SpanReads(s, Span(p, p + |Escape(v, false)|, BOTH), v)
  {
    hide Escape, Find, Free, SpanReads, Clean;
    var e := Escape(v, false);
    EscapeSafe(v, false);
    QuoteFree(e);
    FindAfter(s, p, e, "\"");
    HasAtConcat(s, p, e, "\"");
    HasAtBound(s, p, e + "\"");
    EscapedSpan(s, p, v, false);
    assert ['\"'] == "\"";
  }

  lemma QuoteFree(v: string)
    requires '\"' !in v
    ensures Free(v, "\"")
  {
    forall k | 0 <= k <= |v| ensures !HasAt(v, k, "\"") {
      if HasAt(v, k, "\"") { HasAtChar(v, k, "\"", 0); }
    }
  }

  lemma FirstLegal(before: seq<Pair>, attributes: seq<Pair>)
    requires attributes != [] && LegalAttributes(before + attributes)
    ensures LegalName(attributes[0].name) && Clean(attributes[0].value)
  {
    assert (before + attributes)[|before|] == attributes[0];
  }

  lemma ReadOneMore(s: string, read: seq<P.Attribute>, before: seq<Pair>, one: P.Attribute, a: Pair)
    requires AttributesRead(s, read, before) && NameReads(s, one.name, a.name) && SpanReads(s, one.value, a.value)
    ensures AttributesRead(s, read + [one], before + [a])
  {
  }

  lemma NewName(s: string, read: seq<P.Attribute>, before: seq<Pair>, attributes: seq<Pair>, name: Span)
    requires attributes != [] && LegalAttributes(before + attributes) && AttributesRead(s, read, before)
    requires NameReads(s, name, attributes[0].name)
    ensures P.FirstNamed(s, read, P.Slice(s, name), 0).None?
  {
    assert (before + attributes)[|before|] == attributes[0];
    assert forall k :: 0 <= k < |read| ==> (before + attributes)[k] == before[k];
  }

  lemma AttributesSplit(attributes: seq<Pair>)
    ensures attributes == [] ==> PrintAttributes(attributes) == ""
    ensures attributes != [] ==>
      PrintAttributes(attributes) == PrintAttribute(attributes[0]) + PrintAttributes(attributes[1..])
  {
    hide PrintAttribute;
  }

  /** Attributes are read up to the end of the tag, whatever has been read before them. */
  lemma {:induction false} AttributesParsed(s: string, p: nat, attributes: seq<Pair>, closing: P.Closing,
      read: seq<P.Attribute>, before: seq<Pair>) returns (parsed: seq<P.Attribute>)
    requires LegalAttributes(before + attributes) && HasAt(s, p, PrintAttributes(attributes))
    requires AttributesRead(s, read, before)
    ensures AttributesRead(s, parsed, before + attributes)
    ensures P.ParseAttributes(s, p, closing, read)
      == P.ParseAttributes(s, p + |PrintAttributes(attributes)|, closing, parsed)
    decreases |attributes|
  {
    hide PrintAttribute, PrintAttributes, SpanReads, NameReads, P.ParseAttribute, P.ParseAttributes, P.Slice, HasAt,
      LegalName, Clean, SkipSpace, LegalAttributes, AttributesRead;
    AttributesSplit(attributes);
    if attributes == [] {
      parsed := read;
      assert before + attributes == before;
    } else {
      var a, rest := attributes[0], attributes[1..];
      assert before + [a] + rest == before + attributes;
      FirstLegal(before, attributes);
      HasAtConcat(s, p, PrintAttribute(a), PrintAttributes(rest));
      var one := AttributeParsed(s, p, a);
      NewName(s, read, before, attributes, one.name);
      AttributeStep(s, p, p + |PrintAttribute(a)|, closing, read, one);
      ReadOneMore(s, read, before, one, a);
      parsed := AttributesParsed(s, p + |PrintAttribute(a)|, rest, closing, read + [one], before + [a]);
    }
  }

  lemma AttributeStep(s: string, p: nat, next: nat, closing: P.Closing, read: seq<P.Attribute>, one: P.Attribute)
    requires p + 1 < |s| && SkipSpace(s, p) == p + 1 && IsAlpha(s[p + 1])
    requires P.ParseAttribute(s, p + 1) == P.OneAttribute(one, next)
    requires P.FirstNamed(s, read, P.Slice(s, one.name), 0).None?
    ensures next <= |s|
    ensures P.ParseAttributes(s, p, closing, read) == P.ParseAttributes(s, next, closing, read + [one])
  {
    hide P.ParseAttribute, P.FirstNamed;
  }

  // ----- one node -----

  /** What `ParseList` does with a node that is neither an end tag nor badly closed. */
  lemma NodeStep(s: string, p: nat, kind: P.Kind, q: nat, n: P.Node, endTag: Option<Span>, next: nat)
    requires p <= |s| && P.Identify(s, p) == P.Identified(kind, q)
    requires P.ParseNode(s, kind, q) == P.Parsed(n, endTag, next)
    requires P.EndTagFits(s, n, endTag) && (n.Element? ==> n.closing != P.CLOSING)
    ensures next <= |s| && P.ParseList(s, p) == P.Before([n], P.ParseList(s, next))
  {
    hide P.ParseNode, P.Identify, P.EndTagFits;
  }

  function Header(d: Dom): string {
    match d
    case Text(_, _) => "<![CDATA["
    case Comment(_) => "<!--"
    case Declaration(_) => "<?"
    case Unknown(_) => "<!"
    case Element(_, _, _) => "<"
  }

  function Terminator(d: Dom): string {
    match d
    case Text(_, _) => "]]>"
    case Comment(_) => "-->"
    case Declaration(_) => "?>"
    case Unknown(_) => ">"
    case Element(_, _, _) => ""
  }

  /** The break in front of a node: character data is never broken off. */
  function Lead(d: Dom, compact: bool, depth: nat, st: Layout): (r: string)
    ensures forall k :: 0 <= k < |r| ==> IsSpace(r[k])
  {
    if d.Text? then "" else Break(compact, depth, st)
  }

  function KindOf(d: Dom): P.Kind {
    match d
    case Text(_, cdata) => if cdata then P.CDataKind else P.TextKind
    case Comment(_) => P.CommentKind
    case Declaration(_) => P.DeclarationKind
    case Unknown(_) => P.UnknownKind
    case Element(_, _, _) => P.ElementKind
  }

  /** Everything printed for a node behind its break and header. */
  function Behind(d: Dom, compact: bool, depth: nat, st: Layout): string {
    match d
    case Element(name, attributes, kids) =>
      var inner := PrintList(kids, compact, depth + 1, st.(first := false));
      name + (PrintAttributes(attributes) +
        (PrintContent(name, kids, compact, depth, inner) + LastBreak(compact, depth)))
    case _ => d.value + Terminator(d)
  }

  lemma MarkupShape(d: Dom, compact: bool, depth: nat, st: Layout)
    requires !PlainText(d)
    ensures PrintNode(d, compact, depth, st).text ==
      Lead(d, compact, depth, st) + (Header(d) + Behind(d, compact, depth, st))
  {
    hide Break, LastBreak, PrintContent, PrintAttributes;
    if d.Text? {
      assert "<![CDATA[" + (d.value + "]]>") == "" + ("<![CDATA[" + (d.value + "]]>"));
    }
  }

  /** Markup starts with its break, a `<` and at least one more byte. */
  lemma MarkupStart(s: string, p: nat, d: Dom, compact: bool, depth: nat, st: Layout)
    requires !PlainText(d) && Printable(d) && HasAt(s, p, PrintNode(d, compact, depth, st).text)
    ensures var q := p + |Lead(d, compact, depth, st)|;
      q + |Header(d)| < |s| && s[q] == '<' && SkipSpace(s, p) == q &&
      HasAt(s, q, Header(d)) && HasAt(s, q + |Header(d)|, Behind(d, compact, depth, st))
  {
    hide Break, PrintNode, Printable, Behind, Lead, Header, HasAt;
    BehindHeader(d, compact, depth, st);
    var lead := Lead(d, compact, depth, st);
    var q := p + |lead|;
    MarkupShape(d, compact, depth, st);
    HasAtConcat(s, p, lead, Header(d) + Behind(d, compact, depth, st));
    HasAtConcat(s, q, Header(d), Behind(d, compact, depth, st));
    HasAtChar(s, q, Header(d), 0);
    HasAtChar(s, q + |Header(d)|, Behind(d, compact, depth, st), 0);
    LeadSpaces(s, p, lead);
    SkipSpaceIs(s, p, q);
  }

  lemma BehindHeader(d: Dom, compact: bool, depth: nat, st: Layout)
    requires Printable(d)
    ensures 1 <= |Behind(d, compact, depth, st)| && 1 <= |Header(d)| && Header(d)[0] == '<'
  {
    hide PrintContent, PrintAttributes, LastBreak, Clean, Free, LegalAttributes, PrintableList;
  }

  lemma LeadSpaces(s: string, p: nat, lead: string)
    requires HasAt(s, p, lead) && forall k :: 0 <= k < |lead| ==> IsSpace(lead[k])
    ensures forall k :: p <= k < p + |lead| ==> IsSpace(s[k])
  {
    forall k | p <= k < p + |lead| ensures IsSpace(s[k]) {
      HasAtChar(s, p, lead, k - p);
    }
  }

  /** The header tells the kind of a printable node. */
  lemma MarkupIdentified(s: string, p: nat, d: Dom, compact: bool, depth: nat, st: Layout)
    requires !PlainText(d) && Printable(d) && HasAt(s, p, PrintNode(d, compact, depth, st).text)
    ensures p <= |s| && P.Identify(s, p)
      == P.Identified(KindOf(d), p + |Lead(d, compact, depth, st)| + |Header(d)|)
  {
    hide PrintNode, Behind, Lead, LegalAttributes, PrintableList, Clean, HasAt, SkipSpace, LegalName, Free;
    MarkupStart(s, p, d, compact, depth, st);
    var q := p + |Lead(d, compact, depth, st)|;
    if d.Text? {
      HeaderDiffers(s, q, d, 1);
      HeaderDiffers(s, q, d, 2);
    } else if d.Comment? {
      HeaderDiffers(s, q, d, 1);
    } else if d.Unknown? {
      HeaderDiffers(s, q, d, 1);
      UnknownHeader(s, q, d.value, compact, depth, st);
    } else if d.Element? {
      ElementHeader(s, q, d, compact, depth, st);
    }
    HeadersTell(s, p, q, d);
  }

  lemma HeadersTell(s: string, p: nat, q: nat, d: Dom)
    requires p <= |s| && SkipSpace(s, p) == q < |s| && s[q] == '<' && !PlainText(d) && HasAt(s, q, Header(d))
    requires d.Text? ==> !HasAt(s, q, "<?") && !HasAt(s, q, "<!--")
    requires d.Comment? ==> !HasAt(s, q, "<?")
    requires d.Unknown? ==> !HasAt(s, q, "<?") && !HasAt(s, q, "<!--") && !HasAt(s, q, "<![CDATA[")
    requires d.Element? ==>
      !HasAt(s, q, "<?") && !HasAt(s, q, "<!--") && !HasAt(s, q, "<![CDATA[") && !HasAt(s, q, "<!")
    ensures P.Identify(s, p) == P.Identified(KindOf(d), q + |Header(d)|)
  {
    hide HasAt, SkipSpace;
  }

  /** The byte at `k` of the header, and so no header that differs there. */
  lemma HeaderDiffers(s: string, q: nat, d: Dom, k: nat)
    requires HasAt(s, q, Header(d)) && k < |Header(d)|
    ensures q + k < |s| && s[q + k] == Header(d)[k]
    ensures forall w: string {:trigger HasAt(s, q, w)} :: k < |w| && w[k] != Header(d)[k] ==> !HasAt(s, q, w)
  {
    HasAtChar(s, q, Header(d), k);
    forall w: string {:trigger HasAt(s, q, w)} | k < |w| && w[k] != Header(d)[k] ensures !HasAt(s, q, w) {
      if q + |w| <= |s| {
        assert s[q..q + |w|][k] == s[q + k];
      }
    }
  }

  lemma UnknownHeader(s: string, q: nat, v: string, compact: bool, depth: nat, st: Layout)
    requires HasAt(s, q, "<!") && HasAt(s, q + 2, Behind(Unknown(v), compact, depth, st)) && Printable(Unknown(v))
    ensures !HasAt(s, q, "<!--") && !HasAt(s, q, "<![CDATA[")
  {
    assert Behind(Unknown(v), compact, depth, st) == v + ">";
    HasAtConcat(s, q + 2, v, ">");
    NotExtended(s, q, v, "--");
    NotExtended(s, q, v, "[CDATA[");
    assert "<!--" == "<!" + "--" && "<![CDATA[" == "<!" + "[CDATA[";
    HasAtConcat(s, q, "<!", "--");
    HasAtConcat(s, q, "<!", "[CDATA[");
  }

  /** A body that does not start with `w` is not followed into it by the closing `>`. */
  lemma NotExtended(s: string, q: nat, v: string, w: string)
    requires HasAt(s, q + 2, v) && HasAt(s, q + 2 + |v|, ">") && !HasAt(v, 0, w) && '>' !in w
    ensures !HasAt(s, q + 2, w)
  {
    if |w| <= |v| {
      HasAtInside(s, q + 2, v, q + 2, w);
    } else if q + 2 + |w| <= |s| {
      HasAtChar(s, q + 2 + |v|, ">", 0);
      assert s[q + 2..q + 2 + |w|][|v|] == s[q + 2 + |v|] == '>';
    }
  }

  lemma ElementHeader(s: string, q: nat, d: Dom, compact: bool, depth: nat, st: Layout)
    requires d.Element? && LegalName(d.name) && q < |s| && s[q] == '<'
    requires HasAt(s, q + 1, Behind(d, compact, depth, st))
    ensures !HasAt(s, q, "<?") && !HasAt(s, q, "<!--") && !HasAt(s, q, "<![CDATA[") && !HasAt(s, q, "<!")
  {
    hide Behind, HasAt;
    BehindBegins(d, compact, depth, st);
    HasAtChar(s, q + 1, Behind(d, compact, depth, st), 0);
    NotHasAt(s, q, "<?", 1);
    NotHasAt(s, q, "<!--", 1);
    NotHasAt(s, q, "<![CDATA[", 1);
    NotHasAt(s, q, "<!", 1);
  }

  lemma BehindBegins(d: Dom, compact: bool, depth: nat, st: Layout)
    requires d.Element? && LegalName(d.name)
    ensures Behind(d, compact, depth, st) != "" && IsAlpha(Behind(d, compact, depth, st)[0])
  {
    hide PrintAttributes, PrintContent, LastBreak;
  }

  /** The node that comments, declarations, unknowns and character data parse to. */
  function LeafNode(d: Dom, span: Span): P.Node
    requires !d.Element?
  {
    match d
    case Text(_, cdata) => P.Text(span, cdata)
    case Comment(_) => P.Comment(span)
    case Declaration(_) => P.Declaration(span)
    case Unknown(_) => P.Unknown(span)
  }

  lemma LeafParsed(s: string, p: nat, d: Dom, compact: bool, depth: nat, st: Layout) returns (n: P.Node)
    requires !PlainText(d) && !d.Element? && Printable(d) && HasAt(s, p, PrintNode(d, compact, depth, st).text)
    ensures !n.Element? && Reads(s, n, d)
    ensures var next := p + |PrintNode(d, compact, depth, st).text|;
      next <= |s| && P.ParseList(s, p) == P.Before([n], P.ParseList(s, next))
  {
    hide P.Identify, P.ParseNode, P.ParseList, PrintNode, Lead, Header, Terminator, SpanReads, HasAt, Printable;
    MarkupShape(d, compact, depth, st);
    MarkupStart(s, p, d, compact, depth, st);
    MarkupIdentified(s, p, d, compact, depth, st);
    var q := p + |Lead(d, compact, depth, st)| + |Header(d)|;
    n := LeafNode(d, Span(q, q + |d.value|, NEWLINES));
    LeafBody(s, q, d);
    NodeStep(s, p, KindOf(d), q, n, None, q + |d.value| + |Terminator(d)|);
  }

  lemma LeafBody(s: string, q: nat, d: Dom)
    requires !PlainText(d) && !d.Element? && Printable(d) && HasAt(s, q, d.value + Terminator(d))
    ensures q <= |s| && P.ParseNode(s, KindOf(d), q)
      == P.Parsed(LeafNode(d, Span(q, q + |d.value|, NEWLINES)), None, q + |d.value| + |Terminator(d)|)
    ensures SpanReads(s, Span(q, q + |d.value|, NEWLINES), d.value)
  {
    hide P.ParseSpan, SpanReads, HasAt;
    match d
    case Text(v, _) => SpanParsed(s, q, v, "]]>", P.PARSING_CDATA, x => P.Text(x, true));
    case Comment(v) => SpanParsed(s, q, v, "-->", P.PARSING_COMMENT, x => P.Comment(x));
    case Declaration(v) => SpanParsed(s, q, v, "?>", P.PARSING_DECLARATION, x => P.Declaration(x));
    case Unknown(v) => SpanParsed(s, q, v, ">", P.PARSING_UNKNOWN, x => P.Unknown(x));
  }

  /** Plain text is read up to the markup that follows it at once. */
  lemma PlainTextParsed(s: string, p: nat, v: string) returns (n: P.Node)
    requires Clean(v) && !Blank(v) && HasAt(s, p, Escape(v, true))
    requires At(s, p + |Escape(v, true)|) == '<' && p + |Escape(v, true)| + 1 < |s|
    ensures n == P.Text(Span(p, p + |Escape(v, true)|, BOTH), false) && SpanReads(s, n.value, v)
    ensures P.ParseList(s, p) == P.Before([n], P.ParseList(s, p + |Escape(v, true)|))
  {
    hide Escape, SpanReads, P.ParseList, HasAt, SkipSpace, Find, P.Identify;
    var e := Escape(v, true);
    var q := p + |e|;
    n := P.Text(Span(p, q, BOTH), false);
    EscapeSafe(v, true);
    var k := EscapeNotBlank(v, true);
    TextInFront(s, p, e, k);
    TextIdentified(s, p, SkipSpace(s, p));
    assert P.ParseNode(s, P.TextKind, p) == P.Parsed(n, None, q);
    EscapedSpan(s, p, v, true);
    NodeStep(s, p, P.TextKind, p, n, None, q);
  }

  /** A text without the opening bracket, up to that bracket, of which the byte `k` is no white space. */
  lemma TextInFront(s: string, p: nat, e: string, k: nat)
    requires HasAt(s, p, e) && '<' !in e && k < |e| && !IsSpace(e[k]) && At(s, p + |e|) == '<'
    ensures p < |s| && s[p] != '<' && SkipSpace(s, p) < |s| && s[SkipSpace(s, p)] != '<'
    ensures Find(s, p, "<") == Some(p + |e|)
  {
    hide HasAt, SkipSpace, Find;
    forall j: nat | p <= j < p + |e| ensures j < |s| && s[j] == e[j - p] && !HasAt(s, j, "<") {
      HasAtChar(s, p, e, j - p);
      NotHasAt(s, j, "<", 0);
    }
    assert s[p + k] == e[k] && SkipSpace(s, p) <= p + k;
    OneByte(s, p + |e|, '<');
    FindIs(s, p, p + |e|, "<");
  }

  lemma OneByte(s: string, p: nat, c: char)
    requires p < |s| && s[p] == c
    ensures HasAt(s, p, [c])
  {
    assert s[p..p + 1] == [c];
  }

  lemma TextIdentified(s: string, p: nat, r: nat)
    requires p <= |s| && SkipSpace(s, p) == r < |s| && s[r] != '<'
    ensures P.Identify(s, p) == P.Identified(P.TextKind, p)
  {
    forall w: string {:trigger HasAt(s, r, w)} | 0 < |w| && w[0] == '<' ensures !HasAt(s, r, w) {
      if r + |w| <= |s| {
        assert s[r..r + |w|][0] == s[r];
      }
    }
  }

  lemma {:induction false} EscapeNotBlank(v: string, restricted: bool) returns (k: nat)
    requires !Blank(v)
    ensures k < |Escape(v, restricted)| && !IsSpace(Escape(v, restricted)[k])
  {
    if !IsSpace(v[0]) {
      k := 0;
      assert Escape(v, restricted)[0] == EscapeChar(v[0], restricted)[0];
    } else {
      assert EscapeChar(v[0], restricted) == [v[0]];
      k := EscapeNotBlank(v[1..], restricted);
      k := k + 1;
    }
  }

  // ----- elements -----

  /** The tag of an element: its name, its attributes and how it ends. */
  lemma StartTagParsed(s: string, q: nat, name: string, attributes: seq<Pair>, content: string)
    returns (parsed: seq<P.Attribute>)
    requires LegalName(name) && LegalAttributes(attributes)
    requires HasAt(s, q, name + (PrintAttributes(attributes) + content))
    requires content == "/>" || (content != "" && content[0] == '>')
    ensures q < |s| && SkipSpace(s, q) == q && IsAlpha(s[q]) && s[q] != '/' && NameEnd(s, q) == q + |name|
    ensures AttributesRead(s, parsed, attributes) && NameReads(s, Span(q, q + |name|, PLAIN), name)
    ensures var c := q + |name| + |PrintAttributes(attributes)|;
      P.ParseAttributes(s, q + |name|, P.OPEN, [])
        == if content == "/>" then P.Tag(parsed, P.CLOSED, c + 2) else P.Tag(parsed, P.OPEN, c + 1)
  {
    hide AttributesRead, LegalAttributes, NameReads, HasAt, PrintAttributes, P.ParseAttributes, IsNameChar;
    var c := q + |name| + |PrintAttributes(attributes)|;
    HasAtConcat(s, q, name, PrintAttributes(attributes) + content);
    HasAtConcat(s, q + |name|, PrintAttributes(attributes), content);
    HasAtChar(s, q, name, 0);
    ContentStart(s, c, content);
    AfterNameByte(s, q + |name|, attributes, content);
    NameParsed(s, q, name);
    assert [] + attributes == attributes;
    NothingRead(s);
    parsed := AttributesParsed(s, q + |name|, attributes, P.OPEN, [], []);
    TagEnd(s, c, P.OPEN, parsed);
  }

  lemma ContentStart(s: string, c: nat, content: string)
    requires HasAt(s, c, content) && (content == "/>" || (content != "" && content[0] == '>'))
    ensures c < |s| && if content == "/>" then s[c] == '/' && At(s, c + 1) == '>' else s[c] == '>'
  {
    HasAtChar(s, c, content, 0);
    if content == "/>" {
      HasAtChar(s, c, content, 1);
    }
  }

  lemma NothingRead(s: string)
    ensures AttributesRead(s, [], [])
  {
  }

  lemma AfterNameByte(s: string, e: nat, attributes: seq<Pair>, content: string)
    requires HasAt(s, e, PrintAttributes(attributes)) && HasAt(s, e + |PrintAttributes(attributes)|, content)
    requires content != "" && (content[0] == '>' || content[0] == '/')
    ensures !IsNameChar(At(s, e))
  {
    if attributes == [] {
      HasAtChar(s, e, content, 0);
    } else {
      AttributeParts(attributes[0]);
      HasAtChar(s, e, PrintAttributes(attributes), 0);
    }
  }

  /** The end of a tag, where no attribute follows. */
  lemma TagEnd(s: string, c: nat, closing: P.Closing, read: seq<P.Attribute>)
    requires c < |s| && (s[c] == '>' || (s[c] == '/' && At(s, c + 1) == '>'))
    ensures P.ParseAttributes(s, c, closing, read)
      == if s[c] == '>' then P.Tag(read, closing, c + 1) else P.Tag(read, P.CLOSED, c + 2)
  {
    NotSpace(s, c);
  }

  function EndTag(name: string): string {
    "</" + name + ">"
  }

  /** An end tag, with white space in front, ends the list of its element. */
  lemma EndTagParsed(s: string, p: nat, space: string, name: string)
    requires LegalName(name) && HasAt(s, p, space + EndTag(name))
    requires forall k :: 0 <= k < |space| ==> IsSpace(space[k])
    ensures var start := p + |space| + 2;
      p <= |s| && P.ParseList(s, p) == P.Closed([], Span(start, start + |name|, PLAIN), start + |name| + 1) &&
      NameReads(s, Span(start, start + |name|, PLAIN), name) &&
      start < |s| && s[start - 1] == '/' && s[start - 2] == '<'
  {
    hide P.ParseAttributes, HasAt, P.ParseElement, NameEnd, SkipSpace, IsNameChar, P.Identify;
    var q := p + |space|;
    var start := q + 2;
    EndTagBytes(s, p, space, name);
    NameParsed(s, start, name);
    TagEnd(s, start + |name|, P.CLOSING, []);
    EndTagIdentified(s, p, q);
    var n := P.Element(Span(start, start + |name|, PLAIN), [], P.CLOSING, None, []);
    EndTagElement(s, q + 1, n, start + |name| + 1);
    assert P.ParseNode(s, P.ElementKind, q + 1) == P.Parsed(n, None, start + |name| + 1);
  }

  lemma EndTagBytes(s: string, p: nat, space: string, name: string)
    requires LegalName(name) && HasAt(s, p, space + EndTag(name))
    requires forall k :: 0 <= k < |space| ==> IsSpace(space[k])
    ensures var q := p + |space|;
      q + |name| + 2 < |s| && SkipSpace(s, p) == q && s[q] == '<' && s[q + 1] == '/' && SkipSpace(s, q + 1) == q + 1 &&
      HasAt(s, q + 2, name) && s[q + 2 + |name|] == '>' && !IsNameChar('>')
  {
    hide HasAt, LegalName;
    var q := p + |space|;
    assert EndTag(name) == "</" + (name + ">");
    HasAtConcat(s, p, space, EndTag(name));
    HasAtConcat(s, q, "</", name + ">");
    HasAtConcat(s, q + 2, name, ">");
    HasAtChar(s, q, "</", 0);
    HasAtChar(s, q, "</", 1);
    HasAtChar(s, q + 2 + |name|, ">", 0);
    LeadSpaces(s, p, space);
    SkipSpaceIs(s, p, q);
    NotSpace(s, q + 1);
  }

  lemma EndTagIdentified(s: string, p: nat, q: nat)
    requires p <= q && q + 1 < |s| && SkipSpace(s, p) == q && s[q] == '<' && s[q + 1] == '/'
    ensures P.Identify(s, p) == P.Identified(P.ElementKind, q + 1)
  {
    forall w: string {:trigger HasAt(s, q, w)} | 1 < |w| && w[1] != '/' ensures !HasAt(s, q, w) {
      if q + |w| <= |s| {
        assert s[q..q + |w|][1] == s[q + 1];
      }
    }
  }

  lemma EndTagElement(s: string, q: nat, n: P.Node, next: nat)
    requires q + 1 < |s| && SkipSpace(s, q) == q && s[q] == '/' && IsAlpha(s[q + 1])
    requires n == P.Element(Span(q + 1, NameEnd(s, q + 1), PLAIN), [], P.CLOSING, None, [])
    requires P.ParseAttributes(s, NameEnd(s, q + 1), P.CLOSING, []) == P.Tag([], P.CLOSING, next)
    ensures P.ParseElement(s, q) == P.Parsed(n, None, next)
  {
    hide P.ParseAttributes, P.ParseList;
  }

  /** Behind white space comes markup or the end of the text. */
  predicate Settled(s: string, p: nat) {
    p <= |s| && (SkipSpace(s, p) == |s| || s[SkipSpace(s, p)] == '<')
  }

  /** White space in front of markup does not matter to the list. */
  lemma LeadingSpace(s: string, p: nat)
    requires p < |s| && IsSpace(s[p]) && Settled(s, p + 1)
    ensures P.ParseList(s, p) == P.ParseList(s, p + 1)
  {
    hide P.ParseNode, HasAt, P.EndTagFits;
    assert SkipSpace(s, p) == SkipSpace(s, p + 1);
    assert P.Identify(s, p) == P.Identify(s, p + 1);
  }

  /** What must follow a list of nodes: markup or the end, and markup at once behind plain text. */
  ghost predicate Followed(s: string, q: nat, ds: seq<Dom>) {
    Settled(s, q) && (ds != [] && PlainText(ds[|ds| - 1]) ==> At(s, q) == '<' && q + 1 < |s|)
  }

  /** A printed list is followed in the right way, node by node. */
  lemma FollowedHead(s: string, p: nat, d: Dom, ds: seq<Dom>, compact: bool, depth: nat, st: Layout)
    requires PrintableList([d] + ds) && LayoutOk(depth, st) && (PlainText(d) ==> 0 < depth)
    requires var st' := PrintNode(d, compact, depth, st).layout;
      HasAt(s, p, PrintList(ds, compact, depth, st').text) &&
      Followed(s, p + |PrintList(ds, compact, depth, st').text|, [d] + ds)
    requires ds != [] && PlainText(ds[0]) ==> 0 < depth
    ensures PlainText(d) ==> At(s, p) == '<' && p + 1 < |s|
    ensures !(ds != [] && PlainText(ds[0])) ==> Settled(s, p)
  {
    hide Printable, PrintNode, HasAt, Settled;
    var st' := PrintNode(d, compact, depth, st).layout;
    if ds == [] {
      assert ([d] + ds)[|[d] + ds| - 1] == d;
    } else {
      assert ([d] + ds)[1..] == ds && ([d] + ds)[1] == ds[0] && ([d] + ds)[0] == d;
      LayoutKept(d, compact, depth, st);
      var head := PrintNode(ds[0], compact, depth, st');
      HasAtConcat(s, p, head.text, PrintList(ds[1..], compact, depth, head.layout).text);
      if !PlainText(ds[0]) {
        MarkupSettled(s, p, ds[0], compact, depth, st');
      }
    }
  }

  lemma MarkupSettled(s: string, p: nat, d: Dom, compact: bool, depth: nat, st: Layout)
    requires !PlainText(d) && Printable(d) && HasAt(s, p, PrintNode(d, compact, depth, st).text)
    ensures Settled(s, p) && (st.textDepth >= 0 ==> At(s, p) == '<' && p + 1 < |s|)
  {
    hide Printable, PrintNode, HasAt, SkipSpace, Break, Lead, Header;
    MarkupStart(s, p, d, compact, depth, st);
    LeadAndHeader(d, compact, depth, st);
  }

  lemma LeadAndHeader(d: Dom, compact: bool, depth: nat, st: Layout)
    ensures 1 <= |Header(d)| && (st.textDepth >= 0 ==> Lead(d, compact, depth, st) == "")
  {
  }

  lemma LastOfTail(ds: seq<Dom>, s: string, q: nat)
    requires ds != [] && Followed(s, q, ds)
    ensures Followed(s, q, ds[1..])
  {
  }

  /** A printed element parses to a node with its content. */
  lemma {:induction false} ElementParsed(s: string, p: nat, d: Dom, compact: bool, depth: nat, st: Layout)
      returns (n: P.Node)
    requires d.Element? && Printable(d) && LayoutOk(depth, st)
    requires HasAt(s, p, PrintNode(d, compact, depth, st).text)
    requires depth == 0 ==> Settled(s, p + |PrintNode(d, compact, depth, st).text|)
    ensures Reads(s, n, d)
    ensures var next := p + |PrintNode(d, compact, depth, st).text|;
      P.ParseList(s, p) == P.Before([n], P.ParseList(s, next))
    decreases d, 2
  {
    hide HasAt, PrintNode, PrintList, PrintContent, PrintAttributes, Break, P.ParseList, P.ParseElement, P.Identify,
      LegalName, LegalAttributes, PrintableList, NameReads, AttributesRead, LastBreak, Settled;
    MarkupShape(d, compact, depth, st);
    MarkupStart(s, p, d, compact, depth, st);
    MarkupIdentified(s, p, d, compact, depth, st);
    var q := p + |Lead(d, compact, depth, st)| + 1;
    var inner := PrintList(d.kids, compact, depth + 1, st.(first := false));
    var content := PrintContent(d.name, d.kids, compact, depth, inner);
    var tail := LastBreak(compact, depth);
    var body := d.name + (PrintAttributes(d.attributes) + content);
    assert Behind(d, compact, depth, st) == body + tail by {
      assert d.name + (PrintAttributes(d.attributes) + (content + tail)) == body + tail;
    }
    HasAtConcat(s, q, body, tail);
    var endTag;
    n, endTag := BodyParsed(s, q, d, compact, depth, st);
    NodeStep(s, p, P.ElementKind, q, n, endTag, q + |body|);
    TailSkipped(s, q + |body|, compact, depth);
  }

  /** The line break behind a top-level element is skipped. */
  lemma TailSkipped(s: string, p: nat, compact: bool, depth: nat)
    requires HasAt(s, p, LastBreak(compact, depth))
    requires depth == 0 ==> Settled(s, p + |LastBreak(compact, depth)|)
    ensures P.ParseList(s, p) == P.ParseList(s, p + |LastBreak(compact, depth)|)
  {
    hide P.ParseList, Settled;
    if LastBreak(compact, depth) != "" {
      HasAtChar(s, p, "\n", 0);
      LeadingSpace(s, p);
    }
  }

  /** The content of an element, from its `>` on: the children and the end tag behind them. */
  lemma {:induction false} ContentParsed(s: string, c: nat, d: Dom, compact: bool, depth: nat, st: Layout)
    returns (kids: seq<P.Node>, endTag: Span)
    requires d.Element? && d.kids != [] && LegalName(d.name) && PrintableList(d.kids) && LayoutOk(depth, st)
    requires var inner := PrintList(d.kids, compact, depth + 1, st.(first := false));
      HasAt(s, c, PrintContent(d.name, d.kids, compact, depth, inner))
    ensures ReadsList(s, kids, d.kids) && NameReads(s, endTag, d.name) && c + 1 < |s|
    ensures var inner := PrintList(d.kids, compact, depth + 1, st.(first := false));
      P.ParseList(s, c + 1) == P.Closed(kids, endTag, c + |PrintContent(d.name, d.kids, compact, depth, inner)|)
    decreases d, 0
  {
    hide HasAt, PrintList, PrintContent, EndTag, P.ParseList, LegalName, PrintableList, NameReads, Break, LayoutOk,
      Followed, ReadsList;
    var inner := PrintList(d.kids, compact, depth + 1, st.(first := false));
    var gap := Break(compact, depth, inner.layout);
    ContentParts(d, compact, depth, inner);
    BreakSpaces(compact, depth, inner.layout);
    HasAtConcat(s, c, ">", inner.text + (gap + EndTag(d.name)));
    HasAtConcat(s, c + 1, inner.text, gap + EndTag(d.name));
    var e := c + 1 + |inner.text|;
    EndTagParsed(s, e, gap, d.name);
    HasAtConcat(s, e, gap, EndTag(d.name));
    ContentFollowed(s, e, d.kids, compact, depth, st);
    DeeperLayout(depth, st);
    kids := ListParsed(s, c + 1, d.kids, compact, depth + 1, st.(first := false));
    var start := e + |gap| + 2;
    endTag := Span(start, start + |d.name|, PLAIN);
    NonEmptyContent(s, c + 1, d.kids, kids, endTag, start + |d.name| + 1);
  }

  lemma ContentParts(d: Dom, compact: bool, depth: nat, inner: Printed)
    requires d.Element? && d.kids != []
    ensures var gap := Break(compact, depth, inner.layout);
      PrintContent(d.name, d.kids, compact, depth, inner) == ">" + (inner.text + (gap + EndTag(d.name)))
    ensures |EndTag(d.name)| == |d.name| + 3
  {
    hide Break;
  }

  lemma BreakSpaces(compact: bool, depth: nat, st: Layout)
    ensures forall k :: 0 <= k < |Break(compact, depth, st)| ==> IsSpace(Break(compact, depth, st)[k])
  {
    hide Break;
  }

  lemma DeeperLayout(depth: nat, st: Layout)
    requires LayoutOk(depth, st)
    ensures LayoutOk(depth + 1, st.(first := false))
  {
  }

  lemma PrintableParts(d: Dom)
    requires d.Element? && Printable(d)
    ensures LegalName(d.name) && LegalAttributes(d.attributes) && PrintableList(d.kids)
  {
  }

  lemma {:induction false} BodyParsed(s: string, q: nat, d: Dom, compact: bool, depth: nat, st: Layout)
    returns (n: P.Node, endTag: Option<Span>)
    requires d.Element? && Printable(d) && LayoutOk(depth, st)
    requires var inner := PrintList(d.kids, compact, depth + 1, st.(first := false));
      HasAt(s, q, d.name + (PrintAttributes(d.attributes) + PrintContent(d.name, d.kids, compact, depth, inner)))
    ensures n.Element? && Reads(s, n, d) && P.EndTagFits(s, n, endTag) && n.closing != P.CLOSING
    ensures var inner := PrintList(d.kids, compact, depth + 1, st.(first := false));
      q <= |s| && P.ParseNode(s, P.ElementKind, q) == P.Parsed(n, endTag,
        q + |d.name + (PrintAttributes(d.attributes) + PrintContent(d.name, d.kids, compact, depth, inner))|)
    decreases d, 1
  {
    hide HasAt, Printable, PrintList, PrintAttributes, P.ParseNode, P.ParseList, P.ParseAttributes, LegalName,
      LegalAttributes, PrintableList, NameReads, AttributesRead, Break, SkipSpace, NameEnd, Find, LayoutOk, P.Slice,
      PrintContent, ReadsList;
    var inner := PrintList(d.kids, compact, depth + 1, st.(first := false));
    var content := PrintContent(d.name, d.kids, compact, depth, inner);
    PrintableParts(d);
    ContentForm(d, compact, depth, inner);
    var parsed := StartTagParsed(s, q, d.name, d.attributes, content);
    var c := q + |d.name| + |PrintAttributes(d.attributes)|;
    var name := Span(q, q + |d.name|, PLAIN);
    HasAtConcat(s, q, d.name, PrintAttributes(d.attributes) + content);
    HasAtConcat(s, q + |d.name|, PrintAttributes(d.attributes), content);
    if d.kids == [] {
      n, endTag := P.Element(name, parsed, P.CLOSED, None, []), None;
      ClosedElement(s, q, n, c + 2);
      ElementReads(s, n, d);
    } else {
      var kids, end := ContentParsed(s, c, d, compact, depth, st);
      endTag := Some(end);
      n := P.Element(name, parsed, P.OPEN, endTag, kids);
      OpenElement(s, q, n, c + 1, c + |content|);
      SameName(s, name, end, d.name);
      ElementReads(s, n, d);
    }
  }

  lemma ContentForm(d: Dom, compact: bool, depth: nat, inner: Printed)
    requires d.Element?
    ensures var content := PrintContent(d.name, d.kids, compact, depth, inner);
      if d.kids == [] then content == "/>" else content != "" && content != "/>" && content[0] == '>'
  {
    hide Break;
  }

  lemma ElementReads(s: string, n: P.Node, d: Dom)
    requires n.Element? && d.Element? && NameReads(s, n.name, d.name) && AttributesRead(s, n.attributes, d.attributes)
    requires if d.kids == [] then n.kids == [] else ReadsList(s, n.kids, d.kids)
    ensures Reads(s, n, d)
  {
    hide NameReads, AttributesRead;
  }

  lemma SameName(s: string, a: Span, b: Span, name: string)
    requires NameReads(s, a, name) && NameReads(s, b, name)
    ensures P.Slice(s, a) == P.Slice(s, b)
  {
  }

  lemma NonEmptyContent(s: string, c: nat, ds: seq<Dom>, kids: seq<P.Node>, endTag: Span, next: nat)
    requires c <= |s| && ds != [] && ReadsList(s, kids, ds)
    requires P.ParseList(s, c) == P.Before(kids, P.Closed([], endTag, next))
    ensures c < |s| && P.ParseList(s, c) == P.Closed(kids, endTag, next)
  {
    hide Reads, P.ParseNode;
    assert kids + [] == kids;
  }

  lemma ClosedElement(s: string, q: nat, n: P.Node, next: nat)
    requires q < |s| && SkipSpace(s, q) == q && IsAlpha(s[q]) && s[q] != '/'
    requires n.Element? && n == P.Element(Span(q, NameEnd(s, q), PLAIN), n.attributes, P.CLOSED, None, [])
    requires P.ParseAttributes(s, NameEnd(s, q), P.OPEN, []) == P.Tag(n.attributes, P.CLOSED, next)
    ensures P.ParseNode(s, P.ElementKind, q) == P.Parsed(n, None, next)
  {
    hide P.ParseAttributes, P.ParseList;
  }

  lemma OpenElement(s: string, q: nat, n: P.Node, c: nat, next: nat)
    requires q < |s| && SkipSpace(s, q) == q && IsAlpha(s[q]) && s[q] != '/' && c < |s|
    requires n.Element? && n.endName.Some?
    requires n == P.Element(Span(q, NameEnd(s, q), PLAIN), n.attributes, P.OPEN, n.endName, n.kids)
    requires P.ParseAttributes(s, NameEnd(s, q), P.OPEN, []) == P.Tag(n.attributes, P.OPEN, c)
    requires P.ParseList(s, c) == P.Closed(n.kids, n.endName.value, next)
    ensures P.ParseNode(s, P.ElementKind, q) == P.Parsed(n, n.endName, next)
  {
    hide P.ParseAttributes, P.ParseList;
  }

  /** Behind the children comes the end tag; with text in the element, it comes at once. */
  lemma ContentFollowed(s: string, e: nat, kids: seq<Dom>, compact: bool, depth: nat, st: Layout)
    requires kids != [] && LayoutOk(depth, st)
    requires var inner := PrintList(kids, compact, depth + 1, st.(first := false));
      var gap := Break(compact, depth, inner.layout);
      HasAt(s, e, gap) && e + |gap| + 1 < |s| && s[e + |gap|] == '<'
    ensures Followed(s, e, kids)
  {
    hide HasAt, PrintNode;
    var inner := PrintList(kids, compact, depth + 1, st.(first := false));
    var gap := Break(compact, depth, inner.layout);
    LeadSpaces(s, e, gap);
    SkipSpaceIs(s, e, e + |gap|);
    if PlainText(kids[|kids| - 1]) {
      LastTextHolds(kids, compact, depth + 1, st.(first := false));
    }
  }

  /** Plain text at the end of a list keeps the breaks off. */
  lemma {:induction false} LastTextHolds(ds: seq<Dom>, compact: bool, depth: nat, st: Layout)
    requires ds != [] && PlainText(ds[|ds| - 1]) && 0 < depth
    ensures PrintList(ds, compact, depth, st).layout.textDepth >= 0
    decreases |ds|
  {
    var head := PrintNode(ds[0], compact, depth, st);
    if |ds| > 1 {
      LastTextHolds(ds[1..], compact, depth, head.layout);
    } else {
      assert ds[1..] == [];
    }
  }

  /** A printed list of nodes parses to nodes that read as them, wherever it stands in the text. */
  lemma {:induction false} ListParsed(s: string, p: nat, ds: seq<Dom>, compact: bool, depth: nat, st: Layout)
    returns (ns: seq<P.Node>)
    requires PrintableList(ds) && LayoutOk(depth, st)
    requires depth == 0 ==> forall k :: 0 <= k < |ds| ==> !PlainText(ds[k])
    requires HasAt(s, p, PrintList(ds, compact, depth, st).text)
    requires Followed(s, p + |PrintList(ds, compact, depth, st).text|, ds)
    ensures ReadsList(s, ns, ds)
    ensures p <= |s| && P.ParseList(s, p) == P.Before(ns, P.ParseList(s, p + |PrintList(ds, compact, depth, st).text|))
    decreases ds, 0
  {
    hide HasAt, PrintNode, P.ParseList, Printable, Reads, Followed, Settled;
    HasAtBound(s, p, PrintList(ds, compact, depth, st).text);
    if ds == [] {
      ns := [];
      NoneBefore(P.ParseList(s, p));
    } else {
      var d, rest := ds[0], ds[1..];
      var head := PrintNode(d, compact, depth, st);
      var tail := PrintList(rest, compact, depth, head.layout);
      var next := p + |head.text|;
      HasAtConcat(s, p, head.text, tail.text);
      assert [d] + rest == ds;
      LayoutKept(d, compact, depth, st);
      FollowedHead(s, next, d, rest, compact, depth, st);
      LastOfTail(ds, s, next + |tail.text|);
      var n := HeadParsed(s, p, d, compact, depth, st);
      var more := ListParsed(s, next, rest, compact, depth, head.layout);
      ns := [n] + more;
      BeforeTwice([n], more, P.ParseList(s, next + |tail.text|));
    }
  }

  lemma {:induction false} HeadParsed(s: string, p: nat, d: Dom, compact: bool, depth: nat, st: Layout)
    returns (n: P.Node)
    requires Printable(d) && LayoutOk(depth, st) && HasAt(s, p, PrintNode(d, compact, depth, st).text)
    requires var next := p + |PrintNode(d, compact, depth, st).text|;
      (PlainText(d) ==> At(s, next) == '<' && next + 1 < |s|) && (depth == 0 ==> Settled(s, next))
    ensures Reads(s, n, d)
    ensures p <= |s| && P.ParseList(s, p) == P.Before([n], P.ParseList(s, p + |PrintNode(d, compact, depth, st).text|))
    decreases d, 3
  {
    hide HasAt, P.ParseList, Settled;
    HasAtBound(s, p, PrintNode(d, compact, depth, st).text);
    if PlainText(d) {
      n := PlainTextParsed(s, p, d.value);
    } else if d.Element? {
      n := ElementParsed(s, p, d, compact, depth, st);
    } else {
      n := LeafParsed(s, p, d, compact, depth, st);
    }
  }

  lemma NoneBefore(r: P.ListResult)
    ensures P.Before([], r) == r
  {
    assert [] + r.kids == r.kids;
  }

  lemma BeforeTwice(a: seq<P.Node>, b: seq<P.Node>, r: P.ListResult)
    ensures P.Before(a, P.Before(b, r)) == P.Before(a + b, r)
  {
    assert a + (b + r.kids) == (a + b) + r.kids;
  }

  // ----- the document -----

  /** Every printable document, printed compactly or with line breaks, parses without error to nodes
  whose decoded strings are the document again; the byte order mark survives too. */
  lemma DocumentRoundTrip(doc: seq<Dom>, bom: bool, compact: bool)
    requires PrintableDocument(doc)
    ensures NUL !in PrintDocument(doc, bom, compact)
    ensures var r := P.ParseDocument(PrintDocument(doc, bom, compact));
      r.Document? && r.error == P.NO_ERROR && r.bom == bom && ReadsList(r.buffer, r.kids, doc)
  {
    hide PrintNode, Printable, P.ParseList, Reads, HasAt;
    var s := PrintList(doc, compact, 0, START).text;
    var text := PrintDocument(doc, bom, compact);
    ListNoNul(doc, compact, 0, START);
    NotInConcat(if bom then BOM else "", s);
    DocumentStart(doc, bom, compact);
    WholeHasAt(s);
    EndSettled(s);
    var ns := ListParsed(s, 0, doc, compact, 0, START);
    EndOfList(s);
    assert ns + [] == ns;
  }

  lemma WholeHasAt(s: string)
    ensures HasAt(s, 0, s)
  {
    assert s[0..|s|] == s;
  }

  lemma EndSettled(s: string)
    ensures Settled(s, |s|)
  {
  }

  lemma EndOfList(s: string)
    ensures P.ParseList(s, |s|) == P.Stopped([], P.NO_ERROR)
  {
  }

  /** What `Parse` copies is the printed tree, whether or not a byte order mark stands in front. */
  lemma DocumentStart(doc: seq<Dom>, bom: bool, compact: bool)
    requires PrintableDocument(doc)
    ensures var s, text := PrintList(doc, compact, 0, START).text, PrintDocument(doc, bom, compact);
      SkipSpace(text, 0) == 0 && (HasAt(text, 0, BOM) <==> bom) && s != "" && text != "" &&
      text[if bom then |BOM| else 0..] == s && |text| == |s| + if bom then |BOM| else 0
  {
    hide PrintNode, Printable;
    var s, text := PrintList(doc, compact, 0, START).text, PrintDocument(doc, bom, compact);
    var head := PrintNode(doc[0], compact, 0, START);
    assert HasAt(s, 0, head.text) by { assert s[0..|head.text|] == head.text; }
    MarkupStart(s, 0, doc[0], compact, 0, START);
    assert s[0] == '<';
    if bom {
      assert text[0] == BOM[0] && text[0..|BOM|] == BOM;
    } else {
      assert text == s;
      assert |BOM| <= |text| ==> text[0..|BOM|][0] == text[0] != BOM[0];
    }
  }

  /** A node reads as one value at most. */
  lemma {:induction false} ReadsUnique(s: string, n: P.Node, d: Dom, e: Dom)
    requires Reads(s, n, d) && Reads(s, n, e)
    ensures d == e
    decreases d, 1
  {
    if d.Element? {
      assert e.Element? && d.name == e.name;
      assert d.attributes == e.attributes by {
        forall k | 0 <= k < |d.attributes| ensures d.attributes[k] == e.attributes[k] {
          assert NameReads(s, n.attributes[k].name, d.attributes[k].name);
        }
      }
      ReadsListUnique(s, n.kids, d.kids, e.kids);
    }
  }

  lemma {:induction false} ReadsListUnique(s: string, ns: seq<P.Node>, ds: seq<Dom>, es: seq<Dom>)
    requires ReadsList(s, ns, ds) && ReadsList(s, ns, es)
    ensures ds == es
    decreases ds, 0
  {
    if ds != [] {
      ReadsUnique(s, ns[0], ds[0], es[0]);
      ReadsListUnique(s, ns[1..], ds[1..], es[1..]);
      assert ds == [ds[0]] + ds[1..] && es == [es[0]] + es[1..];
    }
  }

  /** Different printable documents never print alike. */
  lemma PrintInjective(doc: seq<Dom>, other: seq<Dom>, bom: bool, compact: bool, compact': bool)
    requires PrintableDocument(doc) && PrintableDocument(other)
    requires PrintDocument(doc, bom, compact) == PrintDocument(other, bom, compact')
    ensures doc == other
  {
    hide ReadsList, PrintableDocument, PrintDocument, P.ParseDocument;
    DocumentRoundTrip(doc, bom, compact);
    DocumentRoundTrip(other, bom, compact');
    var r := P.ParseDocument(PrintDocument(doc, bom, compact));
    ReadsListUnique(r.buffer, r.kids, doc, other);
  }
}
