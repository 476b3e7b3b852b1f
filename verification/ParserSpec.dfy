/** What the recursive-descent parser of tinyxml2 computes, as functions over the whole text.

Positions stand for the `char*` cursor; a node keeps the spans its `StrPair`s were set to. */
module ParserSpec {
  import opened Options
  import opened Text
  import opened Entities
  import opened StrPairs
  import PrintSpec

  datatype Closing = OPEN | CLOSED | CLOSING

  datatype Attribute = Attribute(name: Span, value: Span)

  /** A parsed node. `endName` is where the name of the end tag stood: the program compares it and
  lets it go; here it stays, so that properties of the kept tree can be stated. */
  datatype Node =
    | Element(name: Span, attributes: seq<Attribute>, closing: Closing, endName: Option<Span>, kids: seq<Node>)
    | Text(value: Span, cdata: bool)
    | Comment(value: Span)
    | Declaration(value: Span)
    | Unknown(value: Span)

  datatype Error =
    | NO_ERROR | PARSING_ELEMENT | PARSING_ATTRIBUTE | PARSING_TEXT | PARSING_CDATA | PARSING_COMMENT
    | PARSING_DECLARATION | PARSING_UNKNOWN | EMPTY_DOCUMENT | MISMATCHED_ELEMENT | PARSING

  datatype Kind = DeclarationKind | CommentKind | CDataKind | UnknownKind | ElementKind | TextKind

  // ----- Identify -----

  datatype Identified = End | Identified(kind: Kind, p: nat)

  lemma Opens(s: string, q: nat, header: string)
    requires HasAt(s, q, header) && header != "" && header[0] == '<'
    ensures q + |header| <= |s| && s[q] == '<'
  {
    HasAtChar(s, q, header, 0);
  }

  function Identify(s: string, p: nat): (r: Identified)
    requires p <= |s|
    ensures r.Identified? ==> p <= r.p <= |s|
    ensures r.Identified? && r.kind != TextKind ==> SkipSpace(s, p) < r.p && At(s, SkipSpace(s, p)) == '<'
    ensures r.Identified? && r.kind == TextKind ==> r.p == p < |s| && s[p] != '<' && At(s, SkipSpace(s, p)) != '<'
  {
    var q := SkipSpace(s, p);
    if q == |s| then End
    else if HasAt(s, q, "<?") then
      Opens(s, q, "<?");
      Identified(DeclarationKind, q + 2)
    else if HasAt(s, q, "<!--") then
      Opens(s, q, "<!--");
      Identified(CommentKind, q + 4)
    else if HasAt(s, q, "<![CDATA[") then
      Opens(s, q, "<![CDATA[");
      Identified(CDataKind, q + 9)
    else if HasAt(s, q, "<!") then
      Opens(s, q, "<!");
      Identified(UnknownKind, q + 2)
    else if s[q] == '<' then Identified(ElementKind, q + 1)
    else Identified(TextKind, p)
  }

  // ----- attributes -----

  /** No attribute but an error, one attribute, or a null cursor in the check for duplicates. */
  datatype AttributeResult = NoAttribute | OneAttribute(attribute: Attribute, p: nat) | BrokenAttribute

  predicate IsQuote(c: char) {
    c == '\"' || c == '\''
  }

  /** `XMLAttribute::ParseDeep`. */
  function ParseAttribute(s: string, p: nat): (r: AttributeResult)
    requires p < |s| && IsAlpha(s[p])
    ensures !r.BrokenAttribute? && (r.OneAttribute? ==> p < r.p <= |s|)
  {
    var e := NameEnd(s, p);
    var eq := SkipSpace(s, e);
    if At(s, eq) != '=' then NoAttribute
    else
      var quote := SkipSpace(s, eq + 1);
      if !IsQuote(At(s, quote)) then NoAttribute
      else
        match Find(s, quote + 1, [At(s, quote)])
        case None => NoAttribute
        case Some(v) => OneAttribute(Attribute(Span(p, e, PLAIN), Span(quote + 1, v, BOTH)), v + 1)
  }

  function Slice(s: string, span: Span): string {
    if span.start <= span.end <= |s| then s[span.start..span.end] else ""
  }

  /** `FindAttribute`, from entry `i` on: the first attribute of that name. */
  function FirstNamed(s: string, attributes: seq<Attribute>, name: string, i: nat): (r: Option<nat>)
    requires i <= |attributes|
    ensures r.Some? ==> i <= r.value < |attributes| && Slice(s, attributes[r.value].name) == name
    ensures forall k :: i <= k < (if r.Some? then r.value else |attributes|) ==> Slice(s, attributes[k].name) != name
    decreases |attributes| - i
  {
    if i == |attributes| then None
    else if Slice(s, attributes[i].name) == name then Some(i)
    else FirstNamed(s, attributes, name, i + 1)
  }

  /** The attribute at `p`, which must have a new name. `Attribute` is asked for the name; the value of
  an attribute that it finds is decoded on the way, and on a malformed reference the cursor is null. */
  function TakeAttribute(s: string, p: nat, read: seq<Attribute>): (r: AttributeResult)
    requires p < |s| && IsAlpha(s[p])
    ensures r.OneAttribute? ==> p < r.p <= |s|
  {
    var one := ParseAttribute(s, p);
    if one.NoAttribute? then NoAttribute
    else
      match FirstNamed(s, read, Slice(s, one.attribute.name), 0)
      case None => one
      case Some(k) =>
        if Reading(Slice(s, read[k].value), read[k].value.flags).None? then BrokenAttribute else NoAttribute
  }

  /** What `ParseAttributes` leaves; a broken tag has dereferenced a null cursor. */
  datatype TagResult =
    | TagFailed(error: Error) | Tag(attributes: seq<Attribute>, closing: Closing, p: nat) | BrokenTag

  /** `XMLElement::ParseAttributes`, with the attributes read so far. */
  function ParseAttributes(s: string, p: nat, closing: Closing, read: seq<Attribute>): (r: TagResult)
    requires p <= |s|
    ensures r.Tag? ==> p < r.p <= |s|
    ensures r.Tag? ==> r.closing == closing || r.closing == CLOSED
    decreases |s| - p
  {
    var q := SkipSpace(s, p);
    if q == |s| then TagFailed(PARSING_ELEMENT)
    else if IsAlpha(s[q]) then
      match TakeAttribute(s, q, read)
      case NoAttribute => TagFailed(PARSING_ATTRIBUTE)
      case BrokenAttribute => BrokenTag
      case OneAttribute(a, next) => ParseAttributes(s, next, closing, read + [a])
    else if s[q] == '/' && At(s, q + 1) == '>' then Tag(read, CLOSED, q + 2)
    else if s[q] == '>' then Tag(read, closing, q + 1)
    else TagFailed(PARSING_ELEMENT)
  }

  // ----- nodes -----

  /** What the `ParseDeep` of a node hands back: the null pointer, with the error set so far, or the
  cursor, with the end tag that closed the node's content. A broken tag inside lets nothing come back. */
  datatype NodeResult = Failed(error: Error) | Parsed(node: Node, endTag: Option<Span>, p: nat) | BrokenNode

  /** What `XMLNode::ParseDeep` leaves: the children inserted, and either an end tag for the parent
  with the cursor behind it, or the null pointer; or it does not come back. */
  datatype ListResult =
    | Closed(kids: seq<Node>, endTag: Span, p: nat)
    | Stopped(kids: seq<Node>, error: Error)
    | BrokenList(kids: seq<Node>)

  function ParseSpan(s: string, p: nat, terminator: string, error: Error, make: Span -> Node): (r: NodeResult)
    requires p <= |s|
    ensures !r.BrokenNode? && (r.Parsed? ==> p <= r.p <= |s|)
  {
    match Find(s, p, terminator)
    case None => Failed(error)
    case Some(e) => Parsed(make(Span(p, e, NEWLINES)), None, e + |terminator|)
  }

  /** The text up to the next `<`, which must not be the last byte. */
  function ParseTextNode(s: string, p: nat): (r: NodeResult)
    requires p < |s| && s[p] != '<'
    ensures !r.BrokenNode? && (r.Parsed? ==> p < r.p < |s| && s[r.p] == '<')
  {
    match Find(s, p, "<")
    case None => Failed(PARSING_TEXT)
    case Some(e) => if e + 1 < |s| then Parsed(Text(Span(p, e, BOTH), false), None, e) else Failed(NO_ERROR)
  }

  function ParseNode(s: string, kind: Kind, p: nat): (r: NodeResult)
    requires p <= |s| && (kind == TextKind ==> p < |s| && s[p] != '<')
    ensures r.Parsed? ==> p <= r.p <= |s| && (kind == TextKind ==> p < r.p)
    decreases |s| - p, 1
  {
    match kind
    case DeclarationKind => ParseSpan(s, p, "?>", PARSING_DECLARATION, v => Declaration(v))
    case CommentKind => ParseSpan(s, p, "-->", PARSING_COMMENT, v => Comment(v))
    case CDataKind => ParseSpan(s, p, "]]>", PARSING_CDATA, v => Text(v, true))
    case UnknownKind => ParseSpan(s, p, ">", PARSING_UNKNOWN, v => Unknown(v))
    case TextKind => ParseTextNode(s, p)
    case ElementKind => ParseElement(s, p)
  }

  /** `XMLElement::ParseDeep`. */
  function ParseElement(s: string, p: nat): (r: NodeResult)
    requires p <= |s|
    ensures r.Parsed? ==> p + 1 < r.p <= |s| && r.node.Element?
    decreases |s| - p, 0
  {
    var q := SkipSpace(s, p);
    var closing, start := if At(s, q) == '/' then CLOSING else OPEN, if At(s, q) == '/' then q + 1 else q;
    if !IsAlpha(At(s, start)) then Failed(NO_ERROR)
    else
      var name := Span(start, NameEnd(s, start), PLAIN);
      match ParseAttributes(s, name.end, closing, [])
      case TagFailed(error) => Failed(error)
      case BrokenTag => BrokenNode
      case Tag(attributes, closing', next) =>
        if next == |s| || closing' != OPEN then
          Parsed(Element(name, attributes, closing', None, []), None, next)
        else
          match ParseList(s, next)
          case Stopped(kids, error) => Failed(error)
          case BrokenList(kids) => BrokenNode
          case Closed(kids, endTag, after) =>
            Parsed(Element(name, attributes, OPEN, Some(endTag), kids), Some(endTag), after)
  }

  /** The checks on an element and the end tag that its content returned. */
  predicate EndTagFits(s: string, n: Node, endTag: Option<Span>) {
    match endTag
    case None => !n.Element? || n.closing != OPEN
    case Some(name) => n.Element? && n.closing == OPEN && Slice(s, name) == Slice(s, n.name)
  }

  /** The loop of `XMLNode::ParseDeep`. */
  function ParseList(s: string, p: nat): (r: ListResult)
    requires p <= |s|
    ensures r.Closed? ==> p + 2 < r.p <= |s|
    decreases |s| - p, 2
  {
    match Identify(s, p)
    case End => Stopped([], NO_ERROR)
    case Identified(kind, q) =>
      match ParseNode(s, kind, q)
      case Failed(error) => Stopped([], if error == NO_ERROR then PARSING else error)
      case BrokenNode => BrokenList([])
      case Parsed(n, endTag, next) =>
        if n.Element? && n.closing == CLOSING then Closed([], n.name, next)
        else if !EndTagFits(s, n, endTag) then Stopped([], MISMATCHED_ELEMENT)
        else Before([n], ParseList(s, next))
  }

  /** The result `r` with `kids` inserted in front. */
  function Before(kids: seq<Node>, r: ListResult): ListResult {
    match r
    case Closed(more, endTag, p) => Closed(kids + more, endTag, p)
    case Stopped(more, error) => Stopped(kids + more, error)
    case BrokenList(more) => BrokenList(kids + more)
  }

  // ----- the document -----

  /** `XMLDocument::Parse`: the buffer it copies, whether it saw a byte order mark, the children and the
  error; or, if it did not come back, the children it had inserted. */
  datatype Document =
    | Document(buffer: string, bom: bool, kids: seq<Node>, error: Error)
    | BrokenDocument(buffer: string, bom: bool, kids: seq<Node>)

  function ParseDocument(text: string): Document {
    var p := SkipSpace(text, 0);
    var bom := HasAt(text, p, PrintSpec.BOM);
    var start := if bom then p + |PrintSpec.BOM| else p;
    if start == |text| then Document("", bom, [], EMPTY_DOCUMENT)
    else
      var s := text[start..];
      match ParseList(s, 0)
      case Closed(kids, endTag, p) => Document(s, bom, kids, NO_ERROR)
      case Stopped(kids, error) => Document(s, bom, kids, error)
      case BrokenList(kids) => BrokenDocument(s, bom, kids)
  }
}
