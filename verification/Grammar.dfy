/** What the parser takes for what, in terms of the bytes of the text: a grammar that calls none of its functions. */
module Grammar {
  import opened Options
  import opened Text
  import opened Entities
  import opened StrPairs
  import opened ParserSpec
  import opened ParserProperties
  import opened TopLevel

  // ----- bytes -----

  predicate BlankByte(c: char) {
    c as int in {9, 10, 11, 12, 13, 32}
  }

  predicate LetterByte(c: char) {
    65 <= c as int <= 90 || 97 <= c as int <= 122 || 128 <= c as int
  }

  predicate NameByte(c: char) {
    LetterByte(c) || 48 <= c as int <= 57 || c as int in {45, 46, 58, 95}
  }

  /** All white space there is from `p` on ends at `q`. */
  predicate Blanks(s: string, p: nat, q: nat) {
    p <= q <= |s| && (forall k :: p <= k < q ==> BlankByte(s[k])) && (q < |s| ==> !BlankByte(s[q]))
  }

  /** The name that begins at `p` ends at `e`. */
  predicate NameAt(s: string, p: nat, e: nat) {
    p < e <= |s| && LetterByte(s[p]) && (forall k :: p <= k < e ==> NameByte(s[k])) && (e < |s| ==> !NameByte(s[e]))
  }

  /** From `p` on, the word stands first at `e`. */
  predicate FirstAt(s: string, p: nat, w: string, e: nat) {
    p <= e && HasAt(s, e, w) && forall k :: p <= k < e ==> !HasAt(s, k, w)
  }

  predicate NowhereFrom(s: string, p: nat, w: string) {
    forall k :: p <= k <= |s| ==> !HasAt(s, k, w)
  }

  lemma BlanksIff(s: string, p: nat, q: nat)
    requires p <= |s|
    ensures Blanks(s, p, q) <==> q == SkipSpace(s, p)
  {
    if Blanks(s, p, q) {
      SkipSpaceIs(s, p, q);
    }
  }

  lemma NameIff(s: string, p: nat, e: nat)
    requires p <= |s|
    ensures NameAt(s, p, e) <==> IsAlpha(At(s, p)) && e == NameEnd(s, p)
  {
    if NameAt(s, p, e) {
      NameEndIs(s, p, e);
    }
  }

  lemma FirstIff(s: string, p: nat, w: string, e: nat)
    requires p <= |s|
    ensures FirstAt(s, p, w, e) <==> Find(s, p, w) == Some(e)
    ensures NowhereFrom(s, p, w) <==> Find(s, p, w).None?
  {
    if FirstAt(s, p, w, e) {
      FindIs(s, p, e, w);
    }
  }

  // ----- attributes -----

  /** A name up to `e`, an equals sign at `eq`, and a value between two equal quotes at `quote` and `v`. */
  predicate AttributeParts(s: string, p: nat, e: nat, eq: nat, quote: nat, v: nat) {
    NameAt(s, p, e) && Blanks(s, e, eq) && eq < |s| && s[eq] == '=' && Blanks(s, eq + 1, quote) &&
    quote < v < |s| && (s[quote] as int == 34 || s[quote] as int == 39) && s[v] == s[quote] &&
    forall k :: quote < k < v ==> s[k] != s[quote]
  }

  ghost predicate AttributeAt(s: string, p: nat, a: Attribute, next: nat) {
    exists e: nat, eq: nat, quote: nat, v: nat :: AttributeParts(s, p, e, eq, quote, v) && next == v + 1 &&
      a == Attribute(Span(p, e, Flags(false, false)), Span(quote + 1, v, Flags(true, true)))
  }

  lemma QuoteIff(s: string, q: nat, v: nat)
    requires q < |s|
    ensures Find(s, q + 1, [s[q]]) == Some(v) <==>
      q < v < |s| && s[v] == s[q] && forall k :: q < k < v ==> s[k] != s[q]
  {
    forall k: nat ensures HasAt(s, k, [s[q]]) <==> k < |s| && s[k] == s[q] {
      if k < |s| && s[k] == s[q] {
        assert s[k..k + 1] == [s[q]];
      }
      if HasAt(s, k, [s[q]]) {
        HasAtChar(s, k, [s[q]], 0);
      }
    }
    if q < v < |s| && s[v] == s[q] && forall k :: q < k < v ==> s[k] != s[q] {
      FindIs(s, q + 1, v, [s[q]]);
    }
  }

  /** `XMLAttribute::ParseDeep` finds an attribute exactly where its bytes stand, with these spans and this cursor. */
  lemma AttributeIff(s: string, p: nat, a: Attribute, next: nat)
    requires p < |s| && LetterByte(s[p])
    ensures IsAlpha(s[p])
    ensures ParseAttribute(s, p) == OneAttribute(a, next) <==> AttributeAt(s, p, a, next)
  {
    hide NameAt, Blanks, Find, SkipSpace, NameEnd;
    var e := NameEnd(s, p);
    NameIff(s, p, e);
    BlanksIff(s, e, SkipSpace(s, e));
    var eq := SkipSpace(s, e);
    if At(s, eq) == '=' {
      var quote := SkipSpace(s, eq + 1);
      BlanksIff(s, eq + 1, quote);
      if ParseAttribute(s, p) == OneAttribute(a, next) {
        var v: nat := next - 1;
        QuoteIff(s, quote, v);
        assert AttributeParts(s, p, e, eq, quote, v);
      }
    }
    if AttributeAt(s, p, a, next) {
      var e': nat, eq': nat, quote': nat, v: nat :| AttributeParts(s, p, e', eq', quote', v) && next == v + 1 &&
        a == Attribute(Span(p, e', Flags(false, false)), Span(quote' + 1, v, Flags(true, true)));
      PartsAreParsed(s, p, e', eq', quote', v);
    }
  }

  lemma PartsAreParsed(s: string, p: nat, e: nat, eq: nat, quote: nat, v: nat)
    requires AttributeParts(s, p, e, eq, quote, v)
    ensures p < |s| && IsAlpha(s[p])
    ensures ParseAttribute(s, p) ==
      OneAttribute(Attribute(Span(p, e, Flags(false, false)), Span(quote + 1, v, Flags(true, true))), v + 1)
  {
    hide Blanks, Find, SkipSpace, NameEnd, HasAt;
    NameIff(s, p, e);
    BlanksIff(s, e, eq);
    BlanksIff(s, eq + 1, quote);
    QuoteIff(s, quote, v);
  }

  /** Where no attribute stands, there is an error. */
  lemma NoAttributeIff(s: string, p: nat)
    requires p < |s| && LetterByte(s[p])
    ensures IsAlpha(s[p])
    ensures ParseAttribute(s, p).NoAttribute? <==> forall a, next: nat :: !AttributeAt(s, p, a, next)
  {
    hide AttributeAt, ParseAttribute;
    forall a, next: nat ensures AttributeAt(s, p, a, next) <==> ParseAttribute(s, p) == OneAttribute(a, next) {
      AttributeIff(s, p, a, next);
    }
    if ParseAttribute(s, p).OneAttribute? {
      var one := ParseAttribute(s, p);
      assert AttributeAt(s, p, one.attribute, one.p);
    }
  }

  // ----- tags -----

  /** What ends a tag at `q`: a slash and a greater sign, which close it, or the greater sign alone. */
  predicate TagEndAt(s: string, q: nat, closing: Closing, closing': Closing, next: nat) {
    (q + 1 < |s| && s[q] == '/' && s[q + 1] == '>' && closing' == CLOSED && next == q + 2) ||
    (q < |s| && s[q] == '>' && closing' == closing && next == q + 1)
  }

  /** Attributes, each behind white space or none, and the end of the tag. */
  ghost predicate TagAt(s: string, p: nat, closing: Closing, attributes: seq<Attribute>, closing': Closing, next: nat)
    decreases |attributes|
  {
    exists q: nat :: Blanks(s, p, q) &&
      if attributes == [] then TagEndAt(s, q, closing, closing', next)
      else exists m: nat :: AttributeAt(s, q, attributes[0], m) && TagAt(s, m, closing, attributes[1..], closing', next)
  }

  lemma NoneAgain(s: string, read: seq<Attribute>, name: string)
    ensures FirstNamed(s, read, name, 0).None? <==>
      forall k :: 0 <= k < |read| ==> Slice(s, read[k].name) != name
  {
  }

  lemma DistinctMore(s: string, read: seq<Attribute>, a: Attribute)
    requires DistinctNames(s, read)
    ensures DistinctNames(s, read + [a]) <==> FirstNamed(s, read, Slice(s, a.name), 0).None?
  {
    hide Slice;
    NoneAgain(s, read, Slice(s, a.name));
    var all := read + [a];
    if DistinctNames(s, all) {
      forall k | 0 <= k < |read| ensures Slice(s, read[k].name) != Slice(s, a.name) {
        assert all[k] == read[k] && all[|read|] == a;
      }
    }
  }

  lemma DistinctPrefix(s: string, read: seq<Attribute>, more: seq<Attribute>)
    requires DistinctNames(s, read + more)
    ensures DistinctNames(s, read)
  {
    assert forall k :: 0 <= k < |read| ==> (read + more)[k] == read[k];
  }

  /** A tag that ends has its attributes, one behind another, in the text. */
  lemma {:induction false} TagFound(s: string, p: nat, closing: Closing, read: seq<Attribute>)
      returns (more: seq<Attribute>)
    requires p <= |s| && DistinctNames(s, read) && ParseAttributes(s, p, closing, read).Tag?
    ensures var r := ParseAttributes(s, p, closing, read);
      r.attributes == read + more && DistinctNames(s, r.attributes) && TagAt(s, p, closing, more, r.closing, r.p)
    decreases |s| - p
  {
    hide ParseAttribute, FirstNamed, DistinctNames, Slice, AttributeAt, Blanks, SkipSpace, LetterByte;
    var q := SkipSpace(s, p);
    BlanksIff(s, p, q);
    LetterIff(At(s, q));
    if q < |s| && IsAlpha(s[q]) {
      var one := ParseAttribute(s, q);
      AttributeIff(s, q, one.attribute, one.p);
      DistinctMore(s, read, one.attribute);
      var rest := TagFound(s, one.p, closing, read + [one.attribute]);
      more := [one.attribute] + rest;
      assert read + [one.attribute] + rest == read + more && more[1..] == rest;
    } else {
      more := [];
      assert read + more == read;
    }
  }

  lemma LetterIff(c: char)
    ensures IsAlpha(c) <==> LetterByte(c)
  {
  }

  /** And such a text is read as that tag. */
  lemma {:induction false} TagRead(s: string, p: nat, closing: Closing, read: seq<Attribute>, more: seq<Attribute>,
      closing': Closing, next: nat)
    requires p <= |s| && DistinctNames(s, read + more) && TagAt(s, p, closing, more, closing', next)
    ensures ParseAttributes(s, p, closing, read) == Tag(read + more, closing', next)
    decreases |more|
  {
    hide ParseAttribute, FirstNamed, DistinctNames, Slice, AttributeParts, Blanks, SkipSpace;
    var q: nat :| Blanks(s, p, q) &&
      if more == [] then TagEndAt(s, q, closing, closing', next)
      else exists m: nat :: AttributeAt(s, q, more[0], m) && TagAt(s, m, closing, more[1..], closing', next);
    BlanksIff(s, p, q);
    if more == [] {
      assert read + more == read;
    } else {
      var m: nat :| AttributeAt(s, q, more[0], m) && TagAt(s, m, closing, more[1..], closing', next);
      LetterAtAttribute(s, q, more[0], m);
      AttributeIff(s, q, more[0], m);
      assert read + [more[0]] + more[1..] == read + more;
      DistinctPrefix(s, read + [more[0]], more[1..]);
      DistinctPrefix(s, read, [more[0]]);
      DistinctMore(s, read, more[0]);
      TagRead(s, m, closing, read + [more[0]], more[1..], closing', next);
    }
  }

  lemma LetterAtAttribute(s: string, q: nat, a: Attribute, m: nat)
    requires AttributeAt(s, q, a, m)
    ensures q < |s| && LetterByte(s[q]) && IsAlpha(s[q]) && q < m <= |s|
  {
  }

  /** `XMLElement::ParseAttributes` ends a tag exactly where distinct attributes and the end of a tag stand. */
  lemma TagIff(s: string, p: nat, closing: Closing, attributes: seq<Attribute>, closing': Closing, next: nat)
    requires p <= |s|
    ensures ParseAttributes(s, p, closing, []) == Tag(attributes, closing', next) <==>
      TagAt(s, p, closing, attributes, closing', next) && DistinctNames(s, attributes)
  {
    hide ParseAttributes, TagAt, DistinctNames;
    NothingTwice(s);
    assert [] + attributes == attributes;
    if ParseAttributes(s, p, closing, []) == Tag(attributes, closing', next) {
      var more := TagFound(s, p, closing, []);
      assert [] + more == more;
    }
    if TagAt(s, p, closing, attributes, closing', next) && DistinctNames(s, attributes) {
      TagRead(s, p, closing, [], attributes, closing', next);
    }
  }

  lemma NothingTwice(s: string)
    ensures DistinctNames(s, [])
  {
  }

  // ----- nodes and lists -----

  /** Markup from `open` to the first `close` behind it, with white space or nothing in front. */
  ghost predicate MarkupAt(s: string, p: nat, open: string, close: string, v: Span, next: nat) {
    exists q: nat :: Blanks(s, p, q) && HasAt(s, q, open) && v.start == q + |open| &&
      FirstAt(s, v.start, close, v.end) && v.flags == Flags(false, true) && next == v.end + |close|
  }

  /** A `<` behind white space or none. */
  ghost predicate OpensWith(s: string, p: nat, header: string) {
    exists q: nat :: Blanks(s, p, q) && HasAt(s, q, header)
  }

  /** Text up to the first `<`, which is not the last byte; it is not white space alone. */
  ghost predicate PlainTextAt(s: string, p: nat, v: Span, next: nat) {
    v == Span(p, next, Flags(true, true)) && FirstAt(s, p, "<", next) && next + 1 < |s| &&
    exists q: nat :: Blanks(s, p, q) && q < next
  }

  /** The tag that begins at `p`: behind the `<` white space, perhaps a slash, and the name. */
  ghost predicate NameInTag(s: string, p: nat, slash: bool, name: Span) {
    exists q: nat, k: nat :: Blanks(s, p, q) && q < |s| && s[q] == '<' && Blanks(s, q + 1, k) && k < |s| &&
      (s[k] == '/' <==> slash) && name == Span(if slash then k + 1 else k, name.end, Flags(false, false)) &&
      NameAt(s, name.start, name.end)
  }

  /** An end tag; attributes may stand in it. */
  ghost predicate ClosingTagAt(s: string, p: nat, name: Span, next: nat) {
    NameInTag(s, p, true, name) &&
    exists attributes: seq<Attribute> ::
      TagAt(s, name.end, CLOSING, attributes, CLOSING, next) && DistinctNames(s, attributes)
  }

  /** From `p` to `next` stands what the node says. */
  ghost predicate NodeAt(s: string, p: nat, n: Node, next: nat)
    decreases n
  {
    match n
    case Declaration(v) => MarkupAt(s, p, "<?", "?>", v, next)
    case Comment(v) => MarkupAt(s, p, "<!--", "-->", v, next)
    case Text(v, cdata) => if cdata then MarkupAt(s, p, "<![CDATA[", "]]>", v, next) else PlainTextAt(s, p, v, next)
    case Unknown(v) =>
      MarkupAt(s, p, "<!", ">", v, next) && !OpensWith(s, p, "<!--") && !OpensWith(s, p, "<![CDATA[")
    case Element(name, attributes, closing, endName, kids) =>
      DistinctNames(s, attributes) &&
      ((closing == CLOSED && endName.None? && kids == [] &&
        exists slash: bool :: NameInTag(s, p, slash, name) &&
          TagAt(s, name.end, if slash then CLOSING else OPEN, attributes, CLOSED, next)) ||
       (closing == OPEN && endName.Some? && NameInTag(s, p, false, name) && Slice(s, endName.value) == Slice(s, name) &&
        exists m: nat :: m < |s| && TagAt(s, name.end, OPEN, attributes, OPEN, m) &&
          ListAt(s, m, kids, endName.value, next)))
  }

  /** The nodes stand one behind another from `p` on, and behind them an end tag that ends at `next`. */
  ghost predicate ListAt(s: string, p: nat, kids: seq<Node>, endTag: Span, next: nat)
    decreases kids
  {
    if kids == [] then ClosingTagAt(s, p, endTag, next)
    else exists m: nat :: NodeAt(s, p, kids[0], m) && ListAt(s, m, kids[1..], endTag, next)
  }

  /** The node that the loop keeps at `p`. */
  function KeptNode(s: string, p: nat): Node
    requires p <= |s| && KeepsNode(s, p)
  {
    ParseNode(s, Identify(s, p).kind, Identify(s, p).p).node
  }

  lemma ParsedMarkup(s: string, p: nat, q: nat, open: string, close: string, error: Error, make: Span -> Node)
    requires p <= |s| && q == SkipSpace(s, p) && HasAt(s, q, open)
    requires ParseSpan(s, q + |open|, close, error, make).Parsed?
    ensures var r := ParseSpan(s, q + |open|, close, error, make);
      exists v :: r.node == make(v) && MarkupAt(s, p, open, close, v, r.p)
  {
    hide Find, Blanks, FirstAt, SkipSpace;
    var e := Find(s, q + |open|, close).value;
    BlanksIff(s, p, q);
    FirstIff(s, q + |open|, close, e);
    assert MarkupAt(s, p, open, close, Span(q + |open|, e, Flags(false, true)), e + |close|);
  }

  lemma MarkupParsed(s: string, p: nat, open: string, close: string, v: Span, next: nat, error: Error,
      make: Span -> Node)
    requires p <= |s| && MarkupAt(s, p, open, close, v, next)
    ensures var q := SkipSpace(s, p);
      HasAt(s, q, open) && q + |open| <= |s| &&
      ParseSpan(s, q + |open|, close, error, make) == Parsed(make(v), None, next)
  {
    hide Find, Blanks, FirstAt, SkipSpace;
    var q: nat :| Blanks(s, p, q) && HasAt(s, q, open) && v.start == q + |open| &&
      FirstAt(s, v.start, close, v.end) && v.flags == Flags(false, true) && next == v.end + |close|;
    BlanksIff(s, p, q);
    FirstIff(s, v.start, close, v.end);
  }

  lemma OpensIff(s: string, p: nat, header: string)
    requires p <= |s|
    ensures OpensWith(s, p, header) <==> HasAt(s, SkipSpace(s, p), header)
  {
    hide Blanks, SkipSpace, HasAt;
    BlanksIff(s, p, SkipSpace(s, p));
    if q: nat :| Blanks(s, p, q) && HasAt(s, q, header) {
      BlanksIff(s, p, q);
    }
  }

  /** What the loop keeps, other than an element, stands there. */
  lemma LeafFound(s: string, p: nat)
    requires p <= |s| && KeepsNode(s, p) && Identify(s, p).kind != ElementKind
    ensures NodeAt(s, p, KeptNode(s, p), NextNode(s, p))
  {
    hide ParseSpan, ParseTextNode, MarkupAt, PlainTextAt, HasAt, OpensWith;
    var id := Identify(s, p);
    var q := SkipSpace(s, p);
    match id.kind {
      case DeclarationKind => ParsedMarkup(s, p, q, "<?", "?>", PARSING_DECLARATION, v => Declaration(v));
      case CommentKind => ParsedMarkup(s, p, q, "<!--", "-->", PARSING_COMMENT, v => Comment(v));
      case CDataKind => ParsedMarkup(s, p, q, "<![CDATA[", "]]>", PARSING_CDATA, v => ParserSpec.Text(v, true));
      case UnknownKind =>
        ParsedMarkup(s, p, q, "<!", ">", PARSING_UNKNOWN, v => Unknown(v));
        OpensIff(s, p, "<!--");
        OpensIff(s, p, "<![CDATA[");
      case TextKind => TextFound(s, p);
    }
  }

  lemma TextFound(s: string, p: nat)
    requires p < |s| && s[p] != '<' && At(s, SkipSpace(s, p)) != '<' && ParseTextNode(s, p).Parsed?
    ensures var r := ParseTextNode(s, p);
      r.node.Text? && !r.node.cdata && PlainTextAt(s, p, r.node.value, r.p)
  {
    hide Find, Blanks, HasAt, SkipSpace;
    var r, q := ParseTextNode(s, p), SkipSpace(s, p);
    FirstIff(s, p, "<", r.p);
    BlanksIff(s, p, q);
    HasAtChar(s, r.p, "<", 0);
    assert q != r.p;
    assert q < r.p by {
      assert q > r.p ==> IsSpace('<');
    }
  }

  /** What `ParseDeep` of an element finds behind the `<`: perhaps a slash, and a name. */
  lemma NameFound(s: string, p: nat, q: nat)
    requires p <= |s| && q == SkipSpace(s, p) && q < |s| && s[q] == '<'
    ensures var k := SkipSpace(s, q + 1);
      var slash := At(s, k) == '/';
      var start := if slash then k + 1 else k;
      start <= |s| && (IsAlpha(At(s, start)) ==>
        NameInTag(s, p, slash, Span(start, NameEnd(s, start), PLAIN)) && start < NameEnd(s, start))
  {
    hide Blanks, NameAt, SkipSpace, NameEnd;
    var k := SkipSpace(s, q + 1);
    var start := if At(s, k) == '/' then k + 1 else k;
    BlanksIff(s, p, q);
    BlanksIff(s, q + 1, k);
    if IsAlpha(At(s, start)) {
      NameIff(s, start, NameEnd(s, start));
      NameNotEmpty(s, start);
    }
  }

  lemma NameNotEmpty(s: string, p: nat)
    requires p <= |s| && IsAlpha(At(s, p))
    ensures p < NameEnd(s, p)
  {
  }

  /** An element of the grammar, as `ParseDeep` makes it, or an end tag. */
  lemma {:induction false} ElementFound(s: string, p: nat, q: nat)
    requires p <= |s| && q == SkipSpace(s, p) && q < |s| && s[q] == '<'
    requires var r := ParseElement(s, q + 1);
      r.Parsed? && EndTagFits(s, r.node, r.endTag) && r.node.closing != CLOSING
    ensures var r := ParseElement(s, q + 1); NodeAt(s, p, r.node, r.p)
    decreases |s| - p, 0
  {
    hide ParseAttributes, ParseList, SkipSpace, NameEnd, NameInTag, TagAt, DistinctNames, Slice;
    NameFound(s, p, q);
    var k := SkipSpace(s, q + 1);
    var closing, start := if At(s, k) == '/' then CLOSING else OPEN, if At(s, k) == '/' then k + 1 else k;
    var name := Span(start, NameEnd(s, start), PLAIN);
    var tag := ParseAttributes(s, name.end, closing, []);
    TagIff(s, name.end, closing, tag.attributes, tag.closing, tag.p);
    if tag.closing == OPEN && tag.p < |s| {
      ListFound(s, tag.p);
    }
  }

  lemma {:induction false} NodeFound(s: string, p: nat)
    requires p <= |s| && KeepsNode(s, p)
    ensures NodeAt(s, p, KeptNode(s, p), NextNode(s, p))
    decreases |s| - p, 1
  {
    hide NodeAt, ParseElement, ParseSpan, ParseTextNode, HasAt, EndTagFits;
    if Identify(s, p).kind == ElementKind {
      ElementFound(s, p, SkipSpace(s, p));
    } else {
      LeafFound(s, p);
    }
  }

  /** An end tag, as `ParseDeep` of an element reads it. */
  lemma EndTagParts(s: string, p: nat)
    requires p <= |s| && ParseElement(s, p).Parsed? && ParseElement(s, p).node.closing == CLOSING
    ensures var k, r := SkipSpace(s, p), ParseElement(s, p);
      At(s, k) == '/' && IsAlpha(At(s, k + 1)) && r.node.name == Span(k + 1, NameEnd(s, k + 1), PLAIN) &&
      ParseAttributes(s, NameEnd(s, k + 1), CLOSING, []) == Tag(r.node.attributes, CLOSING, r.p)
  {
    hide ParseAttributes, ParseList, SkipSpace, NameEnd;
  }

  lemma ClosingFound(s: string, p: nat)
    requires p <= |s| && TakesEndTag(s, p)
    ensures var r := ParseNode(s, Identify(s, p).kind, Identify(s, p).p); ClosingTagAt(s, p, r.node.name, r.p)
  {
    hide ParseNode, ParseElement, Identify, ClosingTagAt;
    var id := Identify(s, p);
    NodeIsElement(s, id.kind, id.p);
    BehindOpen(s, p);
    ClosingElement(s, p, SkipSpace(s, p));
  }

  lemma BehindOpen(s: string, p: nat)
    requires p <= |s| && Identify(s, p).Identified? && Identify(s, p).kind == ElementKind
    ensures var q := SkipSpace(s, p); q < |s| && s[q] == '<' && Identify(s, p).p == q + 1
  {
    hide HasAt, SkipSpace;
  }

  lemma ClosingElement(s: string, p: nat, q: nat)
    requires p <= |s| && q == SkipSpace(s, p) && q < |s| && s[q] == '<'
    requires ParseElement(s, q + 1).Parsed? && ParseElement(s, q + 1).node.closing == CLOSING
    ensures var r := ParseElement(s, q + 1); ClosingTagAt(s, p, r.node.name, r.p)
  {
    hide ParseAttributes, ParseElement, SkipSpace, NameEnd, NameInTag, TagAt, DistinctNames;
    NameFound(s, p, q);
    EndTagParts(s, q + 1);
    var k, r := SkipSpace(s, q + 1), ParseElement(s, q + 1);
    TagIff(s, NameEnd(s, k + 1), CLOSING, r.node.attributes, CLOSING, r.p);
  }

  /** What a list returns with an end tag stands in the text. */
  lemma {:induction false} ListFound(s: string, p: nat)
    requires p <= |s| && ParseList(s, p).Closed?
    ensures var r := ParseList(s, p); ListAt(s, p, r.kids, r.endTag, r.p)
    decreases |s| - p, 2
  {
    hide ParseNode, NodeAt, ClosingTagAt, Identify, EndTagFits;
    var r := ParseNode(s, Identify(s, p).kind, Identify(s, p).p);
    if KeepsNode(s, p) {
      NodeFound(s, p);
      ListFound(s, NextNode(s, p));
      var rest := ParseList(s, NextNode(s, p));
      assert ([r.node] + rest.kids)[1..] == rest.kids;
      assert NodeAt(s, p, r.node, r.p);
    } else {
      ClosingFound(s, p);
    }
  }

  // ----- and the other way round -----

  /** Where a name in a tag stands, the parser sees an element or an end tag of that name. */
  lemma NameRead(s: string, p: nat, slash: bool, name: Span)
    requires p <= |s| && NameInTag(s, p, slash, name)
    ensures var q := SkipSpace(s, p);
      q < |s| && s[q] == '<' && Identify(s, p) == Identified(ElementKind, q + 1) &&
      var k := SkipSpace(s, q + 1);
      (At(s, k) == '/' <==> slash) && name.start == (if slash then k + 1 else k) && name.start < |s| &&
      IsAlpha(s[name.start]) && name == Span(name.start, NameEnd(s, name.start), PLAIN)
  {
    hide Blanks, NameAt, SkipSpace, NameEnd, HasAt;
    var q: nat, k: nat :| Blanks(s, p, q) && q < |s| && s[q] == '<' && Blanks(s, q + 1, k) && k < |s| &&
      (s[k] == '/' <==> slash) && name == Span(if slash then k + 1 else k, name.end, Flags(false, false)) &&
      NameAt(s, name.start, name.end);
    BlanksIff(s, p, q);
    BlanksIff(s, q + 1, k);
    NameStarts(s, name.start, name.end);
    NameIff(s, name.start, name.end);
    NoOtherMarkup(s, q);
  }

  lemma NameStarts(s: string, p: nat, e: nat)
    requires NameAt(s, p, e)
    ensures p < |s| && IsAlpha(s[p])
  {
  }

  lemma NoOtherMarkup(s: string, q: nat)
    requires q < |s| && var k := SkipSpace(s, q + 1); At(s, k) == '/' || IsAlpha(At(s, k))
    ensures !HasAt(s, q, "<?") && !HasAt(s, q, "<!") && !HasAt(s, q, "<!--") && !HasAt(s, q, "<![CDATA[")
  {
    NotHasAt(s, q, "<?", 1);
    NotHasAt(s, q, "<!", 1);
    NotHasAt(s, q, "<!--", 1);
    NotHasAt(s, q, "<![CDATA[", 1);
  }

  /** The parser keeps `n` at `p` and goes on at `next`. */
  predicate Keeps(s: string, p: nat, n: Node, next: nat) {
    p <= |s| && KeepsNode(s, p) && KeptNode(s, p) == n && NextNode(s, p) == next
  }

  /** Where one word stands, no word stands that differs from it in a byte. */
  lemma OnlyOne(s: string, q: nat, w: string, v: string, k: nat)
    requires HasAt(s, q, w) && k < |w| && k < |v| && w[k] != v[k]
    ensures !HasAt(s, q, v)
  {
    hide HasAt;
    HasAtChar(s, q, w, k);
    if HasAt(s, q, v) {
      HasAtChar(s, q, v, k);
    }
  }

  lemma LeafRead(s: string, p: nat, n: Node, next: nat)
    requires p <= |s| && !n.Element? && NodeAt(s, p, n, next)
    ensures Keeps(s, p, n, next)
  {
    hide MarkupAt, PlainTextAt, HasAt, OpensWith, SkipSpace, Find, ParseSpan, ParseTextNode;
    var q := SkipSpace(s, p);
    match n {
      case Declaration(v) =>
        MarkupParsed(s, p, "<?", "?>", v, next, PARSING_DECLARATION, v => Declaration(v));
      case Comment(v) =>
        MarkupParsed(s, p, "<!--", "-->", v, next, PARSING_COMMENT, v => Comment(v));
        OnlyOne(s, q, "<!--", "<?", 1);
      case Text(v, cdata) =>
        if cdata {
          MarkupParsed(s, p, "<![CDATA[", "]]>", v, next, PARSING_CDATA, v => ParserSpec.Text(v, true));
          OnlyOne(s, q, "<![CDATA[", "<?", 1);
          OnlyOne(s, q, "<![CDATA[", "<!--", 2);
        } else {
          TextRead(s, p, v, next);
        }
      case Unknown(v) =>
        MarkupParsed(s, p, "<!", ">", v, next, PARSING_UNKNOWN, v => Unknown(v));
        OpensIff(s, p, "<!--");
        OpensIff(s, p, "<![CDATA[");
        OnlyOne(s, q, "<!", "<?", 1);
    }
  }

  lemma TextRead(s: string, p: nat, v: Span, next: nat)
    requires p <= |s| && PlainTextAt(s, p, v, next)
    ensures Identify(s, p) == Identified(TextKind, p)
    ensures ParseTextNode(s, p) == Parsed(ParserSpec.Text(v, false), None, next)
  {
    hide Find, Blanks, SkipSpace, HasAt;
    var q: nat :| Blanks(s, p, q) && q < next;
    FirstIff(s, p, "<", next);
    BlanksIff(s, p, q);
    HasAtChar(s, next, "<", 0);
    NotOpen(s, q);
    NotOpen(s, p);
  }

  lemma NotOpen(s: string, q: nat)
    requires q < |s| && !HasAt(s, q, "<")
    ensures s[q] != '<'
    ensures !HasAt(s, q, "<?") && !HasAt(s, q, "<!") && !HasAt(s, q, "<!--") && !HasAt(s, q, "<![CDATA[")
  {
    assert s[q..q + 1] == [s[q]];
    NotHasAt(s, q, "<?", 0);
    NotHasAt(s, q, "<!", 0);
    NotHasAt(s, q, "<!--", 0);
    NotHasAt(s, q, "<![CDATA[", 0);
  }

  lemma SelfClosedRead(s: string, p: nat, n: Node, next: nat)
    requires p <= |s| && n.Element? && n.closing == CLOSED && NodeAt(s, p, n, next)
    ensures Keeps(s, p, n, next)
  {
    hide ParseAttributes, ParseList, SkipSpace, NameEnd, NameInTag, TagAt, DistinctNames, Slice, ListAt, Identify,
      ParseSpan, ParseTextNode;
    var slash: bool :| NameInTag(s, p, slash, n.name) &&
      TagAt(s, n.name.end, if slash then CLOSING else OPEN, n.attributes, CLOSED, next);
    NameRead(s, p, slash, n.name);
    TagIff(s, n.name.end, if slash then CLOSING else OPEN, n.attributes, CLOSED, next);
    assert ParseElement(s, SkipSpace(s, p) + 1) == Parsed(n, None, next);
  }

  lemma {:induction false} ElementRead(s: string, p: nat, n: Node, next: nat)
    requires p <= |s| && n.Element? && NodeAt(s, p, n, next)
    ensures Keeps(s, p, n, next)
    decreases n, 0
  {
    hide ParseAttributes, ParseList, SkipSpace, NameEnd, NameInTag, TagAt, DistinctNames, Slice, ListAt, Identify,
      ParseSpan, ParseTextNode;
    if n.closing == CLOSED {
      SelfClosedRead(s, p, n, next);
    } else {
      var m: nat :| m < |s| && TagAt(s, n.name.end, OPEN, n.attributes, OPEN, m) &&
        ListAt(s, m, n.kids, n.endName.value, next);
      NameRead(s, p, false, n.name);
      TagIff(s, n.name.end, OPEN, n.attributes, OPEN, m);
      ListRead(s, m, n.kids, n.endName.value, next);
      assert ParseElement(s, SkipSpace(s, p) + 1) == Parsed(n, n.endName, next);
    }
  }

  lemma {:induction false} ClosingRead(s: string, p: nat, name: Span, next: nat)
    requires p <= |s| && ClosingTagAt(s, p, name, next)
    ensures ParseList(s, p) == Closed([], name, next)
  {
    hide ParseAttributes, SkipSpace, NameEnd, NameInTag, TagAt, DistinctNames, Identify, ParseSpan, ParseTextNode;
    NameRead(s, p, true, name);
    var attributes: seq<Attribute> :|
      TagAt(s, name.end, CLOSING, attributes, CLOSING, next) && DistinctNames(s, attributes);
    TagIff(s, name.end, CLOSING, attributes, CLOSING, next);
    assert ParseElement(s, SkipSpace(s, p) + 1) == Parsed(Element(name, attributes, CLOSING, None, []), None, next);
  }

  /** What the grammar says of a list is what the parser returns. */
  lemma {:induction false} ListRead(s: string, p: nat, kids: seq<Node>, endTag: Span, next: nat)
    requires p <= |s| && ListAt(s, p, kids, endTag, next)
    ensures ParseList(s, p) == Closed(kids, endTag, next)
    decreases kids
  {
    hide ParseNode, NodeAt, ClosingTagAt, Identify, EndTagFits;
    if kids == [] {
      ClosingRead(s, p, endTag, next);
    } else {
      var m: nat :| NodeAt(s, p, kids[0], m) && ListAt(s, m, kids[1..], endTag, next);
      NodeRead(s, p, kids[0], m);
      ListRead(s, m, kids[1..], endTag, next);
      assert [kids[0]] + kids[1..] == kids;
    }
  }

  lemma {:induction false} NodeRead(s: string, p: nat, n: Node, next: nat)
    requires p <= |s| && NodeAt(s, p, n, next)
    ensures Keeps(s, p, n, next)
    decreases n, 1
  {
    hide NodeAt, Keeps;
    if n.Element? {
      ElementRead(s, p, n, next);
    } else {
      LeafRead(s, p, n, next);
    }
  }

  /** The child loop keeps a node exactly where the bytes of that node stand. */
  lemma NodeIff(s: string, p: nat, n: Node, next: nat)
    requires p <= |s|
    ensures Keeps(s, p, n, next) <==> NodeAt(s, p, n, next)
  {
    hide NodeAt, ParseNode, Identify, EndTagFits;
    if Keeps(s, p, n, next) {
      NodeFound(s, p);
    }
    if NodeAt(s, p, n, next) {
      NodeRead(s, p, n, next);
    }
  }

  /** `XMLNode::ParseDeep` comes back with these children and this end tag exactly where they stand in the text. */
  lemma ListIff(s: string, p: nat, kids: seq<Node>, endTag: Span, next: nat)
    requires p <= |s|
    ensures ParseList(s, p) == Closed(kids, endTag, next) <==> ListAt(s, p, kids, endTag, next)
  {
    hide ListAt, ParseList;
    if ParseList(s, p) == Closed(kids, endTag, next) {
      ListFound(s, p);
    }
    if ListAt(s, p, kids, endTag, next) {
      ListRead(s, p, kids, endTag, next);
    }
  }
}
