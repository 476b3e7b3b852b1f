/** Which error the parser reports, in terms of the bytes of the text. */
module SyntaxErrors {
  import opened Options
  import opened Text
  import opened Entities
  import opened StrPairs
  import opened ParserSpec
  import opened ParserProperties
  import opened TopLevel
  import opened Grammar
  import opened Alphabet
  import PrintSpec

  // ----- what stops the loop -----

  /** Markup begins with `open`, and its end is missing. */
  ghost predicate EndMissing(s: string, p: nat, open: string, close: string) {
    exists q: nat :: Blanks(s, p, q) && HasAt(s, q, open) && NowhereFrom(s, q + |open|, close)
  }

  /** Something other than white space or markup. */
  ghost predicate TextBegins(s: string, p: nat) {
    exists q: nat :: Blanks(s, p, q) && q < |s| && s[q] != '<'
  }

  /** A `<` at `q` with neither a name behind it nor a slash and a name. */
  predicate NoNameBehind(s: string, q: nat, k: nat) {
    q < |s| && s[q] == '<' && !HasAt(s, q, "<?") && !HasAt(s, q, "<!") && Blanks(s, q + 1, k) &&
    var start := if k < |s| && s[k] == '/' then k + 1 else k;
    !(start < |s| && LetterByte(s[start]))
  }

  ghost predicate NameMissing(s: string, p: nat) {
    exists q: nat, k: nat :: Blanks(s, p, q) && NoNameBehind(s, q, k)
  }

  /** Attributes one behind another, with white space or nothing in front of each. */
  ghost predicate AttributesAt(s: string, p: nat, attributes: seq<Attribute>, q: nat)
    decreases |attributes|
  {
    if attributes == [] then q == p
    else exists b: nat, m: nat ::
      Blanks(s, p, b) && AttributeAt(s, b, attributes[0], m) && AttributesAt(s, m, attributes[1..], q)
  }

  /** The name of `a` was used before, by an attribute with a value that can be decoded. */
  ghost predicate UsedBefore(s: string, attributes: seq<Attribute>, a: Attribute) {
    exists k :: 0 <= k < |attributes| && Slice(s, attributes[k].name) == Slice(s, a.name) &&
      Reading(Slice(s, attributes[k].value), attributes[k].value.flags).Some?
  }

  /** At `b` there is a letter but no attribute, or one of a name that was used before. */
  ghost predicate AttributeFailsAt(s: string, b: nat, attributes: seq<Attribute>) {
    b < |s| && LetterByte(s[b]) &&
    ((forall a, m: nat :: !AttributeAt(s, b, a, m)) ||
     exists a, m: nat :: AttributeAt(s, b, a, m) && UsedBefore(s, attributes, a))
  }

  /** At `b` there is neither a letter nor the end of a tag. */
  predicate TagEndMissing(s: string, b: nat) {
    !(b < |s| && LetterByte(s[b])) && !(b < |s| && s[b] == '>') && !(b + 1 < |s| && s[b] == '/' && s[b + 1] == '>')
  }

  /** A tag without an end, with the error behind its distinct attributes. */
  ghost predicate TagFailsAt(s: string, p: nat, e: Error) {
    exists attributes: seq<Attribute>, q: nat, b: nat ::
      AttributesAt(s, p, attributes, q) && DistinctNames(s, attributes) && Blanks(s, q, b) &&
      ((e == PARSING_ATTRIBUTE && AttributeFailsAt(s, b, attributes)) || (e == PARSING_ELEMENT && TagEndMissing(s, b)))
  }

  /** The nodes stand one behind another from `p` to `q`. */
  ghost predicate NodesAt(s: string, p: nat, kids: seq<Node>, q: nat)
    decreases |kids|
  {
    if kids == [] then q == p
    else exists m: nat :: NodeAt(s, p, kids[0], m) && NodesAt(s, m, kids[1..], q)
  }

  /** A start tag that goes up to `m`. */
  ghost predicate StartTagAt(s: string, p: nat, name: Span, m: nat) {
    NameInTag(s, p, false, name) &&
    exists attributes: seq<Attribute> :: TagAt(s, name.end, OPEN, attributes, OPEN, m) && DistinctNames(s, attributes)
  }

  /** The tag of an element fails. */
  ghost predicate TagFails(s: string, p: nat, e: Error) {
    exists slash: bool, name: Span :: NameInTag(s, p, slash, name) && TagFailsAt(s, name.end, e)
  }

  /** An element is not closed: nothing stands behind its start tag, or its content ends with another end tag. */
  ghost predicate NotClosed(s: string, p: nat) {
    exists name: Span, m: nat :: StartTagAt(s, p, name, m) &&
      (m == |s| || exists kids: seq<Node>, endTag: Span, next: nat ::
        ListAt(s, m, kids, endTag, next) && Slice(s, endTag) != Slice(s, name))
  }

  /** What stands at `p` and is no node and no end tag, by the error it causes. */
  ghost predicate FailsAt(s: string, p: nat, e: Error) {
    match e
    case NO_ERROR => Blanks(s, p, |s|)
    case PARSING_DECLARATION => EndMissing(s, p, "<?", "?>")
    case PARSING_COMMENT => EndMissing(s, p, "<!--", "-->")
    case PARSING_CDATA => EndMissing(s, p, "<![CDATA[", "]]>")
    case PARSING_UNKNOWN =>
      EndMissing(s, p, "<!", ">") && !OpensWith(s, p, "<!--") && !OpensWith(s, p, "<![CDATA[")
    case PARSING_TEXT => TextBegins(s, p) && NowhereFrom(s, p, "<")
    case PARSING => NameMissing(s, p) || (TextBegins(s, p) && s != "" && FirstAt(s, p, "<", |s| - 1))
    case PARSING_ELEMENT => TagFails(s, p, PARSING_ELEMENT)
    case PARSING_ATTRIBUTE => TagFails(s, p, PARSING_ATTRIBUTE)
    case MISMATCHED_ELEMENT => NotClosed(s, p)
    case EMPTY_DOCUMENT => false
  }

  /** What stops the loop at `p` stands there, or in the content of an element that begins there. Where the content
  ends without an error the element lacks its end tag, and the error is the general one. */
  ghost predicate StopsAt(s: string, p: nat, e: Error)
    decreases |s| - p
  {
    FailsAt(s, p, e) ||
    exists name: Span, m: nat, kids: seq<Node>, q: nat, inner: Error :: p < m <= q <= |s| && m < |s| &&
      StartTagAt(s, p, name, m) && NodesAt(s, m, kids, q) && StopsAt(s, q, inner) &&
      e == if inner == NO_ERROR then PARSING else inner
  }

  // ----- tags -----

  lemma UsedIff(s: string, read: seq<Attribute>, a: Attribute)
    requires DistinctNames(s, read)
    ensures UsedBefore(s, read, a) <==>
      var k := FirstNamed(s, read, Slice(s, a.name), 0);
      k.Some? && Reading(Slice(s, read[k.value].value), read[k.value].value.flags).Some?
  {
    hide Slice, Reading;
    NoneAgain(s, read, Slice(s, a.name));
  }

  lemma FailsIff(s: string, b: nat, read: seq<Attribute>)
    requires b < |s| && IsAlpha(s[b]) && DistinctNames(s, read)
    ensures TakeAttribute(s, b, read).NoAttribute? <==> AttributeFailsAt(s, b, read)
  {
    hide ParseAttribute, AttributeAt, FirstNamed, Slice, Reading, DistinctNames, UsedBefore;
    NoAttributeIff(s, b);
    var one := ParseAttribute(s, b);
    if one.OneAttribute? {
      forall a, m: nat ensures AttributeAt(s, b, a, m) <==> a == one.attribute && m == one.p {
        AttributeIff(s, b, a, m);
      }
      UsedIff(s, read, one.attribute);
    }
  }

  /** From `p` on there are these attributes and then, at `b`, what the tag fails at. */
  ghost predicate TagStops(s: string, p: nat, more: seq<Attribute>, q: nat, b: nat, all: seq<Attribute>, e: Error) {
    AttributesAt(s, p, more, q) && DistinctNames(s, all) && Blanks(s, q, b) &&
    ((e == PARSING_ATTRIBUTE && AttributeFailsAt(s, b, all)) || (e == PARSING_ELEMENT && TagEndMissing(s, b)))
  }

  lemma {:induction false} TagErrorFound(s: string, p: nat, closing: Closing, read: seq<Attribute>)
    returns (more: seq<Attribute>, q: nat, b: nat)
    requires p <= |s| && DistinctNames(s, read) && ParseAttributes(s, p, closing, read).TagFailed?
    ensures TagStops(s, p, more, q, b, read + more, ParseAttributes(s, p, closing, read).error)
    decreases |s| - p
  {
    hide TakeAttribute, DistinctNames, Slice, AttributeAt, Blanks, SkipSpace, AttributeFailsAt;
    var c := SkipSpace(s, p);
    BlanksIff(s, p, c);
    more, q, b := [], p, c;
    assert read + [] == read;
    if c < |s| && IsAlpha(s[c]) {
      FailsIff(s, c, read);
      TakenIs(s, c, read);
      var one := TakeAttribute(s, c, read);
      if one.OneAttribute? {
        var rest, q', b' := TagErrorFound(s, one.p, closing, read + [one.attribute]);
        more, q, b := [one.attribute] + rest, q', b';
        assert read + [one.attribute] + rest == read + more && more[1..] == rest;
      }
    }
  }

  lemma TakenIs(s: string, b: nat, read: seq<Attribute>)
    requires b < |s| && IsAlpha(s[b]) && DistinctNames(s, read)
    ensures var one := TakeAttribute(s, b, read);
      one.OneAttribute? ==> AttributeAt(s, b, one.attribute, one.p) && DistinctNames(s, read + [one.attribute])
  {
    hide ParseAttribute, AttributeAt, FirstNamed, Slice, Reading, DistinctNames;
    var one := ParseAttribute(s, b);
    if one.OneAttribute? {
      AttributeIff(s, b, one.attribute, one.p);
      DistinctMore(s, read, one.attribute);
    }
  }

  lemma LetterAtFailure(s: string, b: nat, read: seq<Attribute>)
    requires AttributeFailsAt(s, b, read)
    ensures b < |s| && IsAlpha(s[b])
  {
  }

  lemma {:induction false} TagErrorRead(s: string, p: nat, closing: Closing, read: seq<Attribute>, more: seq<Attribute>,
      q: nat, b: nat, e: Error)
    requires p <= |s| && TagStops(s, p, more, q, b, read + more, e)
    ensures ParseAttributes(s, p, closing, read) == TagFailed(e)
    decreases |more|
  {
    hide ParseAttribute, FirstNamed, DistinctNames, Slice, AttributeParts, Blanks, SkipSpace, AttributeFailsAt, Reading;
    if more == [] {
      assert read + more == read;
      BlanksIff(s, p, b);
      if e == PARSING_ATTRIBUTE {
        LetterAtFailure(s, b, read);
        FailsIff(s, b, read);
      }
    } else {
      var c: nat, m: nat :| Blanks(s, p, c) && AttributeAt(s, c, more[0], m) && AttributesAt(s, m, more[1..], q);
      BlanksIff(s, p, c);
      LetterAtAttribute(s, c, more[0], m);
      AttributeIff(s, c, more[0], m);
      assert read + [more[0]] + more[1..] == read + more;
      DistinctPrefix(s, read + [more[0]], more[1..]);
      DistinctPrefix(s, read, [more[0]]);
      DistinctMore(s, read, more[0]);
      TagErrorRead(s, m, closing, read + [more[0]], more[1..], q, b, e);
    }
  }

  /** `XMLElement::ParseAttributes` fails with an error exactly where that error stands behind distinct attributes. */
  lemma TagErrorIff(s: string, p: nat, closing: Closing, e: Error)
    requires p <= |s|
    ensures ParseAttributes(s, p, closing, []) == TagFailed(e) <==> TagFailsAt(s, p, e)
  {
    hide ParseAttributes, AttributesAt, DistinctNames, Blanks, AttributeFailsAt, TagEndMissing;
    NothingTwice(s);
    if ParseAttributes(s, p, closing, []) == TagFailed(e) {
      var more, q, b := TagErrorFound(s, p, closing, []);
      assert [] + more == more;
    }
    if TagFailsAt(s, p, e) {
      var attributes: seq<Attribute>, q: nat, b: nat :|
        AttributesAt(s, p, attributes, q) && DistinctNames(s, attributes) && Blanks(s, q, b) &&
        ((e == PARSING_ATTRIBUTE && AttributeFailsAt(s, b, attributes)) ||
          (e == PARSING_ELEMENT && TagEndMissing(s, b)));
      assert [] + attributes == attributes;
      TagErrorRead(s, p, closing, [], attributes, q, b, e);
    }
  }

  // ----- the error of what stops the loop -----

  lemma EndMissingIff(s: string, p: nat, open: string, close: string)
    requires p <= |s|
    ensures EndMissing(s, p, open, close) <==>
      var q := SkipSpace(s, p); HasAt(s, q, open) && q + |open| <= |s| && Find(s, q + |open|, close).None?
  {
    hide Find, Blanks, SkipSpace, NowhereFrom;
    var q := SkipSpace(s, p);
    BlanksIff(s, p, q);
    if HasAt(s, q, open) {
      FirstIff(s, q + |open|, close, q);
    }
    if EndMissing(s, p, open, close) {
      var q': nat :| Blanks(s, p, q') && HasAt(s, q', open) && NowhereFrom(s, q' + |open|, close);
      BlanksIff(s, p, q');
    }
  }

  lemma TextBeginsIff(s: string, p: nat)
    requires p <= |s|
    ensures TextBegins(s, p) <==> SkipSpace(s, p) < |s| && At(s, SkipSpace(s, p)) != '<'
  {
    hide Blanks, SkipSpace;
    BlanksIff(s, p, SkipSpace(s, p));
    if q: nat :| Blanks(s, p, q) && q < |s| && s[q] != '<' {
      BlanksIff(s, p, q);
    }
  }

  lemma NoNameIff(s: string, q: nat, k: nat)
    requires q < |s|
    ensures NoNameBehind(s, q, k) <==>
      s[q] == '<' && !HasAt(s, q, "<?") && !HasAt(s, q, "<!") && k == SkipSpace(s, q + 1) &&
      !IsAlpha(At(s, if At(s, k) == '/' then k + 1 else k))
  {
    hide Blanks, SkipSpace, HasAt;
    BlanksIff(s, q + 1, k);
  }

  lemma NameMissingIff(s: string, p: nat)
    requires p <= |s|
    ensures NameMissing(s, p) <==>
      var q := SkipSpace(s, p);
      q < |s| && s[q] == '<' && !HasAt(s, q, "<?") && !HasAt(s, q, "<!") &&
      var k := SkipSpace(s, q + 1); !IsAlpha(At(s, if At(s, k) == '/' then k + 1 else k))
  {
    hide Blanks, SkipSpace, NoNameBehind, HasAt, IsAlpha;
    var q := SkipSpace(s, p);
    BlanksIff(s, p, q);
    if NameMissing(s, p) {
      var q': nat, k: nat :| Blanks(s, p, q') && NoNameBehind(s, q', k);
      BlanksIff(s, p, q');
      NoNameBound(s, q, k);
      NoNameIff(s, q, k);
    } else if q < |s| {
      NoNameIff(s, q, SkipSpace(s, q + 1));
    }
  }

  lemma NoNameBound(s: string, q: nat, k: nat)
    requires NoNameBehind(s, q, k)
    ensures q < |s|
  {
  }

  /** Without a node or an element at `p`, the loop stops with the error of what stands there. */
  lemma LeafErrorFound(s: string, p: nat)
    requires p <= |s| && !KeepsNode(s, p) && ParseList(s, p).Stopped?
    requires Identify(s, p).End? || Identify(s, p).kind != ElementKind
    ensures FailsAt(s, p, ParseList(s, p).error)
  {
    hide Find, HasAt, SkipSpace, EndMissing, OpensWith, NowhereFrom, FirstAt, TextBegins, Blanks, ParseTextNode;
    if Identify(s, p).Identified? && Identify(s, p).kind == TextKind {
      TextErrorFound(s, p);
    } else {
      BlanksIff(s, p, |s|);
      EndMissingIff(s, p, "<?", "?>");
      EndMissingIff(s, p, "<!--", "-->");
      EndMissingIff(s, p, "<![CDATA[", "]]>");
      EndMissingIff(s, p, "<!", ">");
      OpensIff(s, p, "<!--");
      OpensIff(s, p, "<![CDATA[");
    }
  }

  lemma TextErrorFound(s: string, p: nat)
    requires p <= |s| && !KeepsNode(s, p) && ParseList(s, p).Stopped?
    requires Identify(s, p).Identified? && Identify(s, p).kind == TextKind
    ensures FailsAt(s, p, ParseList(s, p).error)
  {
    hide Find, HasAt, SkipSpace, NowhereFrom, FirstAt, TextBegins, ParseElement, ParseSpan;
    TextBeginsIff(s, p);
    FirstIff(s, p, "<", |s| - 1);
    FindBound(s, p, "<");
  }

  lemma FindBound(s: string, p: nat, w: string)
    requires p <= |s|
    ensures Find(s, p, w).Some? ==> Find(s, p, w).value + |w| <= |s|
  {
  }

  /** The errors that no element causes. */
  predicate LeafError(e: Error) {
    e in {NO_ERROR, PARSING_DECLARATION, PARSING_COMMENT, PARSING_CDATA, PARSING_UNKNOWN, PARSING_TEXT}
  }

  lemma LeafErrorRead(s: string, p: nat, e: Error)
    requires p <= |s| && FailsAt(s, p, e) && (LeafError(e) || (e == PARSING && !NameMissing(s, p)))
    ensures ParseList(s, p) == Stopped([], e)
  {
    hide Find, HasAt, SkipSpace, EndMissing, OpensWith, NowhereFrom, FirstAt, TextBegins, Blanks, NameMissing;
    var q := SkipSpace(s, p);
    match e {
      case NO_ERROR => BlanksIff(s, p, |s|);
      case PARSING_DECLARATION =>
        EndMissingIff(s, p, "<?", "?>");
        Opens(s, q, "<?");
      case PARSING_COMMENT =>
        EndMissingIff(s, p, "<!--", "-->");
        Opens(s, q, "<!--");
        OnlyOne(s, q, "<!--", "<?", 1);
      case PARSING_CDATA =>
        EndMissingIff(s, p, "<![CDATA[", "]]>");
        Opens(s, q, "<![CDATA[");
        OnlyOne(s, q, "<![CDATA[", "<?", 1);
        OnlyOne(s, q, "<![CDATA[", "<!--", 2);
      case PARSING_UNKNOWN =>
        EndMissingIff(s, p, "<!", ">");
        Opens(s, q, "<!");
        OpensIff(s, p, "<!--");
        OpensIff(s, p, "<![CDATA[");
        OnlyOne(s, q, "<!", "<?", 1);
      case _ => TextErrorRead(s, p, e);
    }
  }

  lemma TextErrorRead(s: string, p: nat, e: Error)
    requires p <= |s| && FailsAt(s, p, e) && (e == PARSING_TEXT || (e == PARSING && !NameMissing(s, p)))
    ensures ParseList(s, p) == Stopped([], e)
  {
    hide Find, HasAt, SkipSpace, NowhereFrom, FirstAt, TextBegins, NameMissing, ParseElement, ParseSpan;
    TextBeginsIff(s, p);
    NoMarkup(s, SkipSpace(s, p));
    FirstIff(s, p, "<", if e == PARSING then |s| - 1 else p);
  }

  lemma NoMarkup(s: string, q: nat)
    requires At(s, q) != '<'
    ensures !HasAt(s, q, "<?") && !HasAt(s, q, "<!") && !HasAt(s, q, "<!--") && !HasAt(s, q, "<![CDATA[")
  {
    NotHasAt(s, q, "<?", 0);
    NotHasAt(s, q, "<!", 0);
    NotHasAt(s, q, "<!--", 0);
    NotHasAt(s, q, "<![CDATA[", 0);
  }

  /** How a list stops at an element that it does not keep. */
  lemma ElementOutcome(s: string, p: nat)
    requires p <= |s| && !KeepsNode(s, p) && ParseList(s, p).Stopped?
    requires Identify(s, p).Identified? && Identify(s, p).kind == ElementKind
    ensures var q, e := SkipSpace(s, p), ParseList(s, p).error;
      q < |s| && s[q] == '<' && !HasAt(s, q, "<?") && !HasAt(s, q, "<!") &&
      var r := ParseElement(s, q + 1);
      (r.Failed? && e == if r.error == NO_ERROR then PARSING else r.error) ||
      (r.Parsed? && r.node.closing != CLOSING && !EndTagFits(s, r.node, r.endTag) && e == MISMATCHED_ELEMENT)
  {
    hide SkipSpace, HasAt, ParseElement, EndTagFits;
  }

  lemma {:induction false} ElementErrorFound(s: string, p: nat)
    requires p <= |s| && !KeepsNode(s, p) && ParseList(s, p).Stopped?
    requires Identify(s, p).Identified? && Identify(s, p).kind == ElementKind
    ensures StopsAt(s, p, ParseList(s, p).error)
    decreases |s| - p, 0
  {
    hide ParseAttributes, SkipSpace, NameEnd, NameInTag, TagAt, DistinctNames, Slice, HasAt, NameMissing, TagFailsAt,
      ListAt, NodesAt, StopsAt, KeepsNode, Identify, FailsAt, StartTagAt, ParseList, NotClosed;
    ElementOutcome(s, p);
    var q, e := SkipSpace(s, p), ParseList(s, p).error;
    NameFound(s, p, q);
    NameMissingIff(s, p);
    var k := SkipSpace(s, q + 1);
    var closing, start := if At(s, k) == '/' then CLOSING else OPEN, if At(s, k) == '/' then k + 1 else k;
    if !IsAlpha(At(s, start)) {
      NameMissingFails(s, p);
    } else {
      var name := Span(start, NameEnd(s, start), PLAIN);
      var tag := ParseAttributes(s, name.end, closing, []);
      if tag.TagFailed? {
        TagErrorIff(s, name.end, closing, tag.error);
        ElementTagFails(s, p, closing == CLOSING, name, tag.error);
      } else {
        TagIff(s, name.end, closing, tag.attributes, tag.closing, tag.p);
        StartTag(s, p, name, tag.attributes, tag.p);
        ContentFails(s, p, name, tag.p, e);
      }
    }
  }

  lemma NameMissingFails(s: string, p: nat)
    requires NameMissing(s, p)
    ensures StopsAt(s, p, PARSING)
  {
    hide NameMissing;
  }

  lemma StartTag(s: string, p: nat, name: Span, attributes: seq<Attribute>, m: nat)
    requires NameInTag(s, p, false, name) && TagAt(s, name.end, OPEN, attributes, OPEN, m) &&
      DistinctNames(s, attributes)
    ensures StartTagAt(s, p, name, m)
  {
    hide NameInTag, TagAt, DistinctNames;
  }

  /** Behind a start tag there is nothing, a list that stops, or another end tag. */
  lemma {:induction false} ContentFails(s: string, p: nat, name: Span, m: nat, e: Error)
    requires p < m <= |s| && StartTagAt(s, p, name, m)
    requires m < |s| ==> !ParseList(s, m).BrokenList?
    requires if m < |s| && ParseList(s, m).Stopped?
      then e == if ParseList(s, m).error == NO_ERROR then PARSING else ParseList(s, m).error
      else e == MISMATCHED_ELEMENT && (m < |s| ==> Slice(s, ParseList(s, m).endTag) != Slice(s, name))
    ensures StopsAt(s, p, e)
    decreases |s| - m, 2
  {
    hide ParseList, StartTagAt, NodesAt, ListAt, Slice;
    if m < |s| {
      var list := ParseList(s, m);
      if list.Stopped? {
        var end := ChainFound(s, m);
        assert StopsAt(s, end, list.error);
      } else {
        ListIff(s, m, list.kids, list.endTag, list.p);
        assert NotClosed(s, p);
      }
    } else {
      assert NotClosed(s, p);
    }
  }

  lemma ElementTagFails(s: string, p: nat, slash: bool, name: Span, e: Error)
    requires NameInTag(s, p, slash, name) && TagFailsAt(s, name.end, e)
    ensures StopsAt(s, p, e) && e != NO_ERROR
  {
    hide NameInTag, AttributesAt, DistinctNames, Blanks, AttributeFailsAt, TagEndMissing;
    assert e == PARSING_ATTRIBUTE || e == PARSING_ELEMENT;
    assert TagFails(s, p, e);
  }

  /** The nodes in front of what stops the loop, and where that stands. */
  lemma {:induction false} ChainFound(s: string, p: nat) returns (q: nat)
    requires p <= |s| && ParseList(s, p).Stopped?
    ensures p <= q <= |s| && NodesAt(s, p, ParseList(s, p).kids, q) && StopsAt(s, q, ParseList(s, p).error)
    decreases |s| - p, 1
  {
    hide StopsAt, FailsAt, NodeAt, ParseNode, EndTagFits, Identify;
    q := p;
    if KeepsNode(s, p) {
      NodeFound(s, p);
      var next := NextNode(s, p);
      q := ChainFound(s, next);
      var rest := ParseList(s, next);
      assert ([KeptNode(s, p)] + rest.kids)[1..] == rest.kids;
    } else if Identify(s, p).Identified? && Identify(s, p).kind == ElementKind {
      ElementErrorFound(s, p);
      NothingKept(s, p);
    } else {
      LeafErrorFound(s, p);
      NothingKept(s, p);
      Stops(s, p, ParseList(s, p).error);
    }
  }

  lemma Stops(s: string, p: nat, e: Error)
    requires FailsAt(s, p, e)
    ensures StopsAt(s, p, e)
  {
    hide FailsAt;
  }

  lemma NothingKept(s: string, p: nat)
    requires p <= |s| && !KeepsNode(s, p) && ParseList(s, p).Stopped?
    ensures ParseList(s, p).kids == []
  {
    hide ParseNode, EndTagFits, Identify;
  }

  // ----- and the other way round -----

  lemma ElementStops(s: string, p: nat, r: NodeResult)
    requires p <= |s| && Identify(s, p) == Identified(ElementKind, SkipSpace(s, p) + 1)
    requires r == ParseElement(s, SkipSpace(s, p) + 1)
    ensures r.Failed? ==> ParseList(s, p) == Stopped([], if r.error == NO_ERROR then PARSING else r.error)
    ensures r.Parsed? && r.node.closing != CLOSING && !EndTagFits(s, r.node, r.endTag) ==>
      ParseList(s, p) == Stopped([], MISMATCHED_ELEMENT)
  {
    hide Identify, EndTagFits, ParseElement;
  }

  lemma Nameless(s: string, p: nat)
    requires p <= |s| && var k := SkipSpace(s, p); !IsAlpha(At(s, if At(s, k) == '/' then k + 1 else k))
    ensures ParseElement(s, p) == Failed(NO_ERROR)
  {
    hide SkipSpace, IsAlpha, ParseAttributes, NameEnd;
  }

  lemma NameMissingStops(s: string, p: nat)
    requires p <= |s| && NameMissing(s, p)
    ensures ParseList(s, p) == Stopped([], PARSING)
  {
    hide SkipSpace, HasAt, NameMissing, ParseList, ParseElement, IsAlpha;
    NameMissingIff(s, p);
    var q := SkipSpace(s, p);
    NoLongerMarkup(s, q);
    Nameless(s, q + 1);
    ElementStops(s, p, Failed(NO_ERROR));
  }

  lemma NoLongerMarkup(s: string, q: nat)
    requires !HasAt(s, q, "<!")
    ensures !HasAt(s, q, "<!--") && !HasAt(s, q, "<![CDATA[")
  {
    hide HasAt;
    HasAtConcat(s, q, "<!", "--");
    HasAtConcat(s, q, "<!", "[CDATA[");
    assert "<!" + "--" == "<!--" && "<!" + "[CDATA[" == "<![CDATA[";
  }

  lemma TagFailsStops(s: string, p: nat, e: Error)
    requires p <= |s| && e != NO_ERROR && TagFails(s, p, e)
    ensures ParseList(s, p) == Stopped([], e)
  {
    hide SkipSpace, HasAt, NameInTag, TagFailsAt, ParseList, NameEnd, ParseAttributes, Identify;
    var slash: bool, name: Span :| NameInTag(s, p, slash, name) && TagFailsAt(s, name.end, e);
    NameRead(s, p, slash, name);
    TagErrorIff(s, name.end, if slash then CLOSING else OPEN, e);
    ElementStops(s, p, Failed(e));
  }

  /** An element behind whose start tag the position is `m`. */
  lemma StartTagRead(s: string, p: nat, name: Span, m: nat) returns (attributes: seq<Attribute>)
    requires p <= |s| && StartTagAt(s, p, name, m)
    ensures p < m <= |s| && Identify(s, p) == Identified(ElementKind, SkipSpace(s, p) + 1)
    ensures ParseElement(s, SkipSpace(s, p) + 1) ==
      if m == |s| then Parsed(Element(name, attributes, OPEN, None, []), None, m)
      else match ParseList(s, m)
        case Stopped(_, error) => Failed(error)
        case BrokenList(_) => BrokenNode
        case Closed(kids, endTag, after) =>
          Parsed(Element(name, attributes, OPEN, Some(endTag), kids), Some(endTag), after)
  {
    hide SkipSpace, HasAt, NameInTag, TagAt, DistinctNames, ParseList, NameEnd, ParseAttributes, Identify;
    attributes :| TagAt(s, name.end, OPEN, attributes, OPEN, m) && DistinctNames(s, attributes);
    NameRead(s, p, false, name);
    TagIff(s, name.end, OPEN, attributes, OPEN, m);
  }

  lemma NotClosedStops(s: string, p: nat)
    requires p <= |s| && NotClosed(s, p)
    ensures ParseList(s, p) == Stopped([], MISMATCHED_ELEMENT)
  {
    hide StartTagAt, ListAt, Slice, ParseList, ParseElement, Identify, SkipSpace;
    var name: Span, m: nat :| StartTagAt(s, p, name, m) &&
      (m == |s| || exists kids: seq<Node>, endTag: Span, next: nat ::
        ListAt(s, m, kids, endTag, next) && Slice(s, endTag) != Slice(s, name));
    var attributes := StartTagRead(s, p, name, m);
    if m < |s| {
      var kids: seq<Node>, endTag: Span, next: nat :|
        ListAt(s, m, kids, endTag, next) && Slice(s, endTag) != Slice(s, name);
      ListIff(s, m, kids, endTag, next);
    }
    ElementStops(s, p, ParseElement(s, SkipSpace(s, p) + 1));
  }

  lemma FailRead(s: string, p: nat, e: Error)
    requires p <= |s| && FailsAt(s, p, e)
    ensures ParseList(s, p) == Stopped([], e)
  {
    hide NotClosed, TagFails, NameMissing, EndMissing, TextBegins, ParseList, NowhereFrom, FirstAt, Blanks, OpensWith;
    if e == MISMATCHED_ELEMENT {
      NotClosedStops(s, p);
    } else if e == PARSING_ELEMENT || e == PARSING_ATTRIBUTE {
      TagFailsStops(s, p, e);
    } else if e == PARSING && NameMissing(s, p) {
      NameMissingStops(s, p);
    } else {
      LeafErrorRead(s, p, e);
    }
  }

  lemma StopsInside(s: string, p: nat, e: Error) returns (name: Span, m: nat, kids: seq<Node>, q: nat, inner: Error)
    requires StopsAt(s, p, e) && !FailsAt(s, p, e)
    ensures p < m <= q <= |s| && m < |s| && StartTagAt(s, p, name, m) && NodesAt(s, m, kids, q)
    ensures StopsAt(s, q, inner) && e == if inner == NO_ERROR then PARSING else inner
  {
    hide StartTagAt, NodesAt, FailsAt;
    name, m, kids, q, inner :| p < m <= q <= |s| && m < |s| && StartTagAt(s, p, name, m) && NodesAt(s, m, kids, q) &&
      StopsAt(s, q, inner) && e == if inner == NO_ERROR then PARSING else inner;
  }

  lemma {:induction false} StopRead(s: string, p: nat, e: Error)
    requires p <= |s| && StopsAt(s, p, e)
    ensures ParseList(s, p) == Stopped([], e)
    decreases |s| - p, 0
  {
    hide StopsAt, StartTagAt, NodesAt, FailsAt, ParseList, ParseElement, Identify, SkipSpace;
    if FailsAt(s, p, e) {
      FailRead(s, p, e);
    } else {
      var name, m, kids, q, inner := StopsInside(s, p, e);
      var attributes := StartTagRead(s, p, name, m);
      ChainRead(s, m, kids, q, inner);
      ElementStops(s, p, Failed(inner));
    }
  }

  lemma {:induction false} ChainRead(s: string, p: nat, kids: seq<Node>, q: nat, e: Error)
    requires p <= |s| && NodesAt(s, p, kids, q) && q <= |s| && StopsAt(s, q, e)
    ensures ParseList(s, p) == Stopped(kids, e)
    decreases |s| - p, 1
  {
    hide StopsAt, NodeAt, ParseNode, EndTagFits, Identify;
    if kids == [] {
      StopRead(s, p, e);
    } else {
      var m: nat :| NodeAt(s, p, kids[0], m) && NodesAt(s, m, kids[1..], q);
      NodeRead(s, p, kids[0], m);
      ChainRead(s, m, kids[1..], q, e);
      assert [kids[0]] + kids[1..] == kids;
    }
  }

  /** `XMLNode::ParseDeep` stops with these children and this error exactly where the children stand one behind another
  in the text, and then what the error stands for. */
  lemma ErrorIff(s: string, p: nat, kids: seq<Node>, e: Error)
    requires p <= |s|
    ensures ParseList(s, p) == Stopped(kids, e) <==>
      exists q: nat :: q <= |s| && NodesAt(s, p, kids, q) && StopsAt(s, q, e)
  {
    hide ParseList, NodesAt, StopsAt;
    if ParseList(s, p) == Stopped(kids, e) {
      var q := ChainFound(s, p);
    }
    if q: nat :| q <= |s| && NodesAt(s, p, kids, q) && StopsAt(s, q, e) {
      ChainRead(s, p, kids, q, e);
    }
  }

  // ----- documents -----

  /** The byte order mark. */
  predicate MarkAt(text: string, p: nat) {
    p + 3 <= |text| && text[p] as int == 239 && text[p + 1] as int == 187 && text[p + 2] as int == 191
  }

  /** White space, and then perhaps the mark, are in front of the buffer. */
  ghost predicate LeadAt(text: string, start: nat, bom: bool) {
    exists p: nat :: Blanks(text, 0, p) && (bom <==> MarkAt(text, p)) && start == if bom then p + 3 else p
  }

  lemma MarkIff(text: string, p: nat)
    ensures MarkAt(text, p) <==> HasAt(text, p, PrintSpec.BOM)
  {
    ByteOrderMark();
    if MarkAt(text, p) {
      assert text[p..p + 3] == PrintSpec.BOM;
    }
    if HasAt(text, p, PrintSpec.BOM) {
      HasAtChar(text, p, PrintSpec.BOM, 0);
      HasAtChar(text, p, PrintSpec.BOM, 1);
      HasAtChar(text, p, PrintSpec.BOM, 2);
    }
  }

  lemma LeadIff(text: string, start: nat, bom: bool)
    ensures LeadAt(text, start, bom) <==>
      var p := SkipSpace(text, 0);
      bom == HasAt(text, p, PrintSpec.BOM) && start == if bom then p + |PrintSpec.BOM| else p
  {
    hide Blanks, SkipSpace, MarkAt, HasAt;
    var p := SkipSpace(text, 0);
    BlanksIff(text, 0, p);
    MarkIff(text, p);
    if LeadAt(text, start, bom) {
      var p': nat :| Blanks(text, 0, p') && (bom <==> MarkAt(text, p')) && start == if bom then p' + 3 else p';
      BlanksIff(text, 0, p');
    }
  }

  /** The buffer holds nodes that end in what the error stands for, or in an end tag, behind which nothing is read. */
  ghost predicate ContentAt(s: string, kids: seq<Node>, e: Error) {
    (exists q: nat :: q <= |s| && NodesAt(s, 0, kids, q) && StopsAt(s, q, e)) ||
    (e == NO_ERROR && exists endTag: Span, next: nat :: ListAt(s, 0, kids, endTag, next))
  }

  /** Behind the lead stands the buffer, and in it what the children and the error say; an empty one is an error. */
  ghost predicate Stands(text: string, start: nat, s: string, bom: bool, kids: seq<Node>, e: Error) {
    start <= |text| && LeadAt(text, start, bom) && s == text[start..] &&
    if s == "" then kids == [] && e == EMPTY_DOCUMENT else ContentAt(s, kids, e)
  }

  /** `XMLDocument::Parse` comes back with this buffer, these children and this error exactly for the texts in which
  they stand behind the lead. */
  lemma DocumentIff(text: string, s: string, bom: bool, kids: seq<Node>, e: Error)
    ensures ParseDocument(text) == Document(s, bom, kids, e) <==>
      exists start: nat :: Stands(text, start, s, bom, kids, e)
  {
    hide ContentAt, LeadAt, ParseDocument;
    if ParseDocument(text) == Document(s, bom, kids, e) {
      LeadFound(text, s, bom, kids, e);
      assert Stands(text, Lead(text), s, bom, kids, e);
    }
    if exists start: nat :: Stands(text, start, s, bom, kids, e) {
      var start: nat :| Stands(text, start, s, bom, kids, e);
      LeadIff(text, start, bom);
      LeadRead(text, s, bom, kids, e);
    }
  }

  lemma LeadFound(text: string, s: string, bom: bool, kids: seq<Node>, e: Error)
    requires ParseDocument(text) == Document(s, bom, kids, e)
    ensures LeadAt(text, Lead(text), bom) && s == text[Lead(text)..]
    ensures if s == "" then kids == [] && e == EMPTY_DOCUMENT else ContentAt(s, kids, e)
  {
    hide ParseList, ContentAt, LeadAt, SkipSpace, HasAt;
    LeadIff(text, Lead(text), bom);
    ContentIff(text[Lead(text)..], kids, e);
  }

  lemma LeadRead(text: string, s: string, bom: bool, kids: seq<Node>, e: Error)
    requires bom == HasAt(text, SkipSpace(text, 0), PrintSpec.BOM) && s == text[Lead(text)..]
    requires if s == "" then kids == [] && e == EMPTY_DOCUMENT else ContentAt(s, kids, e)
    ensures ParseDocument(text) == Document(s, bom, kids, e)
  {
    hide ParseList, ContentAt, SkipSpace, HasAt;
    ContentIff(s, kids, e);
  }

  lemma ContentIff(s: string, kids: seq<Node>, e: Error)
    ensures ContentAt(s, kids, e) <==>
      match ParseList(s, 0)
      case Closed(kids', _, _) => kids == kids' && e == NO_ERROR
      case Stopped(kids', error) => kids == kids' && e == error
      case BrokenList(_) => false
  {
    hide ParseList, NodesAt, StopsAt, ListAt;
    var r := ParseList(s, 0);
    ErrorIff(s, 0, kids, e);
    if r.Closed? {
      ListIff(s, 0, r.kids, r.endTag, r.p);
    }
    if ContentAt(s, kids, e) {
      if q: nat :| q <= |s| && NodesAt(s, 0, kids, q) && StopsAt(s, q, e) {
        ChainRead(s, 0, kids, q, e);
      } else {
        var endTag: Span, next: nat :| ListAt(s, 0, kids, endTag, next);
        ListIff(s, 0, kids, endTag, next);
      }
    }
  }

  // ----- examples -----

  /** A text that begins with `<` is its own buffer. */
  lemma WholeBuffer(s: string, kids: seq<Node>, e: Error)
    requires s != "" && s[0] == '<' && ContentAt(s, kids, e)
    ensures ParseDocument(s) == Document(s, false, kids, e)
  {
    hide ContentAt, ParseDocument;
    assert Blanks(s, 0, 0) && !MarkAt(s, 0) && LeadAt(s, 0, false);
    assert s[0..] == s && Stands(s, 0, s, false, kids, e);
    DocumentIff(s, s, false, kids, e);
  }

  /** Either quote may stand around a value. */
  lemma QuotesExample(quote: char, s: string)
    requires quote as int == 34 || quote as int == 39
    requires s == "<a b=" + [quote] + "c" + [quote] + "/>"
    ensures var b := Attribute(Span(3, 4, PLAIN), Span(6, 7, BOTH));
      ParseDocument(s) == Document(s, false, [Element(Span(1, 2, PLAIN), [b], CLOSED, None, [])], NO_ERROR) &&
      Slice(s, Span(1, 2, PLAIN)) == "a" && Slice(s, b.name) == "b" &&
      Reading(Slice(s, b.value), b.value.flags) == Some("c")
  {
    hide ParseDocument, HasAt, Decode, StopsAt, NodesAt, NodeAt, ContentAt;
    var b := Attribute(Span(3, 4, PLAIN), Span(6, 7, BOTH));
    var a := Element(Span(1, 2, PLAIN), [b], CLOSED, None, []);
    assert |s| == 10 && s[..5] == "<a b=" && s[5] == quote && s[6] == 'c' && s[7] == quote;
    assert s[8] == '/' && s[9] == '>';
    assert s[0] == '<' && s[1] == 'a' && s[2] == ' ' && s[3] == 'b' && s[4] == '=';
    QuotedElement(quote, s, a, b);
    ElementToEnd(s, a);
    WholeBuffer(s, [a], NO_ERROR);
    assert s[1..2] == "a" && s[3..4] == "b" && s[6..7] == "c";
    LetterReads();
  }

  lemma QuotedElement(quote: char, s: string, a: Node, b: Attribute)
    requires (quote as int == 34 || quote as int == 39) && |s| == 10
    requires s[0] == '<' && s[1] == 'a' && s[2] == ' ' && s[3] == 'b' && s[4] == '=' && s[5] == quote && s[6] == 'c'
    requires s[7] == quote && s[8] == '/' && s[9] == '>'
    requires b == Attribute(Span(3, 4, PLAIN), Span(6, 7, BOTH))
    requires a == Element(Span(1, 2, PLAIN), [b], CLOSED, None, [])
    ensures NodeAt(s, 0, a, 10)
  {
    assert AttributeParts(s, 3, 4, 4, 5, 7) && AttributeAt(s, 3, b, 8);
    assert Blanks(s, 8, 8) && TagEndAt(s, 8, OPEN, CLOSED, 10) && TagAt(s, 8, OPEN, [], CLOSED, 10);
    assert [b][1..] == [] && Blanks(s, 2, 3) && TagAt(s, 2, OPEN, [b], CLOSED, 10);
    assert Blanks(s, 0, 0) && Blanks(s, 1, 1) && NameInTag(s, 0, false, a.name);
  }

  lemma ElementToEnd(s: string, a: Node)
    requires s != "" && NodeAt(s, 0, a, |s|)
    ensures ContentAt(s, [a], NO_ERROR)
  {
    hide NodeAt;
    assert Blanks(s, |s|, |s|) && StopsAt(s, |s|, NO_ERROR);
    assert [a][1..] == [] && NodesAt(s, |s|, [], |s|) && NodesAt(s, 0, [a], |s|);
  }

  lemma LetterReads()
    ensures Reading("c", BOTH) == Some("c")
  {
    assert TurnAt("c", 0, BOTH) == Put(1, "c");
    assert Decode("c", 1, 1, BOTH) == Some("") && "c" + "" == "c";
  }

  /** A comment without an end is reported as one. */
  lemma CommentExample(s: string)
    requires s == "<!-- x"
    ensures ParseDocument(s) == Document(s, false, [], PARSING_COMMENT)
  {
    hide ParseDocument;
    assert Blanks(s, 0, 0) && HasAt(s, 0, "<!--");
    NoEnd(s);
    assert EndMissing(s, 0, "<!--", "-->") && StopsAt(s, 0, PARSING_COMMENT) && NodesAt(s, 0, [], 0);
    WholeBuffer(s, [], PARSING_COMMENT);
  }

  lemma NoEnd(s: string)
    requires s == "<!-- x"
    ensures NowhereFrom(s, 4, "-->")
  {
    forall k: nat | 4 <= k <= |s| ensures !HasAt(s, k, "-->") {
      NotHasAt(s, k, "-->", 0);
    }
  }
}
