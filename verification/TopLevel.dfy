/** Where a parse without error ends: at the end of the text, or behind an end tag that nothing opened. */
module TopLevel {
  import opened Text
  import opened Entities
  import opened StrPairs
  import opened ParserSpec
  import opened ParserProperties
  import PrintSpec

  // ----- how far the child loop gets -----

  /** The node at `q` is kept: it parses, it is no end tag, and it was closed as it should be. */
  predicate KeepsNode(s: string, p: nat)
    requires p <= |s|
  {
    match Identify(s, p)
    case End => false
    case Identified(kind, q) =>
      match ParseNode(s, kind, q)
      case Parsed(n, endTag, next) => !(n.Element? && n.closing == CLOSING) && EndTagFits(s, n, endTag)
      case _ => false
  }

  /** The position behind the node kept at `p`. */
  function NextNode(s: string, p: nat): (q: nat)
    requires p <= |s| && KeepsNode(s, p)
    ensures p < q <= |s|
  {
    var id := Identify(s, p);
    ParseNode(s, id.kind, id.p).p
  }

  /** The child loop that starts at `p` comes to `q`. */
  predicate Reaches(s: string, p: nat, q: nat)
    requires p <= |s|
    decreases |s| - p
  {
    p == q || (KeepsNode(s, p) && Reaches(s, NextNode(s, p), q))
  }

  /** The next thing at `q` is a complete end tag. */
  predicate EndTagAt(s: string, q: nat)
    requires q <= |s|
  {
    var open := SkipSpace(s, q);
    At(s, open) == '<' &&
    var slash := SkipSpace(s, open + 1);
    At(s, slash) == '/' && IsAlpha(At(s, slash + 1)) &&
    var tag := ParseAttributes(s, NameEnd(s, slash + 1), CLOSING, []);
    tag.Tag? && tag.closing == CLOSING
  }

  /** The loop at `p` comes to an end tag that none of its nodes opened. */
  ghost predicate ComesToEndTag(s: string, p: nat)
    requires p <= |s|
  {
    exists q: nat :: q <= |s| && Reaches(s, p, q) && EndTagAt(s, q)
  }

  /** The loop at `p` comes to the end of the text, with nothing but white space behind the last node. */
  ghost predicate ReadsToEnd(s: string, p: nat)
    requires p <= |s|
  {
    exists q: nat :: q <= |s| && Reaches(s, p, q) && SkipSpace(s, q) == |s|
  }

  /** The loop takes what stands at `p` for an end tag. */
  predicate TakesEndTag(s: string, p: nat)
    requires p <= |s|
  {
    var id := Identify(s, p);
    id.Identified? && var r := ParseNode(s, id.kind, id.p); r.Parsed? && r.node.Element? && r.node.closing == CLOSING
  }

  lemma EndTagIff(s: string, p: nat)
    requires p <= |s|
    ensures EndTagAt(s, p) <==> TakesEndTag(s, p)
  {
    hide ParseAttributes, ParseElement, HasAt, NameEnd, ParseSpan, ParseTextNode;
    if EndTagAt(s, p) {
      SlashIsElement(s, p);
      ElementIsEndTag(s, SkipSpace(s, p) + 1);
    }
    if TakesEndTag(s, p) {
      var id := Identify(s, p);
      NodeIsElement(s, id.kind, id.p);
      ElementIsEndTag(s, id.p);
    }
  }

  /** A slash behind the `<` makes an element, not other markup. */
  lemma SlashIsElement(s: string, p: nat)
    requires p <= |s| && At(s, SkipSpace(s, p)) == '<' && At(s, SkipSpace(s, SkipSpace(s, p) + 1)) == '/'
    ensures Identify(s, p) == Identified(ElementKind, SkipSpace(s, p) + 1)
  {
    var open := SkipSpace(s, p);
    NotHasAt(s, open, "<?", 1);
    NotHasAt(s, open, "<!", 1);
    NotHasAt(s, open, "<!--", 1);
    NotHasAt(s, open, "<![CDATA[", 1);
  }

  lemma ElementIsEndTag(s: string, p: nat)
    requires p <= |s|
    ensures (ParseElement(s, p).Parsed? && ParseElement(s, p).node.closing == CLOSING) <==>
      var slash := SkipSpace(s, p);
      At(s, slash) == '/' && IsAlpha(At(s, slash + 1)) &&
      var tag := ParseAttributes(s, NameEnd(s, slash + 1), CLOSING, []); tag.Tag? && tag.closing == CLOSING
  {
    hide ParseAttributes, ParseList;
  }

  /** What the loop does with the thing at `p`. */
  lemma ListStep(s: string, p: nat)
    requires p <= |s|
    ensures KeepsNode(s, p) ==>
      exists n :: ParseList(s, p) == Before([n], ParseList(s, NextNode(s, p)))
    ensures TakesEndTag(s, p) ==> ParseList(s, p).Closed? && !KeepsNode(s, p) && SkipSpace(s, p) < |s|
    ensures !KeepsNode(s, p) && ParseList(s, p).Closed? ==> TakesEndTag(s, p)
    ensures SkipSpace(s, p) == |s| ==> ParseList(s, p) == Stopped([], NO_ERROR) && !KeepsNode(s, p)
    ensures !KeepsNode(s, p) && ParseList(s, p).Stopped? && ParseList(s, p).error == NO_ERROR ==> SkipSpace(s, p) == |s|
  {
    hide ParseNode, EndTagFits, HasAt;
    var id := Identify(s, p);
    if id.Identified? {
      var r := ParseNode(s, id.kind, id.p);
      if KeepsNode(s, p) {
        assert ParseList(s, p) == Before([r.node], ParseList(s, NextNode(s, p)));
      }
    }
  }

  /** The child loop hands an end tag to its parent exactly if it comes to one that it did not open. */
  lemma {:induction false} ClosedIff(s: string, p: nat)
    requires p <= |s|
    ensures ParseList(s, p).Closed? <==> ComesToEndTag(s, p)
    decreases |s| - p
  {
    hide KeepsNode, ParseList, EndTagAt, TakesEndTag, NextNode;
    ListStep(s, p);
    EndTagIff(s, p);
    if EndTagAt(s, p) {
      assert Reaches(s, p, p);
    }
    if KeepsNode(s, p) {
      var next := NextNode(s, p);
      ClosedIff(s, next);
      if ComesToEndTag(s, next) {
        var q: nat :| q <= |s| && Reaches(s, next, q) && EndTagAt(s, q);
        assert Reaches(s, p, q);
      }
    }
  }

  /** It stops without an error exactly if nothing but white space is left behind its last node. */
  lemma {:induction false} StoppedIff(s: string, p: nat)
    requires p <= |s|
    ensures var r := ParseList(s, p); r.Stopped? && r.error == NO_ERROR <==> ReadsToEnd(s, p)
    decreases |s| - p
  {
    hide KeepsNode, ParseList, EndTagAt, TakesEndTag, NextNode, SkipSpace;
    ListStep(s, p);
    if SkipSpace(s, p) == |s| {
      assert Reaches(s, p, p);
    }
    if KeepsNode(s, p) {
      var next := NextNode(s, p);
      StoppedIff(s, next);
      if ReadsToEnd(s, next) {
        var q: nat :| q <= |s| && Reaches(s, next, q) && SkipSpace(s, q) == |s|;
        assert Reaches(s, p, q);
      }
    }
  }

  /** A document without an error was read to its end exactly if no unopened end tag stands behind the
  nodes at the top. */
  lemma ReadWholeIff(text: string)
    requires ParseDocument(text).Document? && ParseDocument(text).error == NO_ERROR
    ensures var s := ParseDocument(text).buffer; ReadsToEnd(s, 0) <==> !ComesToEndTag(s, 0)
  {
    hide ParseList, ReadsToEnd, ComesToEndTag;
    var s := ParseDocument(text).buffer;
    ClosedIff(s, 0);
    StoppedIff(s, 0);
  }

  /** No error means one of the two. */
  lemma NoErrorIff(text: string)
    ensures var r := ParseDocument(text);
      (r.Document? && r.error == NO_ERROR) <==>
        r.buffer != "" && (ReadsToEnd(r.buffer, 0) || ComesToEndTag(r.buffer, 0))
  {
    hide ParseList, ReadsToEnd, ComesToEndTag;
    var s := ParseDocument(text).buffer;
    ClosedIff(s, 0);
    StoppedIff(s, 0);
  }

  /** The parser stops without an error behind an end tag that nothing opened. */
  lemma EndTagExample()
    ensures ParseDocument("</b>x") == Document("</b>x", false, [], NO_ERROR)
  {
    hide ParseList, EndTagAt, ParseDocument;
    var s := "</b>x";
    ExampleEndTag(s);
    EndTagIff(s, 0);
    ListStep(s, 0);
    EndTagAlone(s, 0);
    PlainDocument(s);
  }

  lemma PlainDocument(s: string)
    requires s != "" && SkipSpace(s, 0) == 0 && s[0] != PrintSpec.BOM[0] && ParseList(s, 0).Closed?
    ensures ParseDocument(s) == Document(s, false, ParseList(s, 0).kids, NO_ERROR)
  {
    hide ParseList;
    assert s[0..] == s;
    NotHasAt(s, 0, PrintSpec.BOM, 0);
  }

  lemma EndTagAlone(s: string, p: nat)
    requires p <= |s| && TakesEndTag(s, p)
    ensures ParseList(s, p).kids == []
  {
    hide ParseNode, EndTagFits;
  }

  lemma ExampleEndTag(s: string)
    requires s == "</b>x"
    ensures EndTagAt(s, 0)
  {
    hide TakeAttribute, SkipSpace, NameEnd;
    SkipSpaceIs(s, 0, 0);
    SkipSpaceIs(s, 1, 1);
    NameEndIs(s, 2, 3);
    SkipSpaceIs(s, 3, 3);
    assert IsAlpha(s[2]) && s[1] == '/' && s[3] == '>';
  }

  // ----- what follows that end tag -----

  /** The texts have their first `n` bytes in common. */
  ghost predicate Agree(s: string, t: string, n: nat) {
    n <= |s| && n <= |t| && forall k :: 0 <= k < n ==> s[k] == t[k]
  }

  lemma SpaceAgrees(s: string, t: string, p: nat, n: nat)
    requires Agree(s, t, n) && p <= |s| && SkipSpace(s, p) < n
    ensures p <= |t| && SkipSpace(t, p) == SkipSpace(s, p) && At(t, SkipSpace(s, p)) == At(s, SkipSpace(s, p))
  {
    SkipSpaceIs(t, p, SkipSpace(s, p));
  }

  lemma NameAgrees(s: string, t: string, p: nat, n: nat)
    requires Agree(s, t, n) && p <= |s| && NameEnd(s, p) < n
    ensures p <= |t| && NameEnd(t, p) == NameEnd(s, p)
  {
    NameEndIs(t, p, NameEnd(s, p));
  }

  lemma HasAtAgrees(s: string, t: string, p: nat, w: string, n: nat)
    requires Agree(s, t, n) && p + |w| <= n
    ensures HasAt(s, p, w) <==> HasAt(t, p, w)
  {
    assert s[p..p + |w|] == t[p..p + |w|];
  }

  lemma FindAgrees(s: string, t: string, p: nat, w: string, n: nat)
    requires Agree(s, t, n) && p <= |s| && Find(s, p, w).Some? && Find(s, p, w).value + |w| <= n
    ensures p <= |t| && Find(t, p, w) == Find(s, p, w)
  {
    var e := Find(s, p, w).value;
    forall k | p <= k <= e ensures HasAt(s, k, w) <==> HasAt(t, k, w) {
      HasAtAgrees(s, t, k, w, n);
    }
    FindIs(t, p, e, w);
  }

  lemma SliceAgrees(s: string, t: string, span: Span, n: nat)
    requires Agree(s, t, n) && span.end <= n
    ensures Slice(s, span) == Slice(t, span)
  {
  }

  ghost predicate NamesWithin(attributes: seq<Attribute>, n: nat) {
    forall k :: 0 <= k < |attributes| ==> attributes[k].name.end <= n
  }

  lemma {:induction false} FirstNamedAgrees(s: string, t: string, read: seq<Attribute>, name: string, i: nat, n: nat)
    requires Agree(s, t, n) && NamesWithin(read, n) && i <= |read|
    ensures FirstNamed(s, read, name, i) == FirstNamed(t, read, name, i)
    decreases |read| - i
  {
    hide Slice;
    if i < |read| {
      SliceAgrees(s, t, read[i].name, n);
      FirstNamedAgrees(s, t, read, name, i + 1, n);
    }
  }

  lemma AttributeAgrees(s: string, t: string, p: nat, n: nat)
    requires Agree(s, t, n) && p < |s| && IsAlpha(s[p])
    requires ParseAttribute(s, p).OneAttribute? && ParseAttribute(s, p).p <= n
    ensures p < |t| && s[p] == t[p] && ParseAttribute(t, p) == ParseAttribute(s, p)
    ensures ParseAttribute(s, p).attribute.name.end <= n
  {
    hide HasAt, Find, SkipSpace, NameEnd;
    var e := NameEnd(s, p);
    var eq := SkipSpace(s, e);
    var quote := SkipSpace(s, eq + 1);
    NameAgrees(s, t, p, n);
    SpaceAgrees(s, t, e, n);
    SpaceAgrees(s, t, eq + 1, n);
    FindAgrees(s, t, quote + 1, [At(s, quote)], n);
  }

  lemma TakeAgrees(s: string, t: string, p: nat, read: seq<Attribute>, n: nat)
    requires Agree(s, t, n) && p < |s| && IsAlpha(s[p]) && NamesWithin(read, n)
    requires TakeAttribute(s, p, read).OneAttribute? && TakeAttribute(s, p, read).p <= n
    ensures p < |t| && s[p] == t[p] && TakeAttribute(t, p, read) == TakeAttribute(s, p, read)
    ensures TakeAttribute(s, p, read).attribute.name.end <= n
  {
    hide ParseAttribute, FirstNamed, Slice, Reading;
    AttributeAgrees(s, t, p, n);
    var name := ParseAttribute(s, p).attribute.name;
    SliceAgrees(s, t, name, n);
    FirstNamedAgrees(s, t, read, Slice(s, name), 0, n);
  }

  lemma {:induction false} TagAgrees(s: string, t: string, p: nat, closing: Closing, read: seq<Attribute>, n: nat)
    requires Agree(s, t, n) && p <= |s| && NamesWithin(read, n)
    requires ParseAttributes(s, p, closing, read).Tag? && ParseAttributes(s, p, closing, read).p <= n
    ensures p <= |t| && ParseAttributes(t, p, closing, read) == ParseAttributes(s, p, closing, read)
    decreases |s| - p
  {
    hide TakeAttribute, SkipSpace;
    SpaceAgrees(s, t, p, n);
    var q := SkipSpace(s, p);
    if IsAlpha(s[q]) {
      var one := TakeAttribute(s, q, read);
      TakeAgrees(s, t, q, read, n);
      TagAgrees(s, t, one.p, closing, read + [one.attribute], n);
    }
  }

  lemma {:induction false} ElementAgrees(s: string, t: string, p: nat, n: nat)
    requires Agree(s, t, n) && p <= |s| && ParseElement(s, p).Parsed? && ParseElement(s, p).p <= n
    requires ParseElement(s, p).node.closing != OPEN || ParseElement(s, p).endTag.Some?
    ensures p <= |t| && ParseElement(t, p) == ParseElement(s, p)
    decreases |s| - p, 0
  {
    hide ParseAttributes, ParseList, SkipSpace, NameEnd;
    var q := SkipSpace(s, p);
    var closing, start := if At(s, q) == '/' then CLOSING else OPEN, if At(s, q) == '/' then q + 1 else q;
    var e := NameEnd(s, start);
    var tag := ParseAttributes(s, e, closing, []);
    SpaceAgrees(s, t, p, n);
    NameAgrees(s, t, start, n);
    TagAgrees(s, t, e, closing, [], n);
    if tag.closing == OPEN {
      ListAgrees(s, t, tag.p, n);
    }
  }

  lemma SpanAgrees(s: string, t: string, p: nat, terminator: string, error: Error, make: Span -> Node, n: nat)
    requires Agree(s, t, n) && p <= |s|
    requires ParseSpan(s, p, terminator, error, make).Parsed? && ParseSpan(s, p, terminator, error, make).p <= n
    ensures p <= |t| && ParseSpan(t, p, terminator, error, make) == ParseSpan(s, p, terminator, error, make)
  {
    hide Find;
    FindAgrees(s, t, p, terminator, n);
  }

  lemma TextAgrees(s: string, t: string, p: nat, n: nat)
    requires Agree(s, t, n) && p < |s| && s[p] != '<'
    requires ParseTextNode(s, p).Parsed? && ParseTextNode(s, p).p + 1 < n
    ensures p < |t| && t[p] == s[p] && ParseTextNode(t, p) == ParseTextNode(s, p)
  {
    hide Find, HasAt;
    FindAgrees(s, t, p, "<", n);
  }

  lemma {:induction false} NodeAgrees(s: string, t: string, kind: Kind, p: nat, n: nat)
    requires Agree(s, t, n) && p <= |s| && (kind == TextKind ==> p < |s| && s[p] != '<')
    requires var r := ParseNode(s, kind, p);
      r.Parsed? && r.p <= n && (kind == TextKind ==> r.p + 1 < n) &&
      (r.node.Element? ==> r.node.closing != OPEN || r.endTag.Some?)
    ensures p <= |t| && (kind == TextKind ==> p < |t| && t[p] != '<') && ParseNode(t, kind, p) == ParseNode(s, kind, p)
    decreases |s| - p, 1
  {
    hide ParseElement, ParseSpan, ParseTextNode;
    match kind {
      case DeclarationKind => SpanAgrees(s, t, p, "?>", PARSING_DECLARATION, v => Declaration(v), n);
      case CommentKind => SpanAgrees(s, t, p, "-->", PARSING_COMMENT, v => Comment(v), n);
      case CDataKind => SpanAgrees(s, t, p, "]]>", PARSING_CDATA, v => ParserSpec.Text(v, true), n);
      case UnknownKind => SpanAgrees(s, t, p, ">", PARSING_UNKNOWN, v => Unknown(v), n);
      case TextKind => TextAgrees(s, t, p, n);
      case ElementKind => ElementAgrees(s, t, p, n);
    }
  }

  /** A header that a `>` in common contradicts is absent from both texts. */
  lemma HeaderAgrees(s: string, t: string, q: nat, w: string, e: nat, n: nat)
    requires Agree(s, t, n) && q <= e < n && s[e] == '>' && '>' !in w && !HasAt(s, q, w)
    ensures !HasAt(t, q, w)
  {
    if q + |w| <= n {
      HasAtAgrees(s, t, q, w, n);
    } else if HasAt(t, q, w) {
      HasAtChar(t, q, w, e - q);
    }
  }

  /** The node at `p` lies within the first `n` bytes, with one to spare behind a text. */
  predicate Within(s: string, kind: Kind, p: nat, n: nat)
    requires p <= |s| && (kind == TextKind ==> p < |s| && s[p] != '<')
  {
    var r := ParseNode(s, kind, p);
    r.Parsed? && r.p <= n && (kind == TextKind ==> r.p + 1 < n)
  }

  lemma SecondByteWithin(s: string, p: nat, n: nat)
    requires p <= |s| && Identify(s, p).Identified? && Within(s, Identify(s, p).kind, Identify(s, p).p, n)
    ensures SkipSpace(s, p) + 1 < n
  {
    hide HasAt, ParseElement, Find;
  }

  lemma UnknownHasEnd(s: string, p: nat, n: nat)
    requires p <= |s| && ParseNode(s, UnknownKind, p).Parsed? && ParseNode(s, UnknownKind, p).p <= n
    ensures exists e :: p <= e < |s| && e < n && s[e] == '>'
  {
    hide HasAt;
    var e := ParseNode(s, UnknownKind, p).p - 1;
    HasAtChar(s, e, ">", 0);
    assert s[e] == '>';
  }

  lemma MarkupAgrees(s: string, t: string, q: nat, n: nat, p: nat)
    requires Agree(s, t, n) && p <= |s| && q == SkipSpace(s, p) && q + 1 < n && Identify(s, p).Identified?
    requires Within(s, Identify(s, p).kind, Identify(s, p).p, n)
    ensures HasAt(s, q, "<?") <==> HasAt(t, q, "<?")
    ensures HasAt(s, q, "<!") <==> HasAt(t, q, "<!")
    ensures Identify(s, p).kind != DeclarationKind ==> (HasAt(s, q, "<!--") <==> HasAt(t, q, "<!--"))
    ensures Identify(s, p).kind != DeclarationKind && Identify(s, p).kind != CommentKind ==>
      (HasAt(s, q, "<![CDATA[") <==> HasAt(t, q, "<![CDATA["))
  {
    hide HasAt, ParseElement, ParseTextNode, ParseSpan;
    var id := Identify(s, p);
    HasAtAgrees(s, t, q, "<?", n);
    HasAtAgrees(s, t, q, "<!", n);
    HasAtConcat(s, q, "<!", "--");
    HasAtConcat(t, q, "<!", "--");
    HasAtConcat(s, q, "<!", "[CDATA[");
    HasAtConcat(t, q, "<!", "[CDATA[");
    assert "<!" + "--" == "<!--" && "<!" + "[CDATA[" == "<![CDATA[";
    if id.kind == CommentKind || id.kind == CDataKind {
      HasAtAgrees(s, t, q, "<!--", n);
    }
    if id.kind == CDataKind {
      HasAtAgrees(s, t, q, "<![CDATA[", n);
    }
    if id.kind == UnknownKind {
      UnknownHasEnd(s, id.p, n);
      var e :| id.p <= e < |s| && e < n && s[e] == '>';
      HeaderAgrees(s, t, q, "<!--", e, n);
      HeaderAgrees(s, t, q, "<![CDATA[", e, n);
    }
  }

  /** If the node at `p` lies within what the texts have in common, they take it for the same kind. */
  lemma IdentifyAgrees(s: string, t: string, p: nat, n: nat)
    requires Agree(s, t, n) && p <= |s| && Identify(s, p).Identified?
    requires Within(s, Identify(s, p).kind, Identify(s, p).p, n)
    ensures p <= |t| && Identify(t, p) == Identify(s, p)
  {
    hide HasAt, SkipSpace, Within;
    SecondByteWithin(s, p, n);
    SpaceAgrees(s, t, p, n);
    MarkupAgrees(s, t, SkipSpace(s, p), n, p);
  }

  /** The names of an element and its end tag lie in front of the position behind it. */
  lemma EndTagAgrees(s: string, t: string, kind: Kind, p: nat, n: nat)
    requires Agree(s, t, n) && p <= |s| && (kind == TextKind ==> p < |s| && s[p] != '<')
    requires ParseNode(s, kind, p).Parsed? && ParseNode(s, kind, p).p <= n
    ensures var r := ParseNode(s, kind, p); EndTagFits(s, r.node, r.endTag) <==> EndTagFits(t, r.node, r.endTag)
  {
    hide ParseNode, ParseElement, Slice, Spans;
    var r := ParseNode(s, kind, p);
    if r.node.Element? && r.endTag.Some? {
      NodeIsElement(s, kind, p);
      ElementApart(s, p);
      NodeSound(s, kind, p);
      var whole := Whole(r.node);
      assert whole[|whole| - 1] == r.endTag.value;
      SliceAgrees(s, t, r.node.name, n);
      SliceAgrees(s, t, r.endTag.value, n);
    }
  }

  /** In a list that hands up an end tag, a node lies in front of the position behind it. */
  lemma NodeWithin(s: string, p: nat, n: nat)
    requires p <= |s| && ParseList(s, p).Closed? && ParseList(s, p).p <= n
    ensures Identify(s, p).Identified? && Within(s, Identify(s, p).kind, Identify(s, p).p, n)
  {
    hide Identify, ParseNode, EndTagFits;
    var id := Identify(s, p);
    if id.kind == TextKind {
      TextIsNoElement(s, id.p);
    }
  }

  lemma TextIsNoElement(s: string, p: nat)
    requires p < |s| && s[p] != '<' && ParseNode(s, TextKind, p).Parsed?
    ensures !ParseNode(s, TextKind, p).node.Element?
  {
    hide Find;
  }

  lemma WithinIs(s: string, kind: Kind, p: nat, n: nat)
    requires p <= |s| && (kind == TextKind ==> p < |s| && s[p] != '<') && Within(s, kind, p, n)
    ensures var r := ParseNode(s, kind, p); r.Parsed? && r.p <= n && (kind == TextKind ==> r.p + 1 < n)
  {
    hide ParseNode;
  }

  /** A list that hands up an end tag is the same in every text that agrees up to behind that tag. */
  lemma {:induction false} ListAgrees(s: string, t: string, p: nat, n: nat)
    requires Agree(s, t, n) && p <= |s| && ParseList(s, p).Closed? && ParseList(s, p).p <= n
    ensures p <= |t| && ParseList(t, p) == ParseList(s, p)
    decreases |s| - p, 2
  {
    hide Identify, ParseNode, EndTagFits, Within;
    var id := Identify(s, p);
    var r := ParseNode(s, id.kind, id.p);
    NodeWithin(s, p, n);
    IdentifyAgrees(s, t, p, n);
    FitsOrCloses(s, r);
    WithinIs(s, id.kind, id.p, n);
    NodeAgrees(s, t, id.kind, id.p, n);
    if !(r.node.Element? && r.node.closing == CLOSING) {
      EndTagAgrees(s, t, id.kind, id.p, n);
      ListAgrees(s, t, r.p, n);
    }
  }

  lemma FitsOrCloses(s: string, r: NodeResult)
    requires r.Parsed? && ((r.node.Element? && r.node.closing == CLOSING) || EndTagFits(s, r.node, r.endTag))
    ensures r.node.Element? ==> r.node.closing != OPEN || r.endTag.Some?
  {
  }

  /** Where the buffer begins. */
  function Lead(text: string): (n: nat)
    ensures n <= |text|
  {
    var p := SkipSpace(text, 0);
    if HasAt(text, p, PrintSpec.BOM) then p + |PrintSpec.BOM| else p
  }

  lemma BufferIs(text: string)
    ensures ParseDocument(text).buffer == text[Lead(text)..]
    ensures ParseDocument(text).bom == HasAt(text, SkipSpace(text, 0), PrintSpec.BOM)
    ensures ParseList(text[Lead(text)..], 0).Closed? ==>
      var s, bom := text[Lead(text)..], HasAt(text, SkipSpace(text, 0), PrintSpec.BOM);
      ParseDocument(text) == Document(s, bom, ParseList(s, 0).kids, NO_ERROR)
  {
    hide ParseList;
  }

  lemma SameStart(text: string, other: string, n: nat)
    requires Agree(text, other, n) && Lead(text) + 3 <= n
    ensures Lead(other) == Lead(text)
    ensures HasAt(other, SkipSpace(other, 0), PrintSpec.BOM) <==> HasAt(text, SkipSpace(text, 0), PrintSpec.BOM)
  {
    SpaceAgrees(text, other, 0, n);
    HasAtAgrees(text, other, SkipSpace(text, 0), PrintSpec.BOM, n);
  }

  /** Behind an end tag that nothing opened, a document may go on with whatever text: the children stay
  the same, and there is no error. */
  lemma RestIgnored(text: string, more: string)
    requires ComesToEndTag(ParseDocument(text).buffer, 0)
    ensures var r, lead := ParseDocument(text), Lead(text);
      var list := ParseList(r.buffer, 0);
      list.Closed? && lead + list.p <= |text| && r == Document(text[lead..], r.bom, list.kids, NO_ERROR) &&
      ParseDocument(text[..lead + list.p] + more) == Document(r.buffer[..list.p] + more, r.bom, list.kids, NO_ERROR)
  {
    hide ParseList, ComesToEndTag, ParseDocument, Lead;
    BufferIs(text);
    var lead, s := Lead(text), text[Lead(text)..];
    ClosedIff(s, 0);
    var list := ParseList(s, 0);
    var other, t := text[..lead + list.p] + more, s[..list.p] + more;
    ListAgrees(s, t, 0, list.p);
    SameStart(text, other, lead + list.p);
    assert other[lead..] == t;
    BufferIs(other);
  }
}
