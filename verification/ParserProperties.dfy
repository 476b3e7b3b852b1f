/** What every parse guarantees about the tree it keeps, whether it failed or not. */
module ParserProperties {
  import opened Options
  import opened Text
  import opened StrPairs
  import opened ParserSpec

  // ----- the kept tree is well formed -----

  /** The span is the name of an end tag: a slash stands in front of it, and a `<` with nothing but
  white space between in front of that. */
  ghost predicate IsEndTag(s: string, name: Span) {
    0 < name.start < name.end <= |s| && name.end == NameEnd(s, name.start) && s[name.start - 1] == '/' &&
    name.flags == PLAIN &&
    exists open: nat :: open < name.start - 1 && s[open] == '<' && SkipSpace(s, open + 1) == name.start - 1
  }

  predicate DistinctNames(s: string, attributes: seq<Attribute>) {
    forall j, k :: 0 <= j < k < |attributes| ==> Slice(s, attributes[j].name) != Slice(s, attributes[k].name)
  }

  /** Every element is self-closed, or its content was ended by an end tag of the same name behind it. */
  ghost predicate Sound(s: string, n: Node) {
    match n
    case Element(name, attributes, closing, endName, kids) =>
      DistinctNames(s, attributes) && SoundList(s, kids) &&
      ((closing == CLOSED && endName.None? && kids == []) ||
       (closing == OPEN && endName.Some? && IsEndTag(s, endName.value) && name.end < endName.value.start &&
        Slice(s, endName.value) == Slice(s, name)))
    case _ => true
  }

  ghost predicate SoundList(s: string, ns: seq<Node>) {
    ns == [] || (Sound(s, ns[0]) && SoundList(s, ns[1..]))
  }

  /** An element as its `ParseDeep` returns it, before the checks of the enclosing list. */
  ghost predicate Raw(s: string, n: Node, endTag: Option<Span>) {
    match n
    case Element(name, attributes, closing, endName, kids) =>
      name.flags == PLAIN && DistinctNames(s, attributes) && SoundList(s, kids) && endName == endTag &&
      (endTag.Some? ==> closing == OPEN && IsEndTag(s, endTag.value) && name.end < endTag.value.start) &&
      (endTag.None? ==> kids == [])
    case _ => endTag.None?
  }

  lemma {:induction false} AttributesDistinct(s: string, p: nat, closing: Closing, read: seq<Attribute>)
    requires p <= |s| && DistinctNames(s, read)
    ensures var r := ParseAttributes(s, p, closing, read); r.Tag? ==> DistinctNames(s, r.attributes)
    decreases |s| - p
  {
    hide ParseAttribute, Slice, FirstNamed;
    var q := SkipSpace(s, p);
    if q < |s| && IsAlpha(s[q]) && TakeAttribute(s, q, read).OneAttribute? {
      var one := TakeAttribute(s, q, read);
      AttributesDistinct(s, one.p, closing, read + [one.attribute]);
    }
  }

  lemma {:induction false} NodeSound(s: string, kind: Kind, p: nat)
    requires p <= |s| && (kind == TextKind ==> p < |s| && s[p] != '<')
    ensures var r := ParseNode(s, kind, p); r.Parsed? ==> Raw(s, r.node, r.endTag)
    ensures var r := ParseNode(s, kind, p);
      r.Parsed? && r.node.Element? && r.node.closing == CLOSING ==>
        kind == ElementKind && SlashName(s, p, r.node.name)
    decreases |s| - p, 1
  {
    hide ParseElement, Find, Slice;
    if kind == ElementKind {
      ElementSound(s, p);
    }
  }

  /** The element that starts at `p` is an end tag with this name. */
  ghost predicate SlashName(s: string, p: nat, name: Span)
    requires p <= |s|
  {
    name.start == SkipSpace(s, p) + 1 && name.start < name.end <= |s| && name.end == NameEnd(s, name.start) &&
    s[name.start - 1] == '/' && name.flags == PLAIN
  }

  lemma {:induction false} ElementSound(s: string, p: nat)
    requires p <= |s|
    ensures var r := ParseElement(s, p); r.Parsed? ==> Raw(s, r.node, r.endTag)
    ensures var r := ParseElement(s, p); r.Parsed? && r.node.closing == CLOSING ==> SlashName(s, p, r.node.name)
    decreases |s| - p, 0
  {
    hide ParseAttributes, ParseList, Slice, IsEndTag;
    var q := SkipSpace(s, p);
    var closing, start := if At(s, q) == '/' then CLOSING else OPEN, if At(s, q) == '/' then q + 1 else q;
    if IsAlpha(At(s, start)) {
      var e := NameEnd(s, start);
      assert start < e;
      AttributesDistinct(s, e, closing, []);
      var tag := ParseAttributes(s, e, closing, []);
      if tag.Tag? && tag.p < |s| && tag.closing == OPEN {
        ListSound(s, tag.p);
      }
    }
  }

  /** Everything a list keeps is sound, and so is the end tag that it returns. */
  lemma {:induction false} ListSound(s: string, p: nat)
    requires p <= |s|
    ensures SoundList(s, ParseList(s, p).kids)
    ensures var r := ParseList(s, p); r.Closed? ==> IsEndTag(s, r.endTag) && p < r.endTag.start
    decreases |s| - p, 2
  {
    hide ParseNode, Slice, HasAt, SkipSpace, NameEnd, IsEndTag;
    var id := Identify(s, p);
    if id.Identified? {
      NodeSound(s, id.kind, id.p);
      var r := ParseNode(s, id.kind, id.p);
      if r.Parsed? {
        if r.node.Element? && r.node.closing == CLOSING {
          EndTagFound(s, p, id.p, r.node.name);
        } else if EndTagFits(s, r.node, r.endTag) {
          ListSound(s, r.p);
        }
      }
    }
  }

  lemma EndTagFound(s: string, p: nat, q: nat, name: Span)
    requires p <= |s| && Identify(s, p) == Identified(ElementKind, q) && SlashName(s, q, name)
    ensures IsEndTag(s, name) && p < name.start
  {
    hide HasAt;
    var open := SkipSpace(s, p);
    assert q == open + 1;
  }

  /** The tree of a document is sound after every parse, whatever the error. */
  lemma KeptTreeSound(text: string)
    ensures var r := ParseDocument(text); SoundList(r.buffer, r.kids)
  {
    hide ParseList, SoundList;
    var start := SkipSpace(text, 0);
    var from := if HasAt(text, start, PrintSpec.BOM) then start + |PrintSpec.BOM| else start;
    if from < |text| {
      ListSound(text[from..], 0);
    } else {
      NothingSound("");
    }
  }

  lemma NothingSound(s: string)
    ensures SoundList(s, [])
  {
  }

  // ----- the spans of the tree are apart -----

  function AttributeSpans(attributes: seq<Attribute>): seq<Span> {
    if attributes == [] then [] else [attributes[0].name, attributes[0].value] + AttributeSpans(attributes[1..])
  }

  /** The spans that the nodes of the tree hold, in document order. */
  function Spans(n: Node): seq<Span> {
    match n
    case Element(name, attributes, _, _, kids) => [name] + AttributeSpans(attributes) + ListSpans(kids)
    case _ => [n.value]
  }

  /** The spans of an element and then that of its end tag. */
  function Whole(n: Node): seq<Span> {
    Spans(n) + if n.Element? && n.endName.Some? then [n.endName.value] else []
  }

  function ListSpans(ns: seq<Node>): seq<Span> {
    if ns == [] then [] else Spans(ns[0]) + ListSpans(ns[1..])
  }

  lemma ApartConcat(a: seq<Span>, b: seq<Span>, lo: nat, mid: nat, mid': nat, hi: nat)
    requires Apart(a, lo, mid) && Apart(b, mid', hi) && lo <= mid <= mid' <= hi
    ensures Apart(a + b, lo, hi)
  {
    forall i, j | 0 <= i < j < |a + b| ensures (a + b)[i].end < (a + b)[j].start {
      if i < |a| <= j {
        assert (a + b)[i] == a[i] && (a + b)[j] == b[j - |a|];
      }
    }
  }

  /** The first position a span can start at, when the cursor is at `p`: behind a `<`. */
  function Lo(s: string, p: nat): nat {
    if At(s, p) == '<' then p + 1 else p
  }

  lemma {:induction false} AttributeSpansMore(read: seq<Attribute>, a: Attribute)
    ensures AttributeSpans(read + [a]) == AttributeSpans(read) + [a.name, a.value]
  {
    if read == [] {
      assert read + [a] == [a] && [a][1..] == [];
    } else {
      AttributeSpansMore(read[1..], a);
      assert (read + [a])[1..] == read[1..] + [a];
    }
  }

  lemma AttributeApart(s: string, q: nat)
    requires q < |s| && IsAlpha(s[q])
    ensures var one := ParseAttribute(s, q);
      one.OneAttribute? ==> Apart([one.attribute.name, one.attribute.value], q, one.p)
  {
  }

  lemma MoreApart(name: Span, read: seq<Attribute>, a: Attribute, q: nat, hi: nat)
    requires Apart([name] + AttributeSpans(read), name.start, q) && Apart([a.name, a.value], q, hi) && q <= hi
    ensures Apart([name] + AttributeSpans(read + [a]), name.start, hi)
  {
    var before := [name] + AttributeSpans(read);
    assert before[0] == name;
    ApartConcat(before, [a.name, a.value], name.start, q, q, hi);
    AttributeSpansMore(read, a);
    assert before + [a.name, a.value] == [name] + AttributeSpans(read + [a]);
  }

  lemma TakenApart(s: string, q: nat, read: seq<Attribute>)
    requires q < |s| && IsAlpha(s[q])
    ensures var one := TakeAttribute(s, q, read);
      one.OneAttribute? ==> Apart([one.attribute.name, one.attribute.value], q, one.p)
  {
    hide ParseAttribute, Apart, FirstNamed, Slice;
    AttributeApart(s, q);
  }

  /** The step for one attribute, found at `q` behind white space or none. */
  lemma OneMoreApart(s: string, p: nat, q: nat, read: seq<Attribute>, name: Span)
    requires p <= q < |s| && IsAlpha(s[q])
    requires Apart([name] + AttributeSpans(read), name.start, if p < q then p + 1 else p)
    ensures var one := TakeAttribute(s, q, read);
      one.OneAttribute? ==> Apart([name] + AttributeSpans(read + [one.attribute]), name.start, one.p)
  {
    hide TakeAttribute, Apart, AttributeSpans;
    TakenApart(s, q, read);
    var one := TakeAttribute(s, q, read);
    if one.OneAttribute? {
      Loosen([name] + AttributeSpans(read), name.start, if p < q then p + 1 else p, name.start, q);
      MoreApart(name, read, one.attribute, q, one.p);
    }
  }

  lemma {:induction false} AttributesApart(s: string, p: nat, closing: Closing, read: seq<Attribute>, name: Span)
    requires p <= |s| && Apart([name] + AttributeSpans(read), name.start, p + 1)
    requires p < |s| && IsAlpha(s[p]) ==> Apart([name] + AttributeSpans(read), name.start, p)
    ensures var r := ParseAttributes(s, p, closing, read);
      r.Tag? ==> Apart([name] + AttributeSpans(r.attributes), name.start, r.p)
    decreases |s| - p
  {
    hide TakeAttribute, Apart, AttributeSpans, IsSpace, IsAlpha;
    var q := SkipSpace(s, p);
    if q < |s| && IsAlpha(s[q]) {
      var one := TakeAttribute(s, q, read);
      if one.OneAttribute? {
        OneMoreApart(s, p, q, read, name);
        Loosen([name] + AttributeSpans(read + [one.attribute]), name.start, one.p, name.start, one.p + 1);
        AttributesApart(s, one.p, closing, read + [one.attribute], name);
      }
    } else {
      Loosen([name] + AttributeSpans(read), name.start, p + 1, name.start, q + 1);
      Loosen([name] + AttributeSpans(read), name.start, p + 1, name.start, q + 2);
    }
  }

  lemma {:induction false} NodeApart(s: string, kind: Kind, p: nat)
    requires p <= |s| && (kind == TextKind ==> p < |s| && s[p] != '<')
    ensures var r := ParseNode(s, kind, p); r.Parsed? ==> Apart(Whole(r.node), p, Lo(s, r.p))
    decreases |s| - p, 1
  {
    hide ParseElement;
    if kind == ElementKind {
      ElementApart(s, p);
    }
  }

  lemma WholeIs(n: Node)
    requires n.Element?
    ensures Whole(n) == [n.name] + AttributeSpans(n.attributes) +
      (ListSpans(n.kids) + if n.endName.Some? then [n.endName.value] else [])
  {
    var tag, last := [n.name] + AttributeSpans(n.attributes), if n.endName.Some? then [n.endName.value] else [];
    assert tag + ListSpans(n.kids) + last == tag + (ListSpans(n.kids) + last);
  }

  lemma NoContent(n: Node)
    requires n.Element? && n.kids == [] && n.endName.None?
    ensures Whole(n) == [n.name] + AttributeSpans(n.attributes)
  {
    WholeIs(n);
    assert [n.name] + AttributeSpans(n.attributes) + ([] + []) == [n.name] + AttributeSpans(n.attributes);
  }

  lemma {:induction false} ElementApart(s: string, p: nat)
    requires p <= |s|
    ensures var r := ParseElement(s, p); r.Parsed? ==> Apart(Whole(r.node), p, r.p)
    ensures var r := ParseElement(s, p); r.Parsed? ==> p <= r.node.name.start <= r.node.name.end < r.p
    decreases |s| - p, 0
  {
    hide ParseAttributes, ParseList, Apart, Whole, AttributeSpans, ListSpans, Lo;
    var q := SkipSpace(s, p);
    var closing, start := if At(s, q) == '/' then CLOSING else OPEN, if At(s, q) == '/' then q + 1 else q;
    if IsAlpha(At(s, start)) {
      var name := Span(start, NameEnd(s, start), PLAIN);
      FirstSpan(s, name);
      AttributesApart(s, name.end, closing, [], name);
      var tag := ParseAttributes(s, name.end, closing, []);
      if tag.Tag? {
        var spans := [name] + AttributeSpans(tag.attributes);
        Widen(spans, name.start, p, tag.p);
        NoContent(Element(name, tag.attributes, tag.closing, None, []));
        if tag.p < |s| && tag.closing == OPEN {
          ListApart(s, tag.p);
          var r := ParseList(s, tag.p);
          if r.Closed? {
            LoBehind(s, tag.p);
            ApartConcat(spans, ListSpans(r.kids) + [r.endTag], p, tag.p, Lo(s, tag.p), r.p);
            WholeIs(Element(name, tag.attributes, OPEN, Some(r.endTag), r.kids));
          }
        }
      }
    }
  }

  lemma LoBehind(s: string, p: nat)
    requires p <= |s|
    ensures p <= Lo(s, p) <= p + 1
  {
  }

  lemma FirstSpan(s: string, name: Span)
    requires name.start <= name.end <= |s| && name.end == NameEnd(s, name.start)
    ensures Apart([name] + AttributeSpans([]), name.start, name.end + 1)
    ensures name.end < |s| ==> !IsAlpha(s[name.end])
  {
    assert [name] + AttributeSpans([]) == [name];
  }

  lemma Widen(spans: seq<Span>, lo: nat, lo': nat, hi: nat)
    requires Apart(spans, lo, hi) && lo' <= lo
    ensures Apart(spans, lo', hi)
  {
  }

  /** The spans of what a list keeps, and of the end tag it returns, are apart, behind the cursor it
  started from and in front of the one it stopped at. */
  lemma {:induction false} ListApart(s: string, p: nat)
    requires p <= |s|
    ensures var r := ParseList(s, p);
      if r.Closed? then Apart(ListSpans(r.kids) + [r.endTag], Lo(s, p), r.p) && Lo(s, p) <= r.p
      else Apart(ListSpans(r.kids), Lo(s, p), |s| + 1)
    decreases |s| - p, 2
  {
    hide ParseNode, Apart, HasAt, EndTagFits;
    var id := Identify(s, p);
    NoSpans(Lo(s, p), |s| + 1);
    if id.Identified? {
      NodeApart(s, id.kind, id.p);
      var r := ParseNode(s, id.kind, id.p);
      if r.Parsed? {
        ApartPrefix(Spans(r.node), Whole(r.node), id.p, Lo(s, r.p));
        Widen(Spans(r.node), id.p, Lo(s, p), Lo(s, r.p));
        if r.node.Element? && r.node.closing == CLOSING {
          NodeIsElement(s, id.kind, id.p);
          ElementApart(s, id.p);
          EndTagApart(r.node.name, Lo(s, p), r.p);
        } else if EndTagFits(s, r.node, r.endTag) {
          ListApart(s, r.p);
          var rest := ParseList(s, r.p);
          var more := ListSpans(rest.kids) + if rest.Closed? then [rest.endTag] else [];
          assert !rest.Closed? ==> more == ListSpans(rest.kids);
          ApartConcat(Spans(r.node), more, Lo(s, p), Lo(s, r.p), Lo(s, r.p), if rest.Closed? then rest.p else |s| + 1);
          assert ([r.node] + rest.kids)[1..] == rest.kids;
          assert rest.Closed? ==> Spans(r.node) + more == Spans(r.node) + ListSpans(rest.kids) + [rest.endTag];
        }
      }
    }
  }

  lemma EndTagApart(name: Span, lo: nat, hi: nat)
    requires lo <= name.start <= name.end < hi
    ensures Apart(ListSpans([]) + [name], lo, hi)
  {
    assert ListSpans([]) + [name] == [name];
  }

  lemma NodeIsElement(s: string, kind: Kind, p: nat)
    requires p <= |s| && (kind == TextKind ==> p < |s| && s[p] != '<')
    requires ParseNode(s, kind, p).Parsed? && ParseNode(s, kind, p).node.Element?
    ensures kind == ElementKind && ParseNode(s, kind, p) == ParseElement(s, p)
  {
    hide ParseElement, Find;
  }

  lemma ApartPrefix(u: seq<Span>, v: seq<Span>, lo: nat, hi: nat)
    requires Apart(v, lo, hi) && u <= v
    ensures Apart(u, lo, hi)
  {
    assert forall i :: 0 <= i < |u| ==> u[i] == v[i];
  }

  lemma NoSpans(lo: nat, hi: nat)
    ensures Apart([], lo, hi) && ListSpans([]) == []
  {
  }

  /** The strings of a list are apart, inside the text and its terminator. */
  lemma ListWithin(s: string)
    ensures Apart(ListSpans(ParseList(s, 0).kids), 0, |s| + 1)
  {
    hide ParseList, Apart;
    ListApart(s, 0);
    var r := ParseList(s, 0);
    if r.Closed? {
      ApartPrefix(ListSpans(r.kids), ListSpans(r.kids) + [r.endTag], Lo(s, 0), r.p);
    }
    Loosen(ListSpans(r.kids), Lo(s, 0), if r.Closed? then r.p else |s| + 1, 0, |s| + 1);
  }

  /** No two strings of a parsed document share a byte or a terminator. */
  lemma TreeApart(text: string)
    ensures var r := ParseDocument(text); Apart(ListSpans(r.kids), 0, |r.buffer| + 1)
  {
    hide ParseList, Apart;
    var start := SkipSpace(text, 0);
    var from := if HasAt(text, start, PrintSpec.BOM) then start + |PrintSpec.BOM| else start;
    if from < |text| {
      ListWithin(text[from..]);
    } else {
      NoSpans(0, 1);
    }
  }

  lemma Loosen(spans: seq<Span>, lo: nat, hi: nat, lo': nat, hi': nat)
    requires Apart(spans, lo, hi) && lo' <= lo && hi <= hi'
    ensures Apart(spans, lo', hi')
  {
  }
}
