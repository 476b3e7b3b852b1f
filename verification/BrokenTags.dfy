/** On which texts the parser dereferences a null cursor: the check for duplicates reads the value of
the attribute that it finds, and that value may hold a malformed reference. */
module BrokenTags {
  import opened Options
  import opened Text
  import opened Entities
  import opened StrPairs
  import opened References
  import opened ParserSpec
  import opened ParserProperties

  // ----- tags -----

  /** From `p` on the attributes stand one behind another. */
  predicate Chain(s: string, p: nat, attributes: seq<Attribute>)
    requires p <= |s|
    decreases |attributes|
  {
    attributes == [] ||
    var q := SkipSpace(s, p);
    q < |s| && IsAlpha(s[q]) &&
    match ParseAttribute(s, q)
    case OneAttribute(a, next) => a == attributes[0] && Chain(s, next, attributes[1..])
    case _ => false
  }

  /** The last attribute is the first that repeats a name, that of attribute `k`, and reading the value
  of attribute `k` comes to a malformed reference. */
  ghost predicate RepeatsBroken(s: string, attributes: seq<Attribute>, k: nat) {
    k + 1 < |attributes| && DistinctNames(s, attributes[..|attributes| - 1]) &&
    Slice(s, attributes[|attributes| - 1].name) == Slice(s, attributes[k].name) &&
    Breaks(Slice(s, attributes[k].value), 0, attributes[k].value.flags)
  }

  /** The attributes from `p` on lead the check for duplicates to a malformed reference. */
  ghost predicate BrokenAt(s: string, p: nat) {
    p <= |s| && exists attributes, k: nat :: Chain(s, p, attributes) && RepeatsBroken(s, attributes, k)
  }

  lemma FirstOfDistinct(s: string, read: seq<Attribute>, name: string, k: nat)
    requires DistinctNames(s, read) && k < |read| && Slice(s, read[k].name) == name
    ensures FirstNamed(s, read, name, 0) == Some(k)
  {
    hide Slice;
  }

  lemma {:induction false} BrokenTagHas(s: string, p: nat, closing: Closing, read: seq<Attribute>)
    returns (more: seq<Attribute>, k: nat)
    requires p <= |s| && DistinctNames(s, read) && ParseAttributes(s, p, closing, read).BrokenTag?
    ensures Chain(s, p, more) && RepeatsBroken(s, read + more, k)
    decreases |s| - p
  {
    hide ParseAttribute, FirstNamed, Slice, Breaks, Reading;
    var q := SkipSpace(s, p);
    var one := ParseAttribute(s, q);
    var a := one.attribute;
    if TakeAttribute(s, q, read).BrokenAttribute? {
      k := FirstNamed(s, read, Slice(s, a.name), 0).value;
      BreaksIff(s, read[k].value);
      more := [a];
      assert (read + more)[..|read|] == read;
    } else {
      var rest;
      rest, k := BrokenTagHas(s, one.p, closing, read + [a]);
      more := [a] + rest;
      assert read + [a] + rest == read + more && more[1..] == rest;
    }
  }

  lemma BreaksIff(s: string, value: Span)
    ensures Reading(Slice(s, value), value.flags).None? <==> Breaks(Slice(s, value), 0, value.flags)
  {
    hide Decode, Breaks;
    DecodeBreaksIff(Slice(s, value), 0, 0, value.flags);
  }

  lemma {:induction false} RepeatBreaks(s: string, p: nat, closing: Closing, read: seq<Attribute>,
      more: seq<Attribute>, k: nat)
    requires p <= |s| && more != [] && Chain(s, p, more) && RepeatsBroken(s, read + more, k)
    ensures ParseAttributes(s, p, closing, read).BrokenTag?
    decreases |more|
  {
    hide ParseAttribute, FirstNamed, Slice, Breaks, Reading;
    var q := SkipSpace(s, p);
    var one := ParseAttribute(s, q);
    var all := read + more;
    if |more| == 1 {
      assert all[..|read|] == read && all[|all| - 1] == more[0];
      FirstOfDistinct(s, read, Slice(s, more[0].name), k);
      BreaksIff(s, read[k].value);
    } else {
      forall i | 0 <= i < |read| ensures Slice(s, read[i].name) != Slice(s, more[0].name) {
        assert all[..|all| - 1][i] == read[i] && all[..|all| - 1][|read|] == more[0];
      }
      assert read + [more[0]] + more[1..] == all;
      RepeatBreaks(s, one.p, closing, read + [more[0]], more[1..], k);
    }
  }

  /** A tag is broken exactly if the first attribute that repeats a name repeats that of an attribute
  whose value comes to a malformed reference. */
  lemma TagBreaksIff(s: string, p: nat, closing: Closing)
    requires p <= |s|
    ensures ParseAttributes(s, p, closing, []).BrokenTag? <==> BrokenAt(s, p)
  {
    hide Chain, RepeatsBroken, ParseAttributes;
    if ParseAttributes(s, p, closing, []).BrokenTag? {
      var more, k := BrokenTagHas(s, p, closing, []);
      assert [] + more == more;
    }
    if BrokenAt(s, p) {
      var attributes, k: nat :| Chain(s, p, attributes) && RepeatsBroken(s, attributes, k);
      NotEmpty(s, attributes, k);
      assert [] + attributes == attributes;
      RepeatBreaks(s, p, closing, [], attributes, k);
    }
  }

  lemma NotEmpty(s: string, attributes: seq<Attribute>, k: nat)
    requires RepeatsBroken(s, attributes, k)
    ensures attributes != []
  {
  }

  // ----- lists and documents -----

  /** The parse of the element at `p` comes to a tag whose attributes begin at `t`: its own, or one
  inside its content. */
  predicate ElementVisits(s: string, p: nat, t: nat)
    requires p <= |s|
    decreases |s| - p, 0
  {
    var q := SkipSpace(s, p);
    var closing, start := if At(s, q) == '/' then CLOSING else OPEN, if At(s, q) == '/' then q + 1 else q;
    IsAlpha(At(s, start)) &&
    var end := NameEnd(s, start);
    var tag := ParseAttributes(s, end, closing, []);
    t == end || (tag.Tag? && tag.p < |s| && tag.closing == OPEN && ListVisits(s, tag.p, t))
  }

  /** The loop over the children from `p` on comes to that tag: in its first child, or behind it. */
  predicate ListVisits(s: string, p: nat, t: nat)
    requires p <= |s|
    decreases |s| - p, 2
  {
    match Identify(s, p)
    case End => false
    case Identified(kind, q) =>
      (kind == ElementKind && ElementVisits(s, q, t)) ||
      var r := ParseNode(s, kind, q);
      r.Parsed? && !(r.node.Element? && r.node.closing == CLOSING) && EndTagFits(s, r.node, r.endTag) &&
      ListVisits(s, r.p, t)
  }

  ghost predicate ElementComesToBroken(s: string, p: nat)
    requires p <= |s|
  {
    exists t: nat :: ElementVisits(s, p, t) && BrokenAt(s, t)
  }

  ghost predicate ComesToBroken(s: string, p: nat)
    requires p <= |s|
  {
    exists t: nat :: ListVisits(s, p, t) && BrokenAt(s, t)
  }

  lemma {:induction false} ElementBreaksIff(s: string, p: nat)
    requires p <= |s|
    ensures ParseElement(s, p).BrokenNode? <==> ElementComesToBroken(s, p)
    decreases |s| - p, 0
  {
    hide BrokenAt, ParseAttributes, ParseList, ListVisits;
    var q := SkipSpace(s, p);
    var closing, start := if At(s, q) == '/' then CLOSING else OPEN, if At(s, q) == '/' then q + 1 else q;
    if IsAlpha(At(s, start)) {
      var end := NameEnd(s, start);
      assert start < end;
      TagBreaksIff(s, end, closing);
      var tag := ParseAttributes(s, end, closing, []);
      assert ElementVisits(s, p, end);
      if tag.Tag? && tag.p < |s| && tag.closing == OPEN {
        ListBreaksIff(s, tag.p);
        if ComesToBroken(s, tag.p) {
          var t: nat :| ListVisits(s, tag.p, t) && BrokenAt(s, t);
          assert ElementVisits(s, p, t);
        }
      }
    }
  }

  /** The child loop breaks exactly if it comes to a broken tag, at whatever depth. */
  lemma {:induction false} ListBreaksIff(s: string, p: nat)
    requires p <= |s|
    ensures ParseList(s, p).BrokenList? <==> ComesToBroken(s, p)
    decreases |s| - p, 2
  {
    hide BrokenAt, ParseElement, ElementVisits, HasAt, EndTagFits;
    var id := Identify(s, p);
    if id.Identified? {
      if id.kind == ElementKind {
        ElementBreaksIff(s, id.p);
        if ElementComesToBroken(s, id.p) {
          var t: nat :| ElementVisits(s, id.p, t) && BrokenAt(s, t);
          assert ListVisits(s, p, t);
        }
      }
      var r := ParseNode(s, id.kind, id.p);
      if r.Parsed? && !(r.node.Element? && r.node.closing == CLOSING) && EndTagFits(s, r.node, r.endTag) {
        ListBreaksIff(s, r.p);
        if ComesToBroken(s, r.p) {
          var t: nat :| ListVisits(s, r.p, t) && BrokenAt(s, t);
          assert ListVisits(s, p, t);
        }
      }
    }
  }

  /** A document makes the parser dereference a null cursor exactly if the parse comes to a broken tag. */
  lemma DocumentBreaksIff(text: string)
    ensures var r := ParseDocument(text); r.BrokenDocument? <==> ComesToBroken(r.buffer, 0)
  {
    hide ParseList, ComesToBroken;
    var r := ParseDocument(text);
    ListBreaksIff(r.buffer, 0);
    if r.buffer == "" {
      EmptyList();
    }
  }

  lemma EmptyList()
    ensures ParseList("", 0) == Stopped([], NO_ERROR)
  {
  }

  /** Without numeric references there is nothing to break on. */
  lemma NoReferenceNoBreak(text: string)
    requires forall i :: 0 <= i < |text| ==> !ReferenceAt(text, i)
    ensures ParseDocument(text).Document?
  {
    hide ParseDocument, ListVisits, ReferenceAt, BrokenAt;
    var r := ParseDocument(text);
    DocumentBreaksIff(text);
    NoReferenceInside(text);
    forall t: nat ensures !BrokenAt(r.buffer, t) {
      NoReferenceNoBrokenTag(r.buffer, t);
    }
  }

  lemma NoReferenceInside(text: string)
    requires forall i :: 0 <= i < |text| ==> !ReferenceAt(text, i)
    ensures var s := ParseDocument(text).buffer; forall i :: 0 <= i < |s| ==> !ReferenceAt(s, i)
  {
    hide ParseList;
    var s := ParseDocument(text).buffer;
    if s != "" {
      var start := |text| - |s|;
      forall i | 0 <= i < |s| ensures !ReferenceAt(s, i) {
        assert s[i] == text[start + i] && !ReferenceAt(text, start + i);
        assert i + 1 < |s| ==> s[i + 1] == text[start + i + 1];
      }
    }
  }

  lemma NoReferenceNoBrokenTag(s: string, p: nat)
    requires forall i :: 0 <= i < |s| ==> !ReferenceAt(s, i)
    ensures !BrokenAt(s, p)
  {
    hide Chain, DistinctNames, Visits, WellFormed;
    forall attributes: seq<Attribute>, k: nat ensures !RepeatsBroken(s, attributes, k) {
      if k < |attributes| {
        SliceWithout(s, attributes[k].value);
      }
    }
  }

  lemma SliceWithout(s: string, span: Span)
    requires forall i :: 0 <= i < |s| ==> !ReferenceAt(s, i)
    ensures !Breaks(Slice(s, span), 0, span.flags)
  {
    hide Visits, WellFormed;
    var v := Slice(s, span);
    forall j: nat ensures !Malformed(v, j, span.flags) {
      assert ReferenceAt(v, j) ==> v[j] == s[span.start + j] && v[j + 1] == s[span.start + j + 1];
      assert ReferenceAt(v, j) ==> ReferenceAt(s, span.start + j);
    }
  }

  /** A concrete text on which the parser dereferences a null cursor. */
  lemma BrokenExample()
    ensures ParseDocument("<a b=\"&#z;\" b=\"\"/>").BrokenDocument?
  {
    hide ParseList, ElementVisits, ListVisits, BrokenAt, ParseAttributes;
    var s := "<a b=\"&#z;\" b=\"\"/>";
    assert s[0..] == s;
    ExampleTag(s);
    ExampleVisit(s);
    DocumentBreaksIff(s);
  }

  lemma ExampleVisit(s: string)
    requires s == "<a b=\"&#z;\" b=\"\"/>"
    ensures ListVisits(s, 0, 2)
  {
    hide ParseAttributes, ParseNode;
    assert SkipSpace(s, 0) == 0 && SkipSpace(s, 1) == 1 && NameEnd(s, 1) == 2;
    assert ElementVisits(s, 1, 2);
    assert Identify(s, 0) == Identified(ElementKind, 1);
  }

  lemma ExampleTag(s: string)
    requires s == "<a b=\"&#z;\" b=\"\"/>"
    ensures BrokenAt(s, 2)
  {
    hide Chain, RepeatsBroken;
    var first := Attribute(Span(3, 4, PLAIN), Span(6, 10, BOTH));
    var second := Attribute(Span(12, 13, PLAIN), Span(15, 15, BOTH));
    ExampleAttribute(s, 3, 6, 10, first);
    ExampleAttribute(s, 12, 15, 15, second);
    ExampleChain(s, first, second);
    ExampleRepeats(s, first, second);
  }

  lemma ExampleChain(s: string, first: Attribute, second: Attribute)
    requires s == "<a b=\"&#z;\" b=\"\"/>"
    requires ParseAttribute(s, 3) == OneAttribute(first, 11) && ParseAttribute(s, 12) == OneAttribute(second, 16)
    ensures Chain(s, 2, [first, second])
  {
    hide ParseAttribute;
    assert SkipSpace(s, 2) == 3 && SkipSpace(s, 11) == 12;
    assert [first, second][1..] == [second] && [second][1..] == [];
    assert Chain(s, 11, [second]);
  }

  lemma ExampleRepeats(s: string, first: Attribute, second: Attribute)
    requires s == "<a b=\"&#z;\" b=\"\"/>" && first.value == Span(6, 10, BOTH)
    requires first.name == Span(3, 4, PLAIN) && second.name == Span(12, 13, PLAIN)
    ensures RepeatsBroken(s, [first, second], 0)
  {
    hide Breaks, Reading;
    assert s[6..10] == "&#z;" && s[3..4] == "b" && s[12..13] == "b";
    MalformedExample();
    BreaksIff(s, first.value);
  }

  lemma ExampleAttribute(s: string, p: nat, v: nat, e: nat, a: Attribute)
    requires p + 3 == v <= e < |s| && IsAlpha(s[p]) && s[p + 1] == '=' && s[p + 2] == '\"' == s[e]
    requires forall k :: v <= k < e ==> s[k] != '\"'
    requires a == Attribute(Span(p, p + 1, PLAIN), Span(v, e, BOTH))
    ensures ParseAttribute(s, p) == OneAttribute(a, e + 1)
  {
    assert NameEnd(s, p) == p + 1 && SkipSpace(s, p + 1) == p + 1 && SkipSpace(s, p + 2) == p + 2;
    assert s[e..e + 1] == ['\"'];
    forall k | v <= k < e ensures !HasAt(s, k, ['\"']) {
      if HasAt(s, k, ['\"']) {
        HasAtChar(s, k, ['\"'], 0);
      }
    }
    FindIs(s, v, e, ['\"']);
  }
}
