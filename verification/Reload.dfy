/** What the parser keeps of a text without references can be printed, and is the same when it is read again. */
module Reload {
  import opened Options
  import opened Text
  import opened Entities
  import opened StrPairs
  import opened PrintSpec
  import P = ParserSpec
  import opened RoundTrip
  import opened IdealReading
  import opened LineBreaks

  predicate Plain(s: string) {
    '&' !in s && NUL !in s
  }

  // ----- strings with uniform line breaks -----

  /** What a string without references is read as: its line breaks are made uniform, and nothing else happens. */
  ghost function Uniform(v: string, i: nat): string
    requires i <= |v|
  {
    Ideal(v, i, NEWLINES)
  }

  lemma UniformStep(v: string, i: nat) returns (next: nat)
    requires i < |v|
    ensures i < next <= |v|
    ensures Uniform(v, i) == [if v[i] == CR then LF else v[i]] + Uniform(v, next)
    ensures v[i] != CR && v[i] != LF ==> next == i + 1
    ensures forall k :: i < k < next ==> v[k] == CR || v[k] == LF
  {
    hide EntityAt, References.Denoted;
    next := IdealStep(v, i, NEWLINES).next;
  }

  lemma UniformEnd(v: string)
    ensures Uniform(v, |v|) == ""
  {
  }

  /** Without an ampersand, entities make no difference. */
  lemma {:induction false} NoEntities(v: string, i: nat, q: nat)
    requires q <= i <= |v| && '&' !in v
    ensures Decode(v, i, q, BOTH) == Some(Uniform(v, i))
    decreases |v| - i
  {
    hide Decode, Ideal;
    NewlinesOnly(v, i, q);
    if i < |v| {
      SameTurn(v, i, q);
      Unfolds(v, i, q, BOTH);
      Unfolds(v, i, q, NEWLINES);
      var next, bytes := TurnAt(v, i, NEWLINES).next, Written(v, i, q, NEWLINES);
      NoEntities(v, next, q + |bytes|);
      NewlinesOnly(v, next, q + |bytes|);
    } else {
      DecodeEnd(v, q, BOTH);
      DecodeEnd(v, q, NEWLINES);
    }
  }

  lemma SameTurn(v: string, i: nat, q: nat)
    requires q <= i < |v| && '&' !in v
    ensures TurnAt(v, i, BOTH) == TurnAt(v, i, NEWLINES) && TurnAt(v, i, BOTH).Put?
  {
    hide CharacterRef, EntityAt;
    assert v[i] != '&';
  }

  lemma Unfolds(v: string, i: nat, q: nat, f: Flags)
    requires q <= i < |v| && TurnAt(v, i, f).Put?
    ensures q + |Written(v, i, q, f)| <= TurnAt(v, i, f).next && Written(v, i, q, f) == TurnAt(v, i, f).bytes
    ensures Decode(v, i, q, f) ==
      Prefixed(Written(v, i, q, f), Decode(v, TurnAt(v, i, f).next, q + |Written(v, i, q, f)|, f))
  {
    hide TurnAt;
  }

  lemma {:induction false} UniformClean(v: string, i: nat)
    requires i <= |v| && NUL !in v
    ensures Clean(Uniform(v, i))
    decreases |v| - i
  {
    hide Ideal;
    NewlinesOnly(v, i, i);
    if i == |v| {
      UniformEnd(v);
    } else {
      var next := UniformStep(v, i);
      UniformClean(v, next);
      NotInConcat([if v[i] == CR then LF else v[i]], Uniform(v, next));
    }
  }

  lemma {:induction false} NotBlank(v: string, i: nat, k: nat)
    requires i <= k < |v| && !IsSpace(v[k])
    ensures !Blank(Uniform(v, i))
    decreases k - i
  {
    hide Ideal;
    var next := UniformStep(v, i);
    var u, rest := Uniform(v, i), Uniform(v, next);
    if i == k {
      assert u[0] == v[k];
    } else {
      NotBlank(v, next, k);
      var m :| 0 <= m < |rest| && !IsSpace(rest[m]);
      assert u[m + 1] == rest[m];
    }
  }

  predicate Unbroken(w: string) {
    CR !in w && LF !in w
  }

  /** A word without line breaks that the uniform string begins with is what the string begins with. */
  lemma {:induction false} BeginsWith(v: string, i: nat, w: string)
    requires i <= |v| && Unbroken(w) && HasAt(Uniform(v, i), 0, w)
    ensures HasAt(v, i, w)
    decreases |w|
  {
    hide Ideal;
    var u := Uniform(v, i);
    if w == "" {
      assert v[i..i] == "";
    } else {
      HasAtChar(u, 0, w, 0);
      if i == |v| {
        UniformEnd(v);
      } else {
        var next := UniformStep(v, i);
        var rest := Uniform(v, next);
        HasAtConcat(u, 0, [w[0]], w[1..]);
        assert [w[0]] + w[1..] == w;
        HasAtBehind(w[1..], u, rest);
        BeginsWith(v, next, w[1..]);
        assert v[i..i + 1] == [w[0]];
        HasAtConcat(v, i, [w[0]], w[1..]);
      }
    }
  }

  /** Searching behind the first byte. */
  lemma HasAtBehind(w: string, u: string, rest: string)
    requires u != "" && u[1..] == rest
    ensures forall k: nat :: HasAt(u, k + 1, w) <==> HasAt(rest, k, w)
  {
    forall k: nat ensures HasAt(u, k + 1, w) <==> HasAt(rest, k, w) {
      if k + |w| <= |rest| {
        assert u[k + 1..k + 1 + |w|] == rest[k..k + |w|];
      }
    }
  }

  /** Every word without line breaks in the uniform string is in the string. */
  lemma {:induction false} FoundIn(v: string, i: nat, k: nat, w: string) returns (m: nat)
    requires i <= |v| && w != "" && Unbroken(w) && HasAt(Uniform(v, i), k, w)
    ensures i <= m && HasAt(v, m, w)
    decreases k
  {
    hide Ideal;
    if k == 0 {
      m := i;
      BeginsWith(v, i, w);
    } else {
      HasAtBound(Uniform(v, i), k, w);
      if i == |v| {
        UniformEnd(v);
      } else {
        var next := UniformStep(v, i);
        HasAtBehind(w, Uniform(v, i), Uniform(v, next));
        m := FoundIn(v, next, k - 1, w);
      }
    }
  }

  lemma UniformFree(v: string, w: string)
    requires w != "" && Unbroken(w) && Free(v, w)
    ensures Free(Uniform(v, 0), w)
  {
    hide Ideal;
    var u := Uniform(v, 0);
    forall k | 0 <= k <= |u| ensures !HasAt(u, k, w) {
      if HasAt(u, k, w) {
        var m := FoundIn(v, 0, k, w);
        HasAtBound(v, m, w);
      }
    }
  }

  // ----- spans -----

  lemma SlicePlain(s: string, p: nat, e: nat)
    requires p <= e <= |s| && Plain(s)
    ensures Plain(s[p..e])
  {
  }

  /** What stands in front of the first terminator is free of it. */
  lemma SliceFree(s: string, p: nat, e: nat, w: string)
    requires p <= e <= |s| && w != "" && forall k :: p <= k < e ==> !HasAt(s, k, w)
    ensures Free(s[p..e], w)
  {
    var v := s[p..e];
    assert HasAt(s, p, v);
    forall k | 0 <= k <= |v| ensures !HasAt(v, k, w) {
      if k + |w| <= |v| {
        HasAtInside(s, p, v, p + k, w);
      }
    }
  }

  /** A span reads as the uniform string, which is clean. */
  lemma SpanStands(s: string, span: Span)
    requires Plain(s) && span.start <= span.end <= |s| && (span.flags == BOTH || span.flags == NEWLINES)
    ensures var u := Uniform(s[span.start..span.end], 0); SpanReads(s, span, u) && Clean(u)
  {
    hide Decode, Ideal;
    var v := s[span.start..span.end];
    SlicePlain(s, span.start, span.end);
    NoEntities(v, 0, 0);
    NewlinesOnly(v, 0, 0);
    UniformClean(v, 0);
  }

  lemma MarkupStands(s: string, p: nat, e: nat, w: string)
    requires Plain(s) && p <= |s| && w != "" && Unbroken(w) && Find(s, p, w) == Some(e)
    ensures e <= |s| && var u := Uniform(s[p..e], 0);
      SpanReads(s, Span(p, e, NEWLINES), u) && Clean(u) && Free(u, w)
  {
    hide Ideal, SpanReads, Clean, Free;
    HasAtBound(s, e, w);
    SliceFree(s, p, e, w);
    SpanStands(s, Span(p, e, NEWLINES));
    UniformFree(s[p..e], w);
  }

  /** A declaration, comment or character data. */
  lemma LeafStands(s: string, kind: P.Kind, p: nat) returns (d: Dom)
    requires kind == P.DeclarationKind || kind == P.CommentKind || kind == P.CDataKind
    requires Plain(s) && p <= |s| && P.ParseNode(s, kind, p).Parsed?
    ensures Reads(s, P.ParseNode(s, kind, p).node, d) && Printable(d) && !PlainText(d)
  {
    hide Ideal, SpanReads, Clean, Free, Find;
    var w := if kind == P.DeclarationKind then "?>" else if kind == P.CommentKind then "-->" else "]]>";
    var e := Find(s, p, w).value;
    MarkupStands(s, p, e, w);
    var u := Uniform(s[p..e], 0);
    d := if kind == P.DeclarationKind then Declaration(u) else if kind == P.CommentKind then Comment(u)
      else PrintSpec.Text(u, true);
  }

  /** Other markup: it does not begin like a comment or character data. */
  lemma UnknownStands(s: string, p0: nat, p: nat) returns (d: Dom)
    requires Plain(s) && p0 <= |s| && P.Identify(s, p0) == P.Identified(P.UnknownKind, p)
    requires P.ParseNode(s, P.UnknownKind, p).Parsed?
    ensures Reads(s, P.ParseNode(s, P.UnknownKind, p).node, d) && Printable(d) && !PlainText(d)
  {
    hide Ideal, SpanReads, Clean, Free, Find, HasAt;
    var e := Find(s, p, ">").value;
    MarkupStands(s, p, e, ">");
    var v := s[p..e];
    var u := Uniform(v, 0);
    NotLonger(s, p0, p, e, "--");
    NotLonger(s, p0, p, e, "[CDATA[");
    if HasAt(u, 0, "--") { BeginsWith(v, 0, "--"); }
    if HasAt(u, 0, "[CDATA[") { BeginsWith(v, 0, "[CDATA["); }
    d := Unknown(u);
  }

  lemma NotLonger(s: string, p0: nat, p: nat, e: nat, w: string)
    requires p0 <= |s| && P.Identify(s, p0) == P.Identified(P.UnknownKind, p) && p <= e <= |s|
    requires w == "--" || w == "[CDATA["
    ensures !HasAt(s[p..e], 0, w)
  {
    hide HasAt;
    var q := SkipSpace(s, p0);
    HasAtConcat(s, q, "<!", w);
    assert "<!" + "--" == "<!--" && "<!" + "[CDATA[" == "<![CDATA[";
    if HasAt(s[p..e], 0, w) {
      HasAtSlice(s, p, e, w);
    }
  }

  lemma HasAtSlice(s: string, p: nat, e: nat, w: string)
    requires p <= e <= |s| && HasAt(s[p..e], 0, w)
    ensures HasAt(s, p, w)
  {
    assert s[p..p + |w|] == s[p..e][..|w|];
  }

  lemma TextStands(s: string, p: nat) returns (d: Dom)
    requires Plain(s) && p < |s| && P.Identify(s, p) == P.Identified(P.TextKind, p) && P.ParseTextNode(s, p).Parsed?
    ensures Reads(s, P.ParseTextNode(s, p).node, d) && Printable(d) && PlainText(d)
  {
    hide Ideal, SpanReads, Clean, HasAt;
    var e, q := Find(s, p, "<").value, SkipSpace(s, p);
    LessBehind(s, p, e);
    SpanStands(s, Span(p, e, BOTH));
    assert s[p..e][q - p] == s[q];
    NotBlank(s[p..e], 0, q - p);
    d := PrintSpec.Text(Uniform(s[p..e], 0), false);
  }

  /** The text reaches beyond its leading white space. */
  lemma LessBehind(s: string, p: nat, e: nat)
    requires p <= |s| && P.Identify(s, p) == P.Identified(P.TextKind, p) && Find(s, p, "<") == Some(e)
    ensures p <= SkipSpace(s, p) < e < |s| && !IsSpace(s[SkipSpace(s, p)])
  {
    hide HasAt, P.Identify;
    HasAtChar(s, e, "<", 0);
    assert !IsSpace('<');
  }

  // ----- attributes and elements -----

  lemma NameStands(s: string, p: nat)
    requires p < |s| && IsAlpha(s[p])
    ensures var e := NameEnd(s, p);
      p < e && NameReads(s, Span(p, e, PLAIN), s[p..e]) && LegalName(s[p..e]) &&
      P.Slice(s, Span(p, e, PLAIN)) == s[p..e]
  {
  }

  lemma AttributeStands(s: string, p: nat) returns (a: Pair)
    requires Plain(s) && p < |s| && IsAlpha(s[p]) && P.ParseAttribute(s, p).OneAttribute?
    ensures var parsed := P.ParseAttribute(s, p).attribute;
      NameReads(s, parsed.name, a.name) && SpanReads(s, parsed.value, a.value) &&
      LegalName(a.name) && PrintSpec.Clean(a.value) && P.Slice(s, parsed.name) == a.name
  {
    hide Ideal, SpanReads, NameReads, LegalName, NameEnd, SkipSpace, Find, HasAt, P.Slice;
    var parsed := P.ParseAttribute(s, p).attribute;
    NameStands(s, p);
    ValueInside(s, p);
    SpanStands(s, parsed.value);
    a := Pair(s[p..NameEnd(s, p)], Uniform(s[parsed.value.start..parsed.value.end], 0));
  }

  lemma ValueInside(s: string, p: nat)
    requires p < |s| && IsAlpha(s[p]) && P.ParseAttribute(s, p).OneAttribute?
    ensures var value := P.ParseAttribute(s, p).attribute.value;
      value.start <= value.end <= |s| && value.flags == BOTH
  {
    hide NameEnd, SkipSpace, HasAt;
  }

  /** The attributes of a tag stand for legal ones, given those read before. */
  lemma {:induction false} AttributesStand(s: string, p: nat, closing: P.Closing, read: seq<P.Attribute>,
      before: seq<Pair>) returns (attributes: seq<Pair>)
    requires Plain(s) && p <= |s| && P.ParseAttributes(s, p, closing, read).Tag?
    requires AttributesRead(s, read, before) && LegalAttributes(before)
    ensures AttributesRead(s, P.ParseAttributes(s, p, closing, read).attributes, attributes) &&
      LegalAttributes(attributes)
    decreases |s| - p
  {
    hide AttributesRead, LegalAttributes, P.TakeAttribute, SkipSpace;
    var q := SkipSpace(s, p);
    if q < |s| && IsAlpha(s[q]) {
      var one := P.TakeAttribute(s, q, read);
      var a := NextStands(s, q, read, before);
      attributes := AttributesStand(s, one.p, closing, read + [one.attribute], before + [a]);
    } else {
      attributes := before;
    }
  }

  lemma NextStands(s: string, q: nat, read: seq<P.Attribute>, before: seq<Pair>) returns (a: Pair)
    requires Plain(s) && q < |s| && IsAlpha(s[q]) && P.TakeAttribute(s, q, read).OneAttribute?
    requires AttributesRead(s, read, before) && LegalAttributes(before)
    ensures AttributesRead(s, read + [P.TakeAttribute(s, q, read).attribute], before + [a])
    ensures LegalAttributes(before + [a])
  {
    hide SpanReads, LegalName, P.ParseAttribute, Reading;
    var one := P.ParseAttribute(s, q);
    a := AttributeStands(s, q);
    forall k | 0 <= k < |before| ensures before[k].name != a.name {
      assert P.Slice(s, read[k].name) == before[k].name;
    }
  }

  /** What stands at `p` in a list is kept. */
  predicate Kept(s: string, r: P.NodeResult) {
    r.Parsed? && !(r.node.Element? && r.node.closing == P.CLOSING) && P.EndTagFits(s, r.node, r.endTag)
  }

  lemma {:induction false} ElementStands(s: string, p: nat) returns (d: Dom)
    requires Plain(s) && p <= |s| && Kept(s, P.ParseElement(s, p))
    ensures Reads(s, P.ParseElement(s, p).node, d) && Printable(d) && d.Element?
    decreases |s| - p, 0
  {
    hide P.ParseAttributes, P.ParseList, AttributesRead, LegalAttributes, LegalName, NameReads, SkipSpace, NameEnd;
    var q := SkipSpace(s, p);
    var closing, start := if At(s, q) == '/' then P.CLOSING else P.OPEN, if At(s, q) == '/' then q + 1 else q;
    var end := NameEnd(s, start);
    NameStands(s, start);
    NoneRead(s);
    var attributes := AttributesStand(s, end, closing, [], []);
    var tag := P.ParseAttributes(s, end, closing, []);
    var kids := [];
    if tag.closing == P.OPEN && tag.p < |s| {
      kids := ListStands(s, tag.p);
    }
    d := PrintSpec.Element(s[start..end], attributes, kids);
  }

  lemma NoneRead(s: string)
    ensures AttributesRead(s, [], []) && LegalAttributes([])
  {
  }

  /** Every node that a list keeps stands for a printable one, and it is plain text if it was taken for that. */
  lemma {:induction false} NodeStands(s: string, p: nat) returns (d: Dom)
    requires Plain(s) && p <= |s| && P.Identify(s, p).Identified?
    requires Kept(s, P.ParseNode(s, P.Identify(s, p).kind, P.Identify(s, p).p))
    ensures Reads(s, P.ParseNode(s, P.Identify(s, p).kind, P.Identify(s, p).p).node, d) && Printable(d)
    ensures PlainText(d) <==> P.Identify(s, p).kind == P.TextKind
    decreases |s| - p, 1
  {
    hide P.Identify, P.ParseElement, P.ParseSpan, P.ParseTextNode, Reads, Printable, P.EndTagFits;
    var id := P.Identify(s, p);
    if id.kind == P.ElementKind {
      d := ElementStands(s, id.p);
    } else if id.kind == P.TextKind {
      d := TextStands(s, p);
    } else if id.kind == P.UnknownKind {
      d := UnknownStands(s, p, id.p);
    } else {
      d := LeafStands(s, id.kind, id.p);
    }
  }

  /** Whatever a list keeps of a text without references stands for a printable list. */
  lemma {:induction false} ListStands(s: string, p: nat) returns (ds: seq<Dom>)
    requires Plain(s) && p <= |s|
    ensures ReadsList(s, P.ParseList(s, p).kids, ds) && PrintableList(ds)
    ensures At(s, p) == '<' && ds != [] ==> !PlainText(ds[0])
    decreases |s| - p, 2
  {
    hide P.Identify, P.ParseNode, Reads, Printable, P.EndTagFits;
    ds := [];
    var id := P.Identify(s, p);
    if id.Identified? {
      var r := P.ParseNode(s, id.kind, id.p);
      if Kept(s, r) {
        var d := NodeStands(s, p);
        var rest := ListStands(s, r.p);
        ds := [d] + rest;
        assert ([r.node] + P.ParseList(s, r.p).kids)[1..] == P.ParseList(s, r.p).kids && ds[1..] == rest;
        if id.kind == P.TextKind {
          TextBeforeMarkup(s, id.p);
        }
      }
    }
  }

  lemma TextBeforeMarkup(s: string, p: nat)
    requires p < |s| && s[p] != '<' && P.ParseNode(s, P.TextKind, p).Parsed?
    ensures At(s, P.ParseNode(s, P.TextKind, p).p) == '<'
  {
    hide Find;
  }

  // ----- documents -----

  predicate HasPlainText(ns: seq<P.Node>) {
    exists k :: 0 <= k < |ns| && ns[k].Text? && !ns[k].cdata
  }

  lemma {:induction false} PlainTexts(s: string, ns: seq<P.Node>, ds: seq<Dom>)
    requires ReadsList(s, ns, ds)
    ensures |ns| == |ds| && forall k :: 0 <= k < |ds| ==> (PlainText(ds[k]) <==> ns[k].Text? && !ns[k].cdata)
  {
    if ds != [] {
      PlainTexts(s, ns[1..], ds[1..]);
      forall k | 0 <= k < |ds| ensures PlainText(ds[k]) <==> ns[k].Text? && !ns[k].cdata {
        if k > 0 {
          assert ds[k] == ds[1..][k - 1] && ns[k] == ns[1..][k - 1];
        }
      }
    }
  }

  lemma BufferPlain(text: string)
    requires Plain(text)
    ensures Plain(P.ParseDocument(text).buffer)
    ensures P.ParseDocument(text).kids != [] ==>
      P.ParseDocument(text).kids == P.ParseList(P.ParseDocument(text).buffer, 0).kids
  {
    hide P.ParseList;
  }

  /** What the parser keeps of a text without references, with or without an error, stands for a printable
  document, unless it is nothing or holds plain text at the top. Printed in either way and parsed again, it
  stands for the same document. */
  lemma SavedAndLoaded(text: string, bom: bool, compact: bool) returns (doc: seq<Dom>)
    requires Plain(text) && P.ParseDocument(text).kids != [] && !HasPlainText(P.ParseDocument(text).kids)
    ensures PrintableDocument(doc) && ReadsList(P.ParseDocument(text).buffer, P.ParseDocument(text).kids, doc)
    ensures var again := P.ParseDocument(PrintDocument(doc, bom, compact));
      again.Document? && again.error == P.NO_ERROR && again.bom == bom && ReadsList(again.buffer, again.kids, doc)
  {
    hide P.ParseDocument, PrintDocument, ReadsList, PrintableList;
    var r := P.ParseDocument(text);
    BufferPlain(text);
    doc := ListStands(r.buffer, 0);
    PlainTexts(r.buffer, r.kids, doc);
    DocumentRoundTrip(doc, bom, compact);
  }
}
