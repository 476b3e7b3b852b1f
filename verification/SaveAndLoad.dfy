/** The printer, the parser and the lazy strings together: what is saved is what is loaded. */
module SaveAndLoad {
  import opened Options
  import opened StrPairs
  import opened PrintSpec
  import opened RoundTrip
  import opened Printers
  import opened Documents
  import P = ParserSpec
  import ParserProperties

  /** A node that stands for a value has no span that the decoder would crash on. */
  lemma {:induction false} ReadsMeaning(s: string, n: P.Node, d: Dom)
    requires Reads(s, n, d)
    ensures AllMean(s, ParserProperties.Spans(n))
    decreases d, 1
  {
    if d.Element? {
      NameMeans(s, n.name, d.name);
      AttributesMean(s, n.attributes, d.attributes);
      ReadsListMeaning(s, n.kids, d.kids);
    }
  }

  lemma {:induction false} ReadsListMeaning(s: string, ns: seq<P.Node>, ds: seq<Dom>)
    requires ReadsList(s, ns, ds)
    ensures AllMean(s, ParserProperties.ListSpans(ns))
    decreases ds, 0
  {
    if ds != [] {
      ReadsMeaning(s, ns[0], ds[0]);
      ReadsListMeaning(s, ns[1..], ds[1..]);
    }
  }

  ghost predicate AllMean(s: string, spans: seq<Span>) {
    forall i :: 0 <= i < |spans| ==> spans[i].start <= spans[i].end <= |s| && Meaning(s, spans[i]).Some?
  }

  lemma NameMeans(s: string, span: Span, name: string)
    requires NameReads(s, span, name)
    ensures Meaning(s, span) == Some(name)
  {
    PlainReading(name, 0);
    assert name[0..] == name;
  }

  lemma {:induction false} AttributesMean(s: string, parsed: seq<P.Attribute>, attributes: seq<Pair>)
    requires AttributesRead(s, parsed, attributes)
    ensures AllMean(s, ParserProperties.AttributeSpans(parsed))
  {
    hide Meaning;
    if parsed != [] {
      NameMeans(s, parsed[0].name, attributes[0].name);
      AttributesMean(s, parsed[1..], attributes[1..]);
    }
  }

  /** Saving a printable document and loading the result into any document object gives the same tree,
  and its strings can be read from the buffer in any order. */
  method Trip(doc: seq<Dom>, hasBOM: bool, compact: bool, document: XMLDocument) returns (strings: LazyStrings)
    requires PrintableDocument(doc) && document.Valid()
    modifies document, document.pools.Repr()
    ensures document.Valid() && document.errorID == P.NO_ERROR && document.writeBOM == hasBOM
    ensures ReadsList(document.text, document.children, doc)
    ensures strings.Valid() && strings.buf == document.charBuffer && strings.text == document.text
    ensures strings.spans == ParserProperties.ListSpans(document.children) && AllMean(strings.text, strings.spans)
  {
    hide PrintableDocument, PrintDocument, ReadsList, P.ParseDocument, NoNul, AllMean, XMLDocument.Loaded,
      XMLDocument.Valid, LazyStrings.Valid;
    DocumentNoNul(doc);
    DocumentRoundTrip(doc, hasBOM, compact);
    var printer := new XMLPrinter(compact);
    printer.PrintTree(doc, hasBOM);
    NotEmpty(doc, hasBOM, compact);
    var crashed := document.Parse(printer.buffer);
    ReadsListMeaning(document.text, document.children, doc);
    strings := document.Strings();
  }

  lemma DocumentNoNul(doc: seq<Dom>)
    requires PrintableDocument(doc)
    ensures forall k :: 0 <= k < |doc| ==> NoNul(doc[k])
  {
    PrintableListNoNul(doc);
  }

  lemma NotEmpty(doc: seq<Dom>, hasBOM: bool, compact: bool)
    requires PrintableDocument(doc)
    ensures PrintDocument(doc, hasBOM, compact) != ""
    ensures P.ParseDocument(PrintDocument(doc, hasBOM, compact)).bom == hasBOM
  {
    hide PrintableDocument, P.ParseDocument;
    DocumentStart(doc, hasBOM, compact);
    DocumentRoundTrip(doc, hasBOM, compact);
  }
}
