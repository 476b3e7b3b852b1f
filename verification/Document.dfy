/** `XMLDocument`: the recursive-descent parser over its buffer, with its nodes on four pools. */
module Documents {
  import opened Options
  import opened Text
  import opened Entities
  import opened StrPairs
  import PrintSpec
  import opened ParserSpec
  import opened ParserProperties
  import opened Scanner
  import opened NodePools

  /** One turn of the loop of `XMLNode::ParseDeep`: the list ends, or one more child is kept. */
  datatype Turn = Done(result: ListResult) | Kept(node: Node, memory: Memory, next: nat)

  lemma {:induction false} AttributeSpansAt(attributes: seq<Attribute>, i: nat)
    requires i < |attributes|
    ensures |AttributeSpans(attributes)| == 2 * |attributes|
    ensures AttributeSpans(attributes)[2 * i] == attributes[i].name
    ensures AttributeSpans(attributes)[2 * i + 1] == attributes[i].value
  {
    if |attributes| == 1 {
      assert AttributeSpans(attributes[1..]) == [];
    } else {
      AttributeSpansAt(attributes[1..], if i == 0 then 0 else i - 1);
    }
  }

  class XMLDocument {
    const pools: Pools
    var errorID: Error
    var writeBOM: bool
    var charBuffer: array<char>
    var children: seq<Node>
    /** Where the children live. */
    var memory: seq<Memory>
    /** The text that was copied into the buffer. */
    ghost var text: string

    constructor (pools: Pools)
      requires pools.Valid() && pools.Books() == EMPTY
      ensures this.pools == pools && Valid() && children == [] && errorID == NO_ERROR && !writeBOM
    {
      this.pools := pools;
      errorID, writeBOM, children, memory, text := NO_ERROR, false, [], [], "";
      charBuffer := new char[1] (_ => NUL);
      new;
      AccountListIs([]);
    }

    /** The chunks handed out are exactly those of the tree. */
    ghost predicate Valid()
      reads this, pools.Repr()
    {
      pools.Valid() && pools.Books() == AccountList(memory) && FitsList(children, memory) &&
      this !in pools.Repr() && charBuffer !in pools.Repr()
    }

    /** The strings of the tree lie undecoded in the buffer and share no byte, and every element of the
    tree was closed as it should be. */
    ghost predicate Loaded()
      reads this, charBuffer
    {
      NUL !in text && charBuffer.Length == |text| + 1 &&
      Intact(charBuffer[..], text, ListSpans(children)) && Apart(ListSpans(children), 0, |text| + 1) &&
      SoundList(text, children)
    }

    // ----- documents -----

    /** `DeleteChildren` on the document. */
    method DeleteChildren()
      requires Valid()
      modifies this, pools.Repr()
      ensures Valid() && Loaded() && children == [] && text == "" && pools.Books() == EMPTY
      ensures errorID == old(errorID) && writeBOM == old(writeBOM)
    {
      hide Pools.Valid, Pools.Books, Sum, AccountList;
      SumLaws(AccountList(memory), EMPTY, EMPTY);
      SumLaws(EMPTY, AccountList(memory), EMPTY);
      pools.DeleteChildren(memory, EMPTY);
      children, memory, text := [], [], "";
      charBuffer := new char[1] (_ => NUL);
      AccountListIs([]);
    }

    /** `XMLDocument::Parse` on a C string; `crashed` if it dereferences a null cursor. */
    method Parse(p: string) returns (crashed: bool)
      requires Valid() && NUL !in p
      modifies this, pools.Repr()
      ensures crashed <==> ParseDocument(p).BrokenDocument?
      ensures !crashed ==> Valid() && Loaded()
      ensures !crashed ==> var r := ParseDocument(p); children == r.kids && errorID == r.error && text == r.buffer
      ensures !crashed ==> writeBOM == if p == "" then old(writeBOM) else ParseDocument(p).bom
      ensures !crashed ==> pools.Books().tally == ListTally(children)
    {
      hide Pools.Valid, Pools.Books, Sum, AccountList, Fits, FitsList, SoundList, Apart, Intact, Sound, ListSpans,
        ParserSpec.ParseList, ParseDocument, SkipSpace;
      DeleteChildren();
      errorID := NO_ERROR;
      if p == "" {
        SetError(EMPTY_DOCUMENT);
        EmptyDocument(p);
        return false;
      }
      var start := SkipSpace(p, 0);
      writeBOM := HasAt(p, start, PrintSpec.BOM);
      if writeBOM {
        start := start + |PrintSpec.BOM|;
      }
      if start == |p| {
        SetError(EMPTY_DOCUMENT);
        EmptyDocument(p);
        return false;
      }
      ghost var s := p[start..];
      crashed := Load(p, start);
      DocumentIs(p, s);
    }

    /** The copy of the text from `start` on, with its terminator, and the parse of it. */
    method Load(p: string, start: nat) returns (crashed: bool)
      requires Valid() && pools.Books() == EMPTY && errorID == NO_ERROR && NUL !in p && start < |p|
      modifies this, pools.Repr()
      ensures crashed <==> ParserSpec.ParseList(p[start..], 0).BrokenList?
      ensures !crashed ==> Valid() && Loaded() && text == p[start..] && writeBOM == old(writeBOM)
      ensures !crashed ==>
        var r := ParserSpec.ParseList(text, 0);
        children == r.kids && errorID == if r.Stopped? then r.error else NO_ERROR
      ensures !crashed ==> pools.Books().tally == ListTally(children)
    {
      hide Pools.Valid, Pools.Books, Sum, AccountList, Fits, FitsList, SoundList, Apart, Intact, Sound, ListSpans,
        ParserSpec.ParseList;
      ghost var s := p[start..];
      var buf := CopyText(p, start);
      var r, ms := ParseList(buf, 0, s);
      if r.BrokenList? {
        return true;
      }
      crashed := false;
      charBuffer, text, children, memory := buf, s, r.kids, ms;
      SumLaws(EMPTY, AccountList(ms), EMPTY);
      SumLaws(AccountList(ms), EMPTY, EMPTY);
      ListSound(s, 0);
      ListWithin(s);
      Balance(children, memory);
    }

    /** The `StrPair`s of the nodes of the tree, to be read in any order. */
    method Strings() returns (strings: LazyStrings)
      requires Loaded()
      ensures strings.Valid() && strings.buf == charBuffer && strings.text == text
      ensures strings.spans == ListSpans(children) && (old(Valid()) ==> Valid())
      ensures fresh(strings) && fresh(set i | 0 <= i < |strings.pairs| :: strings.pairs[i])
    {
      hide Meaning, Pools.Valid, Pools.Books, AccountList, FitsList;
      var spans := ListSpans(children);
      var pairs: seq<StrPair> := [];
      while |pairs| < |spans|
        invariant |pairs| <= |spans| && forall i :: 0 <= i < |pairs| ==> fresh(pairs[i])
        invariant forall i, j :: 0 <= i < j < |pairs| ==> pairs[i] != pairs[j]
        invariant forall i :: 0 <= i < |pairs| ==> pairs[i].needsFlush && pairs[i].flags == spans[i].flags
        invariant forall i :: 0 <= i < |pairs| ==> pairs[i].start == spans[i].start && pairs[i].end == spans[i].end
        decreases |spans| - |pairs|
      {
        var pair := new StrPair();
        pair.Set(spans[|pairs|].start, spans[|pairs|].end, spans[|pairs|].flags);
        pairs := pairs + [pair];
      }
      forall i | 0 <= i < |spans| ensures HasAt(charBuffer[..], spans[i].start, text[spans[i].start..spans[i].end]) {
        assert Holds(charBuffer[..], text, spans[i]);
        assert charBuffer[spans[i].start..spans[i].end] == text[spans[i].start..spans[i].end];
      }
      strings := new LazyStrings(charBuffer, pairs, text, spans);
    }

    // ----- nodes -----

    method Identify(buf: array<char>, p: nat, ghost s: string) returns (id: Identified, c: Chunk)
      requires pools.Valid() && Ahead(buf[..], s, p) && buf !in pools.Repr()
      modifies pools.Repr()
      ensures pools.Valid() && id == ParserSpec.Identify(s, p)
      ensures id.End? ==> pools.Books() == old(pools.Books())
      ensures id.Identified? ==> c.pool == KindPool(id.kind) && pools.Books() == Sum(old(pools.Books()), Entry(c))
    {
      hide Pools.Valid, Pools.Books, ParserSpec.Identify;
      c := Chunk(ELEMENTS, 0);
      id := FirstBytes(buf, p, s);
      if id.Identified? {
        c := pools.Alloc(KindPool(id.kind));
      }
    }

    /** The kind of the node, by its first bytes. */
    method FirstBytes(buf: array<char>, p: nat, ghost s: string) returns (id: Identified)
      requires Ahead(buf[..], s, p)
      ensures id == ParserSpec.Identify(s, p)
    {
      hide HasAt;
      var q := SkipWhiteSpace(buf, p, s);
      AheadAt(buf[..], s, p, q);
      if buf[q] == NUL {
        return End;
      }
      var xml := StartsWith(buf, q, "<?", s);
      var comment := StartsWith(buf, q, "<!--", s);
      var cdata := StartsWith(buf, q, "<![CDATA[", s);
      var dtd := StartsWith(buf, q, "<!", s);
      if xml {
        id := Identified(DeclarationKind, q + 2);
      } else if comment {
        id := Identified(CommentKind, q + 4);
      } else if cdata {
        id := Identified(CDataKind, q + 9);
      } else if dtd {
        id := Identified(UnknownKind, q + 2);
      } else if buf[q] == '<' {
        id := Identified(ElementKind, q + 1);
      } else {
        id := Identified(TextKind, p);
      }
    }

    method SetError(error: Error)
      modifies this`errorID
      ensures errorID == error
    {
      errorID := error;
    }

    /** The `ParseDeep` of comments, declarations, unknowns and character data. */
    method ParseSpan(buf: array<char>, p: nat, terminator: string, error: Error, make: Span -> Node, ghost s: string)
      returns (r: NodeResult)
      requires Ahead(buf[..], s, p) && terminator != "" && NUL !in terminator && errorID == NO_ERROR
      modifies this`errorID
      ensures r == ParserSpec.ParseSpan(s, p, terminator, error, make)
      ensures errorID == if r.Failed? then r.error else NO_ERROR
    {
      var value := new StrPair();
      var next := value.ParseText(buf, p, terminator, NEWLINES, s);
      if next.None? {
        SetError(error);
        return Failed(error);
      }
      r := Parsed(make(Span(value.start, value.end, value.flags)), None, next.value);
    }

    /** `XMLText::ParseDeep` on plain text: the cursor stays on the `<`. */
    method ParseTextNode(buf: array<char>, p: nat, ghost s: string) returns (r: NodeResult)
      requires Ahead(buf[..], s, p) && p < |s| && s[p] != '<' && errorID == NO_ERROR
      modifies this`errorID
      ensures r == ParserSpec.ParseTextNode(s, p)
      ensures errorID == if r.Failed? then r.error else NO_ERROR
    {
      var value := new StrPair();
      var next := value.ParseText(buf, p, "<", BOTH, s);
      if next.None? {
        SetError(PARSING_TEXT);
        return Failed(PARSING_TEXT);
      }
      AheadAt(buf[..], s, p, next.value);
      if buf[next.value] != NUL {
        return Parsed(Text(Span(value.start, value.end, value.flags), false), None, next.value - 1);
      }
      r := Failed(NO_ERROR);
    }

    // ----- attributes -----

    /** `XMLAttribute::ParseDeep`. */
    method ParseAttribute(buf: array<char>, p: nat, ghost s: string) returns (r: AttributeResult)
      requires Ahead(buf[..], s, p) && p < |s| && IsAlpha(s[p])
      ensures r == ParserSpec.ParseAttribute(s, p)
    {
      hide Unread, HasAt, Find, NameEnd, SkipSpace;
      var name := new StrPair();
      var e := name.ParseName(buf, p, s);
      AheadAt(buf[..], s, p, e.value);
      if buf[e.value] == NUL {
        return NoAttribute;
      }
      var eq := SkipWhiteSpace(buf, e.value, s);
      AheadAt(buf[..], s, p, eq);
      if buf[eq] != '=' {
        return NoAttribute;
      }
      AheadAt(buf[..], s, p, eq + 1);
      var quote := SkipWhiteSpace(buf, eq + 1, s);
      AheadAt(buf[..], s, p, quote);
      if !IsQuote(buf[quote]) {
        return NoAttribute;
      }
      AheadAt(buf[..], s, p, quote + 1);
      var value := new StrPair();
      var next := value.ParseText(buf, quote + 1, [buf[quote]], BOTH, s);
      if next.None? {
        return NoAttribute;
      }
      var a := ParserSpec.Attribute(Span(name.start, name.end, PLAIN), Span(value.start, value.end, BOTH));
      r := OneAttribute(a, next.value);
    }

    /** `FindAttribute` with the name of the last attribute, among those before it. */
    method FindAttribute(buf: array<char>, attributes: seq<Attribute>, a: Attribute,
      ghost lo: nat, ghost hi: nat, ghost s: string) returns (found: Option<nat>)
      requires buf.Length == |s| + 1 && NUL !in s && Apart(AttributeSpans(attributes + [a]), lo, hi) && hi <= |s| + 1
      requires Intact(buf[..], s, AttributeSpans(attributes + [a])) && PlainNames(attributes + [a])
      modifies buf
      ensures found == FirstNamed(s, attributes, Slice(s, a.name), 0)
      ensures Intact(buf[..], s, AttributeSpans(attributes + [a]))
      ensures forall k :: 0 <= k < buf.Length && (k < lo || hi <= k) ==> buf[k] == old(buf[k])
    {
      hide Holds, AttributeSpans, Apart, Slice;
      ghost var all := attributes + [a];
      ghost var spans := AttributeSpans(all);
      ghost var b := buf[..];
      var n := |attributes|;
      AttributeSpansAt(all, n);
      SpanIn(spans, lo, hi, 2 * n);
      FlushName(buf, a.name, s);
      IntactAtEnds(b, buf[..], s, spans, lo, hi, 2 * n, 2 * n);
      var i := 0;
      while i < n
        invariant 0 <= i <= n && Intact(buf[..], s, spans)
        invariant FirstNamed(s, attributes, Slice(s, a.name), 0) == FirstNamed(s, attributes, Slice(s, a.name), i)
        invariant forall k :: 0 <= k < buf.Length && (k < lo || hi <= k) ==> buf[k] == old(buf[k])
      {
        b := buf[..];
        AttributeSpansAt(all, i);
        SpanIn(spans, lo, hi, 2 * i);
        InOrder(spans, lo, hi, 2 * i, 2 * n);
        assert all[i] == attributes[i] && Holds(b, s, spans[2 * i]) && Holds(b, s, spans[2 * n]);
        var eq := NamesEqual(buf, attributes[i].name, a.name, s);
        IntactAtEnds(b, buf[..], s, spans, lo, hi, 2 * i, 2 * n);
        if eq {
          return Some(i);
        }
        i := i + 1;
      }
      found := None;
    }

    /** `XMLAttribute::Value`: decodes the value of an attribute in place. */
    method ReadValue(buf: array<char>, value: Span, ghost s: string) returns (str: Option<nat>)
      requires Holds(buf[..], s, value) && NUL !in s
      modifies buf
      ensures str.None? <==> Reading(Slice(s, value), value.flags).None?
      ensures forall k :: 0 <= k < buf.Length && (k < value.start || value.end < k) ==> buf[k] == old(buf[k])
    {
      ghost var b := buf[..];
      assert buf[value.start..value.end] == s[value.start..value.end];
      var pair := new StrPair();
      pair.Set(value.start, value.end, value.flags);
      str := pair.GetStr(buf);
      forall k | 0 <= k < buf.Length && (k < value.start || value.end < k) ensures buf[k] == b[k] {
        if k < value.start {
          assert buf[..value.start][k] == b[..value.start][k];
        } else {
          assert buf[value.end + 1..][k - value.end - 1] == b[value.end + 1..][k - value.end - 1];
        }
      }
    }

    /** `XMLElement::Attribute` with the name of the last attribute: an attribute found is read. */
    method Attribute(buf: array<char>, attributes: seq<Attribute>, a: Attribute,
      ghost lo: nat, ghost hi: nat, ghost s: string) returns (found: Option<nat>, str: Option<nat>)
      requires buf.Length == |s| + 1 && NUL !in s && Apart(AttributeSpans(attributes + [a]), lo, hi) && hi <= |s| + 1
      requires Intact(buf[..], s, AttributeSpans(attributes + [a])) && PlainNames(attributes + [a])
      modifies buf
      ensures found == FirstNamed(s, attributes, Slice(s, a.name), 0)
      ensures found.None? ==> Intact(buf[..], s, AttributeSpans(attributes + [a]))
      ensures found.Some? ==> var value := attributes[found.value].value;
        str.None? <==> Reading(Slice(s, value), value.flags).None?
      ensures forall k :: 0 <= k < buf.Length && (k < lo || hi <= k) ==> buf[k] == old(buf[k])
    {
      hide AttributeSpans, Apart, Slice, Reading, PlainNames;
      str := None;
      found := FindAttribute(buf, attributes, a, lo, hi, s);
      if found.None? {
        return;
      }
      ghost var all := attributes + [a];
      var i := found.value;
      AttributeSpansAt(all, i);
      assert all[i] == attributes[i] && Holds(buf[..], s, AttributeSpans(all)[2 * i + 1]);
      SpanIn(AttributeSpans(all), lo, hi, 2 * i + 1);
      str := ReadValue(buf, attributes[i].value, s);
    }

    /** One attribute of a tag; a duplicate is an error, or worse. */
    method TakeAttribute(buf: array<char>, q: nat, read: seq<Attribute>, ghost name: Span, ghost s: string)
      returns (r: AttributeResult, c: AttributeChunk)
      requires pools.Valid() && Ahead(buf[..], s, q) && buf !in pools.Repr() && errorID == NO_ERROR
      requires q < |s| && IsAlpha(s[q]) && name.start < q
      requires Apart([name] + AttributeSpans(read), name.start, q) && Intact(buf[..], s, AttributeSpans(read))
      requires PlainNames(read)
      modifies pools.Repr(), this`errorID, buf
      ensures pools.Valid() && r == ParserSpec.TakeAttribute(s, q, read)
      ensures errorID == if r.NoAttribute? then PARSING_ATTRIBUTE else NO_ERROR
      ensures r.NoAttribute? ==> pools.Books() == old(pools.Books())
      ensures !r.NoAttribute? ==> pools.Books() == Sum(old(pools.Books()), Entry(c))
      ensures r.OneAttribute? ==> Ahead(buf[..], s, r.p) && Intact(buf[..], s, AttributeSpans(read + [r.attribute]))
      ensures r.OneAttribute? ==> Apart([name] + AttributeSpans(read + [r.attribute]), name.start, r.p)
      ensures r.OneAttribute? ==> PlainNames(read + [r.attribute])
      ensures forall k :: 0 <= k <= name.end && k < buf.Length ==> buf[k] == old(buf[k])
    {
      hide Pools.Valid, Pools.Books, Sum, Entry, AttributeSpans, Apart, Intact, PlainNames, FirstNamed, Slice, Reading,
        ParserSpec.ParseAttribute;
      c := pools.Alloc(ATTRIBUTES);
      r := ParseAttribute(buf, q, s);
      var found, str: Option<nat> := None, None;
      if r.OneAttribute? {
        var a := r.attribute;
        TakenInText(buf[..], s, q, read, name);
        found, str := Attribute(buf, read, a, name.end + 1, r.p, s);
        if found.Some? && str.None? {
          return BrokenAttribute, c;
        }
      }
      if r.NoAttribute? || found.Some? {
        EntryIn(old(pools.Books()), c);
        pools.Free(c);
        SumCancel(pools.Books(), old(pools.Books()), Entry(c));
        SetError(PARSING_ATTRIBUTE);
        r := NoAttribute;
      }
    }

    /** What follows the last attribute: the end of the tag or an error. */
    method EndOfTag(buf: array<char>, ghost p: nat, q: nat, closing: Closing, read: seq<Attribute>, name: Span,
        ghost s: string)
      returns (r: TagResult)
      requires Ahead(buf[..], s, p) && errorID == NO_ERROR && Holds(buf[..], s, name) && name.flags == PLAIN
      requires q == SkipSpace(s, p) && !IsAlpha(At(s, q)) && name.end <= p
      modifies this`errorID, buf
      ensures r == ParserSpec.ParseAttributes(s, p, closing, read)
      ensures errorID == if r.TagFailed? then r.error else NO_ERROR
      ensures r.Tag? ==> buf[..] == old(buf[..]) && Ahead(buf[..], s, r.p) && r.attributes == read
      ensures forall k :: 0 <= k < name.end ==> buf[k] == old(buf[k])
    {
      AheadAt(buf[..], s, p, q);
      if buf[q] == NUL {
        FlushName(buf, name, s);
        SetError(PARSING_ELEMENT);
        return TagFailed(PARSING_ELEMENT);
      }
      AheadAt(buf[..], s, p, q + 1);
      if buf[q] == '/' && buf[q + 1] == '>' {
        AheadAt(buf[..], s, p, q + 2);
        return Tag(read, CLOSED, q + 2);
      } else if buf[q] == '>' {
        return Tag(read, closing, q + 1);
      }
      SetError(PARSING_ELEMENT);
      r := TagFailed(PARSING_ELEMENT);
    }

    /** `XMLElement::ParseAttributes` behind the name of an element. */
    method ParseAttributes(buf: array<char>, closing: Closing, name: Span, ghost s: string)
      returns (r: TagResult, chunks: seq<AttributeChunk>)
      requires pools.Valid() && Ahead(buf[..], s, name.end) && buf !in pools.Repr() && errorID == NO_ERROR
      requires name.flags == PLAIN && name.start < name.end == NameEnd(s, name.start) && Holds(buf[..], s, name)
      modifies pools.Repr(), this`errorID, buf
      ensures pools.Valid() && pools.Books() == Sum(old(pools.Books()), Entries(chunks))
      ensures r == ParserSpec.ParseAttributes(s, name.end, closing, [])
      ensures errorID == if r.TagFailed? then r.error else NO_ERROR
      ensures r.Tag? ==> |chunks| == |r.attributes| && Ahead(buf[..], s, r.p)
      ensures r.Tag? ==> Intact(buf[..], s, AttributeSpans(r.attributes))
      ensures forall k :: 0 <= k < name.end ==> buf[k] == old(buf[k])
    {
      hide Pools.Valid, Pools.Books, Sum, Entry, Entries, AttributeSpans, Apart, Holds, Intact, Ahead, PlainNames,
        ParserSpec.TakeAttribute, ParserSpec.ParseAttributes;
      var p := name.end;
      var read: seq<Attribute> := [];
      chunks := [];
      FirstSpan(s, name);
      NothingYet(buf[..], s, pools.Books());
      AheadBound(buf[..], s, p);
      while true
        invariant name.end <= p <= |s| && Ahead(buf[..], s, p) && pools.Valid() && errorID == NO_ERROR
        invariant pools.Books() == Sum(old(pools.Books()), Entries(chunks)) && |chunks| == |read|
        invariant ParserSpec.ParseAttributes(s, name.end, closing, []) ==
          ParserSpec.ParseAttributes(s, p, closing, read)
        invariant Apart([name] + AttributeSpans(read), name.start, p + 1)
        invariant p < |s| && IsAlpha(s[p]) ==> Apart([name] + AttributeSpans(read), name.start, p)
        invariant Intact(buf[..], s, AttributeSpans(read)) && PlainNames(read)
        invariant buf.Length == |s| + 1 && forall k :: 0 <= k < name.end ==> buf[k] == old(buf[k])
        decreases |s| - p
      {
        var q := SkipWhiteSpace(buf, p, s);
        AheadAt(buf[..], s, p, q);
        AheadBound(buf[..], s, p);
        if !IsAlpha(buf[q]) {
          HoldsBelow(old(buf[..]), buf[..], s, name);
          r := EndOfTag(buf, p, q, closing, read, name, s);
          return;
        }
        if p < q {
          Loosen([name] + AttributeSpans(read), name.start, p + 1, name.start, q);
        }
        ghost var before := pools.Books();
        var one, c := TakeAttribute(buf, q, read, name, s);
        AttributeTurn(s, p, closing, read);
        if one.NoAttribute? {
          return TagFailed(PARSING_ATTRIBUTE), chunks;
        }
        if one.BrokenAttribute? {
          BrokenEntries(old(pools.Books()), chunks, c);
          return BrokenTag, chunks + [c];
        }
        AheadBound(buf[..], s, one.p);
        EntriesMore(chunks, c);
        SumLaws(old(pools.Books()), Entries(chunks), Entry(c));
        Loosen([name] + AttributeSpans(read + [one.attribute]), name.start, one.p, name.start, one.p + 1);
        read, chunks, p := read + [one.attribute], chunks + [c], one.p;
      }
    }

    // ----- elements and lists -----

    /** `XMLElement::ParseDeep` behind the `<`, on the chunk that `Identify` took for the element. */
    method ParseElement(buf: array<char>, p: nat, c: Chunk, ghost base: Ledger, ghost s: string)
      returns (r: NodeResult, m: Memory)
      requires pools.Valid() && Ahead(buf[..], s, p) && buf !in pools.Repr() && errorID == NO_ERROR
      requires c.pool == ELEMENTS && pools.Books() == Sum(base, Entry(c))
      modifies pools.Repr(), this`errorID, buf
      ensures r == ParserSpec.ParseElement(s, p)
      ensures !r.BrokenNode? ==> pools.Valid() && pools.Books() == Sum(base, Account(m))
      ensures !r.BrokenNode? ==> errorID == if r.Failed? then r.error else NO_ERROR
      ensures r.Parsed? ==> Fits(r.node, m) && Ahead(buf[..], s, r.p) && Intact(buf[..], s, Whole(r.node))
      ensures forall k :: 0 <= k < p && k < buf.Length ==> buf[k] == old(buf[k])
      decreases |s| - p, 0
    {
      hide Pools.Valid, Pools.Books, Sum, Entry, Entries, Account, AccountList, AttributeSpans, Apart, Holds, Intact,
        Ahead, ParserSpec.ParseAttributes, ParserSpec.ParseList, ParserSpec.ParseElement, ListSpans, Fits, FitsList,
        NameEnd, SkipSpace;
      AheadBound(buf[..], s, p);
      var q := SkipWhiteSpace(buf, p, s);
      AheadAt(buf[..], s, p, q);
      var closing := OPEN;
      if buf[q] == '/' {
        closing := CLOSING;
        q := q + 1;
        AheadAt(buf[..], s, p, q);
      }
      m := Memory(c, [], []);
      ElementAccount(base, c, [], []);
      var name := ElementName(buf, q, s);
      if name.None? {
        NoElement(s, p, q, closing);
        return Failed(NO_ERROR), m;
      }
      var tag, chunks := ParseAttributes(buf, closing, name.value, s);
      ElementAccount(base, c, chunks, []);
      m := Memory(c, chunks, []);
      ElementTag(s, p, q, closing, name.value);
      if tag.TagFailed? {
        return Failed(tag.error), m;
      }
      if tag.BrokenTag? {
        return BrokenNode, m;
      }
      AheadBound(buf[..], s, tag.p);
      ghost var spans := [name.value] + AttributeSpans(tag.attributes);
      TagSpans(old(buf[..]), buf[..], s, p, q, closing, name.value, tag);
      if buf[tag.p] == NUL || tag.closing != OPEN {
        r := Parsed(Element(name.value, tag.attributes, tag.closing, None, []), None, tag.p);
        ElementShape(r.node, m, spans);
        return;
      }
      ghost var b := buf[..];
      var list, kids := ParseList(buf, tag.p, s);
      m := Memory(c, chunks, kids);
      ElementAccount(base, c, chunks, kids);
      if list.Stopped? {
        return Failed(list.error), m;
      }
      if list.BrokenList? {
        return BrokenNode, m;
      }
      r := Parsed(Element(name.value, tag.attributes, OPEN, Some(list.endTag), list.kids), Some(list.endTag), list.p);
      IntactBehind(b, buf[..], s, spans, name.value.start, tag.p);
      IntactConcat(buf[..], s, spans, ListSpans(list.kids) + [list.endTag]);
      ElementShape(r.node, m, spans);
    }

    /** `value.ParseName`: the name of an element. */
    method ElementName(buf: array<char>, q: nat, ghost s: string) returns (name: Option<Span>)
      requires Ahead(buf[..], s, q)
      ensures name.Some? <==> IsAlpha(At(s, q))
      ensures name.Some? ==> name.value == Span(q, NameEnd(s, q), PLAIN) && q < NameEnd(s, q) && NameEnd(s, q) <= |s|
      ensures name.Some? ==> Holds(buf[..], s, name.value) && Ahead(buf[..], s, name.value.end)
    {
      var value := new StrPair();
      var e := value.ParseName(buf, q, s);
      if value.Empty() {
        return None;
      }
      name := Some(Span(value.start, value.end, PLAIN));
    }

    /** The `ParseDeep` of the node that `Identify` made. */
    method ParseNode(buf: array<char>, kind: Kind, p: nat, c: Chunk, ghost base: Ledger, ghost s: string)
      returns (r: NodeResult, m: Memory)
      requires pools.Valid() && Ahead(buf[..], s, p) && buf !in pools.Repr() && errorID == NO_ERROR
      requires kind == TextKind ==> p < |s| && s[p] != '<'
      requires c.pool == KindPool(kind) && pools.Books() == Sum(base, Entry(c))
      modifies pools.Repr(), this`errorID, buf
      ensures r == ParserSpec.ParseNode(s, kind, p)
      ensures !r.BrokenNode? ==> pools.Valid() && pools.Books() == Sum(base, Account(m))
      ensures !r.BrokenNode? ==> errorID == if r.Failed? then r.error else NO_ERROR
      ensures r.Parsed? ==> Fits(r.node, m) && Ahead(buf[..], s, r.p) && Intact(buf[..], s, Whole(r.node))
      ensures forall k :: 0 <= k < p && k < buf.Length ==> buf[k] == old(buf[k])
      decreases |s| - p, 1
    {
      hide Pools.Valid, Pools.Books, Sum, Entry, Account, Holds, Intact, ParserSpec.ParseElement, ParserSpec.ParseSpan,
        ParserSpec.ParseTextNode, Ahead;
      if kind == ElementKind {
        r, m := ParseElement(buf, p, c, base, s);
        return;
      }
      m := Memory(c, [], []);
      ElementAccount(base, c, [], []);
      match kind {
        case DeclarationKind => r := ParseSpan(buf, p, "?>", PARSING_DECLARATION, v => Declaration(v), s);
        case CommentKind => r := ParseSpan(buf, p, "-->", PARSING_COMMENT, v => Comment(v), s);
        case CDataKind => r := ParseSpan(buf, p, "]]>", PARSING_CDATA, v => Text(v, true), s);
        case UnknownKind => r := ParseSpan(buf, p, ">", PARSING_UNKNOWN, v => Unknown(v), s);
        case TextKind => r := ParseTextNode(buf, p, s);
      }
      if r.Parsed? {
        LeafKept(buf[..], s, kind, p, m);
      }
    }

    /** One turn of the loop: a child is identified, parsed and checked against its end tag. */
    method ListTurn(buf: array<char>, p: nat, ghost s: string) returns (t: Turn)
      requires pools.Valid() && Ahead(buf[..], s, p) && buf !in pools.Repr() && errorID == NO_ERROR
      modifies pools.Repr(), this`errorID, buf
      ensures t.Done? ==> t.result == ParserSpec.ParseList(s, p) && t.result.kids == []
      ensures t.Kept? || !t.result.BrokenList? ==> pools.Valid()
      ensures t.Done? && !t.result.BrokenList? ==> pools.Books() == old(pools.Books())
      ensures t.Done? && t.result.Closed? ==>
        errorID == NO_ERROR && Ahead(buf[..], s, t.result.p) && Holds(buf[..], s, t.result.endTag)
      ensures t.Done? && t.result.Stopped? ==> errorID == t.result.error
      ensures t.Kept? ==>
        p < t.next <= |s| && ParserSpec.ParseList(s, p) == Before([t.node], ParserSpec.ParseList(s, t.next))
      ensures t.Kept? ==> errorID == NO_ERROR && Fits(t.node, t.memory) && Ahead(buf[..], s, t.next)
      ensures t.Kept? ==> pools.Books() == Sum(old(pools.Books()), Account(t.memory))
      ensures t.Kept? ==> Intact(buf[..], s, Spans(t.node)) && Apart(Spans(t.node), Lo(s, p), Lo(s, t.next))
      ensures forall k :: 0 <= k < p && k < buf.Length ==> buf[k] == old(buf[k])
      decreases |s| - p, 2
    {
      hide Pools.Valid, Pools.Books, Sum, Entry, Account, Holds, Intact, Apart, Ahead, ParserSpec.ParseNode,
        ParserSpec.Identify, Fits, Lo;
      ghost var base := pools.Books();
      AheadBound(buf[..], s, p);
      var id, c := Identify(buf, p, s);
      if id.End? {
        return Done(Stopped([], NO_ERROR));
      }
      AheadAt(buf[..], s, p, id.p);
      var r, m := ParseNode(buf, id.kind, id.p, c, base, s);
      if r.BrokenNode? {
        return Done(BrokenList([]));
      }
      if r.Failed? {
        pools.DeleteNode(m, base);
        if errorID == NO_ERROR {
          SetError(PARSING);
        }
        return Done(Stopped([], errorID));
      }
      WholeIntact(buf[..], s, r.node);
      if r.node.Element? && r.node.closing == CLOSING {
        pools.DeleteNode(m, base);
        return Done(Closed([], r.node.name, r.p));
      }
      var fits := CheckEndTag(buf, id.kind, id.p, r, s);
      WholeIntact(buf[..], s, r.node);
      if !fits {
        SetError(MISMATCHED_ELEMENT);
        pools.DeleteNode(m, base);
        return Done(Stopped([], MISMATCHED_ELEMENT));
      }
      NodeKept(s, p, id, r);
      t := Kept(r.node, m, r.p);
    }

    /** The checks on an element and the end tag handed up from its content. */
    method CheckEndTag(buf: array<char>, ghost kind: Kind, ghost p: nat, r: NodeResult, ghost s: string)
      returns (fits: bool)
      requires p <= |s| && (kind == TextKind ==> p < |s| && s[p] != '<') && r == ParserSpec.ParseNode(s, kind, p)
      requires r.Parsed? && !(r.node.Element? && r.node.closing == CLOSING)
      requires Ahead(buf[..], s, r.p) && Intact(buf[..], s, Whole(r.node))
      modifies buf
      ensures fits <==> EndTagFits(s, r.node, r.endTag)
      ensures Ahead(buf[..], s, r.p) && Intact(buf[..], s, Whole(r.node))
      ensures forall k :: 0 <= k < p && k < buf.Length ==> buf[k] == old(buf[k])
    {
      hide ParserSpec.ParseNode, Whole, Intact, Holds, Apart, Ahead, Slice;
      NodeSound(s, kind, p);
      if !r.node.Element? {
        return true;
      }
      ghost var b, whole := buf[..], Whole(r.node);
      AheadBound(b, s, r.p);
      EndTagSpans(s, kind, p, b);
      if r.endTag.None? {
        if r.node.closing == OPEN {
          FlushName(buf, r.node.name, s);
          IntactAtEnds(b, buf[..], s, whole, p, r.p, 0, 0);
          AheadKept(b, buf[..], s, r.p);
          return false;
        }
        return true;
      }
      fits := NamesEqual(buf, r.node.name, r.endTag.value, s);
      IntactAtEnds(b, buf[..], s, whole, p, r.p, 0, |whole| - 1);
      AheadKept(b, buf[..], s, r.p);
    }

    /** `XMLNode::ParseDeep`. */
    method ParseList(buf: array<char>, p: nat, ghost s: string) returns (r: ListResult, ms: seq<Memory>)
      requires pools.Valid() && Ahead(buf[..], s, p) && buf !in pools.Repr() && errorID == NO_ERROR
      modifies pools.Repr(), this`errorID, buf
      ensures r == ParserSpec.ParseList(s, p)
      ensures !r.BrokenList? ==> pools.Valid() && pools.Books() == Sum(old(pools.Books()), AccountList(ms))
      ensures !r.BrokenList? ==> errorID == if r.Stopped? then r.error else NO_ERROR
      ensures FitsList(r.kids, ms) && Intact(buf[..], s, ListSpans(r.kids))
      ensures r.Closed? ==> Ahead(buf[..], s, r.p) && Intact(buf[..], s, ListSpans(r.kids) + [r.endTag])
      ensures forall k :: 0 <= k < p && k < buf.Length ==> buf[k] == old(buf[k])
      decreases |s| - p, 3
    {
      hide Pools.Valid, Pools.Books, Sum, Entry, Account, AccountList, Holds, Intact, Apart, Ahead,
        ParserSpec.ParseList, Fits, FitsList, Lo, ListSpans, Spans;
      AheadBound(buf[..], s, p);
      var kids, q := [], p;
      ms := [];
      ListStart(buf[..], s, p, pools.Books());
      while true
        invariant p <= q <= |s| && Ahead(buf[..], s, q) && pools.Valid() && errorID == NO_ERROR && buf.Length == |s| + 1
        invariant ParserSpec.ParseList(s, p) == Before(kids, ParserSpec.ParseList(s, q))
        invariant pools.Books() == Sum(old(pools.Books()), AccountList(ms)) && FitsList(kids, ms)
        invariant Intact(buf[..], s, ListSpans(kids)) && Apart(ListSpans(kids), Lo(s, p), Lo(s, q))
        invariant forall k :: 0 <= k < p ==> buf[k] == old(buf[k])
        decreases |s| - q
      {
        ghost var b := buf[..];
        var t := ListTurn(buf, q, s);
        KeptBehind(b, buf[..], s, ListSpans(kids), Lo(s, p), q);
        if t.Done? {
          DoneBefore(buf[..], s, kids, t.result);
          return Before(kids, t.result), ms;
        }
        AheadBound(buf[..], s, t.next);
        LoMonotone(s, p, q);
        LoMonotone(s, q, t.next);
        OneMore(buf[..], s, kids, t.node, Lo(s, p), q, t.next);
        BeforeMore(kids, t.node, ParserSpec.ParseList(s, t.next));
        FitsMore(kids, ms, t.node, t.memory);
        AccountMore(ms, t.memory);
        SumLaws(old(pools.Books()), AccountList(ms), Account(t.memory));
        kids, ms, q := kids + [t.node], ms + [t.memory], t.next;
      }
    }
  }

  /** `new char[len + 1]` and `memcpy`. */
  method CopyText(p: string, start: nat) returns (buf: array<char>)
    requires start <= |p| && NUL !in p
    ensures fresh(buf) && Ahead(buf[..], p[start..], 0)
  {
    buf := new char[|p| - start + 1] (i requires 0 <= i <= |p| - start =>
      if start + i < |p| then p[start + i] else NUL);
    CopyAhead(buf[..], p[start..]);
  }

  lemma Balance(ns: seq<Node>, ms: seq<Memory>)
    requires FitsList(ns, ms)
    ensures AccountList(ms).tally == ListTally(ns)
  {
    FitsListSize(ns, ms);
  }

  lemma EmptyDocument(p: string)
    requires var start := SkipSpace(p, 0);
      (if HasAt(p, start, PrintSpec.BOM) then start + |PrintSpec.BOM| else start) == |p|
    ensures ParseDocument(p) == Document("", HasAt(p, SkipSpace(p, 0), PrintSpec.BOM), [], EMPTY_DOCUMENT)
    ensures ListTally([]) == NOTHING
  {
  }

  lemma DocumentIs(p: string, s: string)
    requires var start := SkipSpace(p, 0);
      var from := if HasAt(p, start, PrintSpec.BOM) then start + |PrintSpec.BOM| else start;
      from < |p| && s == p[from..]
    ensures var r, bom := ParserSpec.ParseList(s, 0), HasAt(p, SkipSpace(p, 0), PrintSpec.BOM);
      ParseDocument(p) ==
        if r.BrokenList? then BrokenDocument(s, bom, r.kids)
        else Document(s, bom, r.kids, if r.Stopped? then r.error else NO_ERROR)
  {
    hide ParserSpec.ParseList;
  }

  lemma CopyAhead(b: string, s: string)
    requires |b| == |s| + 1 && b[|s|] == NUL && NUL !in s && forall i :: 0 <= i < |s| ==> b[i] == s[i]
    ensures Ahead(b, s, 0)
  {
  }

  lemma AttributeTurn(s: string, p: nat, closing: Closing, read: seq<Attribute>)
    requires p <= |s| && IsAlpha(At(s, SkipSpace(s, p)))
    ensures var one := ParserSpec.TakeAttribute(s, SkipSpace(s, p), read);
      ParserSpec.ParseAttributes(s, p, closing, read)
        == if one.OneAttribute? then ParserSpec.ParseAttributes(s, one.p, closing, read + [one.attribute])
           else if one.NoAttribute? then TagFailed(PARSING_ATTRIBUTE)
           else BrokenTag
    ensures var one := ParserSpec.TakeAttribute(s, SkipSpace(s, p), read); one.OneAttribute? ==> p < one.p <= |s|
  {
    hide ParserSpec.TakeAttribute;
  }

  lemma BrokenEntries(base: Ledger, chunks: seq<AttributeChunk>, c: AttributeChunk)
    ensures Sum(Sum(base, Entries(chunks)), Entry(c)) == Sum(base, Entries(chunks + [c]))
  {
    hide Sum, Entries, Entry;
    EntriesMore(chunks, c);
    SumLaws(base, Entries(chunks), Entry(c));
  }

  ghost predicate PlainNames(attributes: seq<Attribute>) {
    forall k :: 0 <= k < |attributes| ==> attributes[k].name.flags == PLAIN
  }

  lemma NamesPlain(read: seq<Attribute>, a: Attribute, s: string, q: nat)
    requires PlainNames(read) && q < |s| && IsAlpha(s[q])
    requires ParserSpec.ParseAttribute(s, q).OneAttribute? && ParserSpec.ParseAttribute(s, q).attribute == a
    ensures PlainNames(read + [a])
  {
  }

  lemma SpanIn(spans: seq<Span>, lo: nat, hi: nat, i: nat)
    requires Apart(spans, lo, hi) && i < |spans|
    ensures lo <= spans[i].start <= spans[i].end < hi
  {
  }

  lemma InOrder(spans: seq<Span>, lo: nat, hi: nat, i: nat, j: nat)
    requires Apart(spans, lo, hi) && i < j < |spans|
    ensures spans[i].end < spans[j].start
  {
  }

  lemma TailApart(name: Span, spans: seq<Span>, hi: nat)
    requires Apart([name] + spans, name.start, hi)
    ensures Apart(spans, name.end + 1, hi) && name.end < hi
  {
    assert ([name] + spans)[0] == name;
    forall i | 0 <= i < |spans| ensures name.end < spans[i].start <= spans[i].end < hi {
      assert ([name] + spans)[i + 1] == spans[i];
    }
    forall i, j | 0 <= i < j < |spans| ensures spans[i].end < spans[j].start {
      assert ([name] + spans)[i + 1] == spans[i] && ([name] + spans)[j + 1] == spans[j];
    }
  }

  /** The spans of an attribute that was just read are still the text. */
  lemma AttributeInText(b: string, s: string, q: nat, a: Attribute, next: nat)
    requires Ahead(b, s, q) && Apart([a.name, a.value], q, next) && next <= |s|
    ensures Holds(b, s, a.name) && Holds(b, s, a.value)
  {
    SpanIn([a.name, a.value], q, next, 0);
    SpanIn([a.name, a.value], q, next, 1);
  }

  /** What holds of the attributes of a tag, and of their text, with the one just read. */
  lemma TakenInText(b: string, s: string, q: nat, read: seq<Attribute>, name: Span)
    requires Ahead(b, s, q) && q < |s| && IsAlpha(s[q]) && PlainNames(read)
    requires Apart([name] + AttributeSpans(read), name.start, q) && Intact(b, s, AttributeSpans(read))
    requires ParserSpec.ParseAttribute(s, q).OneAttribute?
    ensures var one := ParserSpec.ParseAttribute(s, q);
      var all := read + [one.attribute];
      Apart([name] + AttributeSpans(all), name.start, one.p) && Apart(AttributeSpans(all), name.end + 1, one.p) &&
      Intact(b, s, AttributeSpans(all)) && PlainNames(all) && name.end < one.p
  {
    hide AttributeSpans, Apart, PlainNames, Ahead, Holds, ParserSpec.ParseAttribute;
    var one := ParserSpec.ParseAttribute(s, q);
    AttributeApart(s, q);
    MoreApart(name, read, one.attribute, q, one.p);
    AttributeSpansMore(read, one.attribute);
    AttributeInText(b, s, q, one.attribute, one.p);
    TailApart(name, AttributeSpans(read + [one.attribute]), one.p);
    NamesPlain(read, one.attribute, s, q);
  }

  lemma NothingYet(b: string, s: string, books: Ledger)
    ensures Intact(b, s, AttributeSpans([])) && PlainNames([]) && books == Sum(books, Entries([]))
  {
    EntriesFirst([]);
    SumLaws(books, EMPTY, EMPTY);
  }

  /** A span in front of the first change still holds. */
  lemma HoldsBelow(b: string, c: string, s: string, span: Span)
    requires Holds(b, s, span) && |c| == |b| && forall k :: 0 <= k < span.end ==> c[k] == b[k]
    ensures Holds(c, s, span)
  {
  }

  lemma ElementAccount(base: Ledger, c: Chunk, chunks: seq<AttributeChunk>, kids: seq<Memory>)
    ensures Sum(Sum(Sum(base, Entry(c)), Entries(chunks)), AccountList(kids)) ==
      Sum(base, Account(Memory(c, chunks, kids)))
    ensures Sum(Sum(base, Entry(c)), Entries(chunks)) == Sum(base, Account(Memory(c, chunks, [])))
    ensures Sum(base, Entry(c)) == Sum(base, Account(Memory(c, [], [])))
  {
    hide Sum, Entry, Entries, Account, AccountList;
    AccountIs(Memory(c, chunks, kids));
    AccountIs(Memory(c, chunks, []));
    AccountIs(Memory(c, [], []));
    AccountListIs([]);
    EntriesFirst([]);
    var own, some, all := Entry(c), Entries(chunks), AccountList(kids);
    SumLaws(some, all, EMPTY);
    SumLaws(base, own, Sum(some, all));
    SumLaws(Sum(base, own), some, all);
    SumLaws(base, own, some);
    SumLaws(own, some, EMPTY);
    SumLaws(some, EMPTY, EMPTY);
    SumLaws(EMPTY, EMPTY, EMPTY);
    SumLaws(own, EMPTY, EMPTY);
    SumLaws(base, own, EMPTY);
  }

  lemma NoElement(s: string, p: nat, q: nat, closing: Closing)
    requires p <= |s| && q == (if At(s, SkipSpace(s, p)) == '/' then SkipSpace(s, p) + 1 else SkipSpace(s, p))
    requires !IsAlpha(At(s, q))
    ensures ParserSpec.ParseElement(s, p) == Failed(NO_ERROR)
  {
  }

  /** The element that `ParserSpec.ParseElement` makes of a tag. */
  lemma ElementTag(s: string, p: nat, q: nat, closing: Closing, name: Span)
    requires p <= |s| && q == (if At(s, SkipSpace(s, p)) == '/' then SkipSpace(s, p) + 1 else SkipSpace(s, p))
    requires q <= |s| && IsAlpha(At(s, q)) && name == Span(q, NameEnd(s, q), PLAIN)
    requires closing == if At(s, SkipSpace(s, p)) == '/' then CLOSING else OPEN
    ensures var tag := ParserSpec.ParseAttributes(s, name.end, closing, []);
      (tag.Tag? ==> p < tag.p <= |s|) &&
      ParserSpec.ParseElement(s, p) ==
        if tag.TagFailed? then Failed(tag.error)
        else if tag.BrokenTag? then BrokenNode
        else if tag.p == |s| || tag.closing != OPEN then
          Parsed(Element(name, tag.attributes, tag.closing, None, []), None, tag.p)
        else
          var list := ParserSpec.ParseList(s, tag.p);
          if list.Stopped? then Failed(list.error)
          else if list.BrokenList? then BrokenNode
          else Parsed(Element(name, tag.attributes, OPEN, Some(list.endTag), list.kids), Some(list.endTag), list.p)
  {
    hide ParserSpec.ParseAttributes, ParserSpec.ParseList;
  }

  lemma IntactConcat(b: string, s: string, u: seq<Span>, v: seq<Span>)
    requires Intact(b, s, u) && Intact(b, s, v)
    ensures Intact(b, s, u + v)
  {
    hide Holds;
  }

  /** The spans of a tag that was just read are the text, and they are apart. */
  lemma TagSpans(a: string, b: string, s: string, p: nat, q: nat, closing: Closing, name: Span, tag: TagResult)
    requires name.end <= |s| && tag.Tag? && tag == ParserSpec.ParseAttributes(s, name.end, closing, [])
    requires name.start == q < name.end <= |s| && name.end == NameEnd(s, name.start) && p <= q
    requires Intact(b, s, AttributeSpans(tag.attributes)) && Holds(a, s, name) && |a| == |b|
    requires forall k :: 0 <= k < name.end ==> b[k] == a[k]
    ensures var spans := [name] + AttributeSpans(tag.attributes);
      Intact(b, s, spans) && Apart(spans, name.start, tag.p + 1)
  {
    hide ParserSpec.ParseAttributes, Apart, Holds, AttributeSpans;
    FirstSpan(s, name);
    AttributesApart(s, name.end, closing, [], name);
    Loosen([name] + AttributeSpans(tag.attributes), name.start, tag.p, name.start, tag.p + 1);
    HoldsBelow(a, b, s, name);
    assert Intact(b, s, [name]);
    IntactConcat(b, s, [name], AttributeSpans(tag.attributes));
  }

  lemma ElementShape(n: Node, m: Memory, spans: seq<Span>)
    requires n.Element? && m.own.pool == ELEMENTS && |m.attributes| == |n.attributes| && FitsList(n.kids, m.kids)
    requires spans == [n.name] + AttributeSpans(n.attributes)
    ensures Fits(n, m)
    ensures n.endName.Some? ==> Whole(n) == spans + (ListSpans(n.kids) + [n.endName.value])
    ensures n.endName.None? && n.kids == [] ==> Whole(n) == spans
  {
    assert spans + [] == spans;
  }

  /** A node without children keeps its one span. */
  lemma LeafKept(b: string, s: string, kind: Kind, p: nat, m: Memory)
    requires p <= |s| && kind != ElementKind && (kind == TextKind ==> p < |s| && s[p] != '<') && Ahead(b, s, p)
    requires ParserSpec.ParseNode(s, kind, p).Parsed?
    requires m.own.pool == KindPool(kind) && m.attributes == [] && m.kids == []
    ensures var r := ParserSpec.ParseNode(s, kind, p);
      Fits(r.node, m) && Ahead(b, s, r.p) && Intact(b, s, Whole(r.node))
  {
    hide Find;
    var r := ParserSpec.ParseNode(s, kind, p);
    assert Whole(r.node) == [r.node.value];
    AheadAt(b, s, p, r.p);
    AheadHolds(b, s, p, r.node.value);
  }

  /** What the end tag check relies on: the spans of the element and its end tag are apart, the name of
  the element first and that of the end tag last. */
  lemma EndTagSpans(s: string, kind: Kind, p: nat, b: string)
    requires p <= |s| && (kind == TextKind ==> p < |s| && s[p] != '<')
    requires var r := ParserSpec.ParseNode(s, kind, p); r.Parsed? && r.node.Element? && Intact(b, s, Whole(r.node))
    ensures var r := ParserSpec.ParseNode(s, kind, p);
      Apart(Whole(r.node), p, r.p) && 1 <= |Whole(r.node)| && Whole(r.node)[0] == r.node.name &&
      p <= r.node.name.start <= r.node.name.end < r.p && r.node.name.flags == PLAIN && Holds(b, s, r.node.name)
    ensures var r := ParserSpec.ParseNode(s, kind, p); r.endTag.Some? ==>
      r.node.closing == OPEN && Whole(r.node)[|Whole(r.node)| - 1] == r.endTag.value && r.endTag.value.flags == PLAIN &&
      r.node.name.end < r.endTag.value.start <= r.endTag.value.end < r.p && Holds(b, s, r.endTag.value)
  {
    hide ParserSpec.ParseNode, ParserSpec.ParseElement, Apart, Holds;
    NodeIsElement(s, kind, p);
    NodeSound(s, kind, p);
    ElementApart(s, p);
    var r := ParserSpec.ParseNode(s, kind, p);
    var whole := Whole(r.node);
    assert whole[0] == r.node.name && Holds(b, s, whole[0]);
    if r.endTag.Some? {
      var last := |whole| - 1;
      assert whole[last] == r.endTag.value && Holds(b, s, whole[last]);
      SpanIn(whole, p, r.p, last);
    }
  }

  lemma AheadKept(b: string, c: string, s: string, q: nat)
    requires Ahead(b, s, q) && |c| == |b| && forall k :: q <= k < |b| ==> c[k] == b[k]
    ensures Ahead(c, s, q)
  {
    assert c[|s|] == b[|s|];
  }

  lemma WholeIntact(b: string, s: string, n: Node)
    requires Intact(b, s, Whole(n))
    ensures Intact(b, s, Spans(n)) && (n.Element? ==> Holds(b, s, n.name))
  {
    hide Holds;
    var whole := Whole(n);
    assert forall i :: 0 <= i < |Spans(n)| ==> Holds(b, s, whole[i]) && whole[i] == Spans(n)[i];
    if n.Element? {
      assert whole[0] == n.name;
    }
  }

  /** A child that the loop keeps: it consumed input, and its spans lie where it was read. */
  lemma NodeKept(s: string, p: nat, id: Identified, r: NodeResult)
    requires p <= |s| && id == ParserSpec.Identify(s, p) && id.Identified?
    requires r == ParserSpec.ParseNode(s, id.kind, id.p) && r.Parsed? && EndTagFits(s, r.node, r.endTag)
    requires !(r.node.Element? && r.node.closing == CLOSING)
    ensures p < r.p <= |s| && Apart(Spans(r.node), Lo(s, p), Lo(s, r.p))
    ensures ParserSpec.ParseList(s, p) == Before([r.node], ParserSpec.ParseList(s, r.p))
  {
    hide ParserSpec.ParseNode, Apart, EndTagFits;
    NodeApart(s, id.kind, id.p);
    ApartPrefix(Spans(r.node), Whole(r.node), id.p, Lo(s, r.p));
    Widen(Spans(r.node), id.p, Lo(s, p), Lo(s, r.p));
  }

  lemma ListStart(b: string, s: string, p: nat, books: Ledger)
    requires p <= |s|
    ensures ParserSpec.ParseList(s, p) == Before([], ParserSpec.ParseList(s, p))
    ensures books == Sum(books, AccountList([])) && FitsList([], [])
    ensures Intact(b, s, ListSpans([])) && Apart(ListSpans([]), Lo(s, p), Lo(s, p))
  {
    hide ParserSpec.ParseList, Sum;
    assert [] + ParserSpec.ParseList(s, p).kids == ParserSpec.ParseList(s, p).kids;
    AccountListIs([]);
    SumLaws(books, EMPTY, EMPTY);
  }

  lemma LoMonotone(s: string, p: nat, q: nat)
    requires p <= q
    ensures Lo(s, p) <= Lo(s, q)
  {
  }

  /** What was kept before the cursor stays as it is. */
  lemma KeptBehind(b: string, c: string, s: string, spans: seq<Span>, lo: nat, q: nat)
    requires Intact(b, s, spans) && Apart(spans, lo, Lo(s, q)) && q <= |s| && |b| == |c| == |s| + 1
    requires forall k :: 0 <= k < q && k < |c| ==> c[k] == b[k]
    ensures Intact(c, s, spans)
  {
    hide Holds, Intact, Apart;
    Loosen(spans, lo, Lo(s, q), lo, q + 1);
    IntactBehind(b, c, s, spans, lo, q);
  }

  lemma DoneBefore(b: string, s: string, kids: seq<Node>, r: ListResult)
    requires r.kids == [] && Intact(b, s, ListSpans(kids))
    ensures Before(kids, r).kids == kids
    ensures r.Closed? ==> Before(kids, r) == Closed(kids, r.endTag, r.p)
    ensures r.Stopped? ==> Before(kids, r) == Stopped(kids, r.error)
    ensures r.Closed? && Holds(b, s, r.endTag) ==> Intact(b, s, ListSpans(kids) + [r.endTag])
  {
    hide Holds;
    assert kids + [] == kids;
  }

  lemma BeforeMore(kids: seq<Node>, n: Node, r: ListResult)
    ensures Before(kids, Before([n], r)) == Before(kids + [n], r)
  {
    assert kids + ([n] + r.kids) == kids + [n] + r.kids;
  }

  lemma {:induction false} ListSpansMore(ns: seq<Node>, n: Node)
    ensures ListSpans(ns + [n]) == ListSpans(ns) + Spans(n)
  {
    if ns == [] {
      assert ns + [n] == [n] && [n][1..] == [];
      assert Spans(n) + ListSpans([]) == Spans(n);
    } else {
      ListSpansMore(ns[1..], n);
      assert (ns + [n])[1..] == ns[1..] + [n];
      assert Spans(ns[0]) + (ListSpans(ns[1..]) + Spans(n)) == Spans(ns[0]) + ListSpans(ns[1..]) + Spans(n);
    }
  }

  lemma OneMore(b: string, s: string, kids: seq<Node>, n: Node, lo: nat, q: nat, next: nat)
    requires Intact(b, s, ListSpans(kids)) && Apart(ListSpans(kids), lo, Lo(s, q)) && lo <= Lo(s, q) <= Lo(s, next)
    requires Intact(b, s, Spans(n)) && Apart(Spans(n), Lo(s, q), Lo(s, next))
    ensures Intact(b, s, ListSpans(kids + [n])) && Apart(ListSpans(kids + [n]), lo, Lo(s, next))
  {
    hide Holds, Intact, Apart, Lo, ListSpans, Spans;
    ListSpansMore(kids, n);
    IntactConcat(b, s, ListSpans(kids), Spans(n));
    ApartConcat(ListSpans(kids), Spans(n), lo, Lo(s, q), Lo(s, q), Lo(s, next));
  }
}
