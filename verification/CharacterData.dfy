/** Character data in the XML report of gtest, and what tinyxml2 reads it back as. */
module CharacterData {
  import opened Options
  import opened Text
  import opened Entities
  import opened StrPairs
  import PrintSpec
  import P = ParserSpec
  import RoundTrip
  import opened LineBreaks

  function Open(): string {
    "<![CDATA["
  }

  function Close(): string {
    "]]>"
  }

  /** The terminator as escaped text. */
  function Between(): string {
    "]]&gt;"
  }

  /** What stands for a terminator in the data. */
  function Reopen(): string {
    Close() + (Between() + Open())
  }

  /** A piece of the data, and what is written behind its section is opened again. */
  function Joined(piece: string, behind: string): string {
    piece + (Reopen() + behind)
  }

  /** The pieces between the terminators, each in a section of its own, and each terminator as escaped text. */
  function Inside(data: string): string
    decreases |data|
  {
    match Find(data, 0, Close())
    case None => data + Close()
    case Some(k) => Joined(data[..k], Inside(data[k + 3..]))
  }

  function Sections(data: string): string {
    Open() + Inside(data)
  }

  /** One terminator between two strings without brackets. */
  lemma SectionsExample(a: string, b: string)
    requires ']' !in a && ']' !in b
    ensures Sections(b) == "<![CDATA[" + b + "]]>"
    ensures Sections(a + "]]>" + b) == "<![CDATA[" + a + "]]>]]&gt;<![CDATA[" + b + "]]>"
  {
    hide Find, HasAt;
    var data, n := a + "]]>" + b, |a|;
    forall k: nat | k <= |b| ensures !HasAt(b, k, "]]>") {
      NotHasAt(b, k, "]]>", 0);
    }
    forall k: nat | k < n ensures !HasAt(data, k, "]]>") {
      NotHasAt(data, k, "]]>", 0);
    }
    TerminatorAt(a, b);
    FindIs(data, 0, n, "]]>");
    NeverFound(b);
    assert data[..n] == a && data[n + 3..] == b;
    assert Inside(data) == Joined(a, Inside(b));
    assert Open() + (b + Close()) == Open() + b + Close();
    assert Open() + Joined(a, b + Close()) == "<![CDATA[" + a + ("]]>" + ("]]&gt;" + "<![CDATA[")) + (b + "]]>");
  }

  lemma TerminatorAt(a: string, b: string)
    ensures HasAt(a + "]]>" + b, |a|, "]]>")
  {
    assert (a + "]]>" + b)[|a|..|a| + 3] == "]]>";
  }

  lemma NeverFound(b: string)
    requires forall k: nat :: k <= |b| ==> !HasAt(b, k, "]]>")
    ensures Find(b, 0, "]]>").None?
  {
    hide HasAt, Find;
    var found := Find(b, 0, "]]>");
    if found.Some? {
      HasAtBound(b, found.value, "]]>");
    }
  }

  method OutputXmlCDataSection(stream: string, data: string) returns (out: string)
    ensures out == stream + Sections(data)
  {
    hide Inside, Reopen, Open, Close, Joined;
    var segment := 0;
    out := stream + Open();
    assert data[0..] == data && stream + Sections(data) == out + Inside(data);
    while true
      invariant 0 <= segment <= |data| && stream + Sections(data) == out + Inside(data[segment..])
      decreases |data| - segment
    {
      var nextSegment := Find(data, segment, Close());
      Turn(data, segment);
      if nextSegment.Some? {
        var k := nextSegment.value;
        JoinedOut(out, data[segment..k], Inside(data[k + 3..]));
        out := out + data[segment..k];
        out := out + Reopen();
        segment := k + 3;
      } else {
        out := out + data[segment..];
        break;
      }
    }
    out := out + Close();
  }

  lemma JoinedOut(out: string, piece: string, behind: string)
    ensures out + Joined(piece, behind) == out + piece + Reopen() + behind
  {
    hide Reopen;
  }

  /** One turn of the loop. */
  lemma Turn(data: string, p: nat)
    requires p <= |data|
    ensures Find(data, p, Close()).None? ==> Inside(data[p..]) == data[p..] + Close()
    ensures Find(data, p, Close()).Some? ==>
      var k := Find(data, p, Close()).value;
      p <= k && k + 3 <= |data| && Inside(data[p..]) == Joined(data[p..k], Inside(data[k + 3..]))
  {
    hide Find, Inside, Joined, HasAt, Close;
    Shifted(data, p);
    InsideStep(data[p..]);
    match Find(data, p, Close())
    case None =>
    case Some(k) =>
      Behind(data, p, k);
      Slices(data, p, k, k + 3);
  }

  lemma Behind(data: string, p: nat, k: nat)
    requires p <= |data| && Find(data, p, Close()) == Some(k)
    ensures p <= k && k + 3 <= |data|
  {
  }

  lemma InsideStep(data: string)
    ensures Find(data, 0, Close()).None? ==> Inside(data) == data + Close()
    ensures Find(data, 0, Close()).Some? ==>
      var k := Find(data, 0, Close()).value;
      k + 3 <= |data| && Inside(data) == Joined(data[..k], Inside(data[k + 3..]))
  {
  }

  /** Searching a text from a position is searching its rest. */
  lemma Shifted(data: string, p: nat)
    requires p <= |data|
    ensures Find(data, p, Close()).None? ==> Find(data[p..], 0, Close()).None?
    ensures Find(data, p, Close()).Some? ==>
      Find(data, p, Close()).value >= p && Find(data[p..], 0, Close()) == Some(Find(data, p, Close()).value - p)
  {
    hide HasAt;
    var rest := data[p..];
    forall k: nat
      ensures HasAt(rest, k, Close()) <==> HasAt(data, p + k, Close())
      ensures HasAt(rest, k, Close()) ==> p + k <= |data|
    {
      RestHasAt(data, p, k);
    }
    match Find(data, p, Close())
    case None =>
      assert forall k: nat :: !HasAt(rest, k, Close());
    case Some(k) =>
      FindIs(rest, 0, k - p, Close());
  }

  lemma RestHasAt(data: string, p: nat, k: nat)
    requires p <= |data|
    ensures HasAt(data[p..], k, Close()) <==> HasAt(data, p + k, Close())
    ensures HasAt(data[p..], k, Close()) ==> p + k <= |data|
  {
    if p + k + 3 <= |data| {
      assert data[p..][k..k + 3] == data[p + k..p + k + 3];
    }
  }

  // ----- Reading it back -----

  function Section(v: string): string {
    Open() + (v + Close())
  }

  /** A section, a terminator as text, and other sections. */
  function SectionThen(v: string, others: string): string {
    Section(v) + (Between() + others)
  }

  /** What the pieces of some data read as, one behind the other. */
  ghost function ReadBack(data: string): (r: string)
    decreases |data|
  {
    NewlinesOnly(data, 0, 0);
    match Find(data, 0, Close())
    case None => Reading(data, NEWLINES).value
    case Some(k) =>
      NewlinesOnly(data[..k], 0, 0);
      Reading(data[..k], NEWLINES).value + (Close() + ReadBack(data[k + 3..]))
  }

  /** A turn that only looks at line breaks: where it goes on and what it writes. */
  lemma NewlineTurn(s: string, i: nat, q: nat) returns (next: nat, bytes: string)
    requires q <= i < |s|
    ensures TurnAt(s, i, NEWLINES) == Put(next, bytes) && i < next <= |s| && q + |bytes| <= next
    ensures Decode(s, i, q, NEWLINES) == Prefixed(bytes, Decode(s, next, q + |bytes|, NEWLINES))
  {
    hide CharacterRef, EntityAt;
    next, bytes := TurnAt(s, i, NEWLINES).next, Written(s, i, q, NEWLINES);
  }

  lemma TurnBehind(u: string, w: string, j: nat)
    requires j < |w|
    ensures TurnAt(w, j, NEWLINES).Put?
    ensures TurnAt(u + w, |u| + j, NEWLINES)
      == Put(|u| + TurnAt(w, j, NEWLINES).next, TurnAt(w, j, NEWLINES).bytes)
  {
    hide CharacterRef, EntityAt;
  }

  lemma TurnInFront(u: string, w: string, i: nat)
    requires i < |u| && (w != [] ==> !IsBreak(u[|u| - 1]) || !IsBreak(w[0]))
    ensures TurnAt(u + w, i, NEWLINES) == TurnAt(u, i, NEWLINES)
  {
    hide CharacterRef, EntityAt;
    assert At(u + w, i + 1) == if i + 1 < |u| then u[i + 1] else At(w, 0);
  }

  /** The write position does not matter, nor what stands in front. */
  lemma {:induction false} ReadBehind(u: string, w: string, j: nat, q: nat, q': nat)
    requires q <= |u| + j && q' <= j <= |w|
    ensures Decode(u + w, |u| + j, q, NEWLINES) == Decode(w, j, q', NEWLINES)
    decreases |w| - j
  {
    hide Decode, TurnAt;
    if j == |w| {
      DecodeEnd(u + w, q, NEWLINES);
      DecodeEnd(w, q', NEWLINES);
    } else {
      TurnBehind(u, w, j);
      var next, bytes := NewlineTurn(w, j, q');
      var next', bytes' := NewlineTurn(u + w, |u| + j, q);
      ReadBehind(u, w, next, q + |bytes|, q' + |bytes|);
    }
  }

  predicate IsBreak(c: char) {
    c == CR || c == LF
  }

  /** Two texts that do not share a line break are made uniform one by one. */
  lemma {:induction false} ReadConcat(u: string, w: string, i: nat, q: nat)
    requires q <= i <= |u|
    requires u != [] && w != [] ==> !IsBreak(u[|u| - 1]) || !IsBreak(w[0])
    ensures Decode(u, i, q, NEWLINES).Some? && Decode(w, 0, 0, NEWLINES).Some?
    ensures Decode(u + w, i, q, NEWLINES) == Some(Decode(u, i, q, NEWLINES).value + Decode(w, 0, 0, NEWLINES).value)
    decreases |u| - i
  {
    hide Decode, TurnAt;
    NewlinesOnly(u, i, q);
    NewlinesOnly(w, 0, 0);
    if i == |u| {
      DecodeEnd(u, q, NEWLINES);
      ReadBehind(u, w, 0, q, 0);
      NothingWritten(Decode(w, 0, 0, NEWLINES));
    } else {
      TurnInFront(u, w, i);
      var next, bytes := NewlineTurn(u, i, q);
      var next', bytes' := NewlineTurn(u + w, i, q);
      ReadConcat(u, w, next, q + |bytes|);
      Associate(bytes, Decode(u, next, q + |bytes|, NEWLINES).value, Decode(w, 0, 0, NEWLINES).value);
    }
  }

  lemma ReadAround(front: string, rest: string)
    ensures Reading(front, NEWLINES).Some? && Reading(rest, NEWLINES).Some?
    ensures Reading(front + (Close() + rest), NEWLINES)
      == Some(Reading(front, NEWLINES).value + (Close() + Reading(rest, NEWLINES).value))
  {
    hide Decode;
    ReadConcat(Close(), rest, 0, 0);
    ReadConcat(front, Close() + rest, 0, 0);
    RoundTrip.CleanReading(Close(), 0);
    assert Close()[0..] == Close();
  }

  /** What is read back is the data with uniform line breaks; nothing is lost exactly when there is no
  carriage return. */
  lemma {:induction false} ReadBackIff(data: string)
    ensures Reading(data, NEWLINES) == Some(ReadBack(data))
    ensures ReadBack(data) == data <==> CR !in data
    ensures CR !in ReadBack(data)
    decreases |data|
  {
    hide Decode, Reading, ReadBack, Find, HasAt, Inside, Sections, Open, Between;
    ReadBackStep(data);
    match Find(data, 0, Close())
    case None =>
      PieceRead(data);
    case Some(k) =>
      PieceRead(data[..k]);
      ReadBackIff(data[k + 3..]);
      Behind(data, 0, k);
      Cut(data, k);
      ReadAround(data[..k], data[k + 3..]);
      Parts(data[..k], Close(), data[k + 3..], Reading(data[..k], NEWLINES).value, ReadBack(data[k + 3..]));
  }

  lemma Cut(data: string, k: nat)
    requires Find(data, 0, Close()) == Some(k)
    ensures k + 3 <= |data| && data == data[..k] + (Close() + data[k + 3..])
  {
    Slices(data, 0, k, k + 3);
  }

  lemma Slices(data: string, p: nat, k: nat, m: nat)
    requires p <= k <= m <= |data|
    ensures data == data[..k] + (data[k..m] + data[m..])
    ensures data[p..][..k - p] == data[p..k] && data[p..][m - p..] == data[m..]
  {
  }

  /** Three pieces hold a carriage return when one of them does. */
  lemma Parts(front: string, mark: string, rest: string, front': string, rest': string)
    requires CR !in front' && CR !in mark && CR !in rest'
    requires (CR !in front ==> front' == front) && (rest' == rest <==> CR !in rest)
    ensures CR !in front' + (mark + rest')
    ensures front' + (mark + rest') == front + (mark + rest) <==> CR !in front + (mark + rest)
  {
    NotInConcat(front', mark + rest');
    NotInConcat(mark, rest');
    NotInConcat(front, mark + rest);
    NotInConcat(mark, rest);
  }

  lemma PieceRead(v: string)
    ensures Reading(v, NEWLINES).Some? && CR !in Reading(v, NEWLINES).value
    ensures CR !in v ==> Reading(v, NEWLINES).value == v
  {
    hide Decode;
    NewlinesOnly(v, 0, 0);
    if CR !in v {
      RoundTrip.CleanReading(v, 0);
      assert v[0..] == v;
    }
  }

  /** The values of some text nodes, one behind the other. */
  ghost predicate TextIs(s: string, ns: seq<P.Node>, v: string) {
    if ns == [] then v == ""
    else
      var n := ns[0];
      n.Text? && n.value.start <= n.value.end <= |s| && Meaning(s, n.value).Some? &&
      var u := Meaning(s, n.value).value;
      u <= v && TextIs(s, ns[1..], v[|u|..])
  }

  lemma TextCons(s: string, n: P.Node, ns: seq<P.Node>, u: string, v: string)
    requires n.Text? && n.value.start <= n.value.end <= |s| && Meaning(s, n.value) == Some(u) && TextIs(s, ns, v)
    ensures TextIs(s, [n] + ns, u + v)
  {
    assert ([n] + ns)[1..] == ns && (u + v)[|u|..] == v && u <= u + v;
  }

  lemma Opening(s: string, p: nat)
    requires HasAt(s, p, Open())
    ensures P.Identify(s, p) == P.Identified(P.CDataKind, p + 9)
  {
    HasAtChar(s, p, Open(), 0);
    HasAtChar(s, p, Open(), 1);
    HasAtChar(s, p, Open(), 2);
    SkipSpaceIs(s, p, p);
    Differs(s, p, "<?", 1);
    Differs(s, p, "<!--", 2);
  }

  lemma Differs(s: string, p: nat, w: string, k: nat)
    requires k < |w| && p + k < |s| && s[p + k] != w[k]
    ensures !HasAt(s, p, w)
  {
    if p + |w| <= |s| {
      assert s[p..p + |w|][k] == s[p + k];
    }
  }

  /** A section is read as one node, whatever line breaks it holds. */
  lemma SectionParsed(s: string, p: nat, v: string) returns (n: P.Node)
    requires HasAt(s, p, Section(v)) && PrintSpec.Free(v, Close())
    ensures n == P.Text(Span(p + 9, p + 9 + |v|, NEWLINES), true) && n.value.end <= |s|
    ensures Meaning(s, n.value) == Reading(v, NEWLINES)
    ensures P.ParseList(s, p) == P.Before([n], P.ParseList(s, p + 12 + |v|))
  {
    hide P.ParseList, Decode;
    HasAtConcat(s, p, Open(), v + Close());
    HasAtBound(s, p, Section(v));
    Opening(s, p);
    RoundTrip.FindAfter(s, p + 9, v, Close());
    n := P.Text(Span(p + 9, p + 9 + |v|, NEWLINES), true);
    RoundTrip.NodeStep(s, p, P.CDataKind, p + 9, n, None, p + 12 + |v|);
  }

  lemma EscapedClose()
    ensures Escape(Close(), true) == Between()
  {
    assert Close()[1..] == "]>" && "]>"[1..] == ">" && ">"[1..] == "";
    assert Escape(">", true) == "&gt;" + "" == "&gt;";
    assert Escape("]>", true) == "]" + "&gt;" == "]&gt;";
    assert Escape(Close(), true) == "]" + "]&gt;";
  }

  /** The text between two sections is read as the terminator that it stands for. */
  lemma BetweenParsed(s: string, p: nat) returns (n: P.Node)
    requires HasAt(s, p, Between() + Open())
    ensures n == P.Text(Span(p, p + 6, BOTH), false) && n.value.end <= |s| && Meaning(s, n.value) == Some(Close())
    ensures P.ParseList(s, p) == P.Before([n], P.ParseList(s, p + 6))
  {
    hide P.ParseList, Decode;
    HasAtConcat(s, p, Between(), Open());
    HasAtChar(s, p + 6, Open(), 0);
    HasAtChar(s, p + 6, Open(), 1);
    EscapedClose();
    assert !PrintSpec.Blank(Close()) by { assert !IsSpace(Close()[0]); }
    n := RoundTrip.PlainTextParsed(s, p, Close());
  }

  /** Wherever the sections stand inside an element, they are read as text nodes whose values together are the data:
      all of it exactly when it has no carriage return. */
  lemma {:induction false} SectionsParsed(s: string, p: nat, data: string) returns (ns: seq<P.Node>)
    requires HasAt(s, p, Sections(data))
    ensures p + |Sections(data)| <= |s| && P.ParseList(s, p) == P.Before(ns, P.ParseList(s, p + |Sections(data)|))
    ensures TextIs(s, ns, ReadBack(data))
    ensures ReadBack(data) == data <==> CR !in data
    decreases |data|
  {
    hide P.ParseList, Decode, HasAt, TextIs, Reading, Inside, P.Before, Section, SectionThen, Sections;
    ReadBackIff(data);
    SectionsStep(data);
    ReadBackStep(data);
    HasAtBound(s, p, Sections(data));
    match Find(data, 0, Close())
    case None =>
      SectionLength(data);
      var n := SectionParsed(s, p, data);
      ns := [n];
      TextEnd(s, n, ReadBack(data));
    case Some(k) =>
      var front, rest := data[..k], data[k + 3..];
      var q := p + 12 + |front|;
      SectionAndRest(s, p, front, rest);
      FrontFree(data, k);
      var a := SectionParsed(s, p, front);
      var b := BetweenParsed(s, q);
      var others := SectionsParsed(s, q + 6, rest);
      TextCons(s, b, others, Close(), ReadBack(rest));
      TextCons(s, a, [b] + others, Reading(front, NEWLINES).value, Close() + ReadBack(rest));
      ns := [a] + ([b] + others);
      RoundTrip.BeforeTwice([b], others, P.ParseList(s, p + |Sections(data)|));
      RoundTrip.BeforeTwice([a], [b] + others, P.ParseList(s, p + |Sections(data)|));
  }

  lemma SectionLength(v: string)
    ensures |Section(v)| == 12 + |v|
  {
  }

  /** Where the first section ends, and the text and the other sections begin. */
  lemma SectionAndRest(s: string, p: nat, front: string, rest: string)
    requires HasAt(s, p, SectionThen(front, Sections(rest)))
    ensures HasAt(s, p, Section(front))
    ensures HasAt(s, p + 12 + |front|, Between() + Open()) && HasAt(s, p + 18 + |front|, Sections(rest))
    ensures |SectionThen(front, Sections(rest))| == 18 + |front| + |Sections(rest)|
  {
    hide HasAt, Inside;
    var q := p + 12 + |front|;
    HasAtConcat(s, p, Section(front), Between() + Sections(rest));
    HasAtConcat(s, q, Between(), Sections(rest));
    HasAtConcat(s, q + 6, Open(), Inside(rest));
    HasAtConcat(s, q, Between(), Open());
  }

  lemma TextEnd(s: string, n: P.Node, v: string)
    requires n.Text? && n.value.start <= n.value.end <= |s| && Meaning(s, n.value) == Some(v)
    ensures TextIs(s, [n], v)
  {
    TextCons(s, n, [], v, "");
    assert [n] + [] == [n] && v + "" == v;
  }

  /** The first section, and what follows it. */
  lemma SectionsStep(data: string)
    ensures Find(data, 0, Close()).None? ==> Sections(data) == Section(data)
    ensures Find(data, 0, Close()).Some? ==>
      var k := Find(data, 0, Close()).value;
      k + 3 <= |data| && Sections(data) == SectionThen(data[..k], Sections(data[k + 3..]))
  {
    hide Inside, Find, HasAt, Joined, Open, Close, SectionThen, Section, Sections;
    InsideStep(data);
    if Find(data, 0, Close()).None? {
      OneSection(data);
    } else {
      MoreSections(data, Find(data, 0, Close()).value);
    }
  }

  lemma MoreSections(data: string, k: nat)
    requires k + 3 <= |data| && Inside(data) == Joined(data[..k], Inside(data[k + 3..]))
    ensures Sections(data) == SectionThen(data[..k], Sections(data[k + 3..]))
  {
    hide Inside, Find, HasAt, Joined, Open, Close, SectionThen, Section, Sections;
    SectionsAre(data);
    SectionsAre(data[k + 3..]);
    Regroup(data[..k], Inside(data[k + 3..]), Sections(data), Sections(data[k + 3..]));
  }

  lemma OneSection(data: string)
    requires Inside(data) == data + Close()
    ensures Sections(data) == Section(data)
  {
    hide Inside, Open, Close;
  }

  lemma SectionsAre(data: string)
    ensures Sections(data) == Open() + Inside(data)
  {
  }

  lemma ReadBackStep(data: string)
    ensures match Find(data, 0, Close())
      case None => Reading(data, NEWLINES) == Some(ReadBack(data))
      case Some(k) =>
        k + 3 <= |data| && Reading(data[..k], NEWLINES).Some? &&
        ReadBack(data) == Reading(data[..k], NEWLINES).value + (Close() + ReadBack(data[k + 3..]))
  {
    hide Decode, Find;
    NewlinesOnly(data, 0, 0);
    match Find(data, 0, Close())
    case None =>
    case Some(k) =>
      Behind(data, 0, k);
      NewlinesOnly(data[..k], 0, 0);
  }

  lemma Regroup(front: string, inside: string, all: string, others: string)
    requires all == Open() + Joined(front, inside) && others == Open() + inside
    ensures all == SectionThen(front, others)
  {
    hide Open, Close, Between;
    var rest := Between() + (Open() + inside);
    Associate(Close(), Between() + Open(), inside);
    Associate(Between(), Open(), inside);
    Associate(front, Close(), rest);
    Associate(Open(), front + Close(), rest);
  }

  lemma Associate(a: string, b: string, c: string)
    ensures (a + b) + c == a + (b + c)
  {
  }

  /** In front of the first terminator there is none. */
  lemma FrontFree(data: string, k: nat)
    requires Find(data, 0, Close()) == Some(k)
    ensures PrintSpec.Free(data[..k], Close())
  {
    forall j | 0 <= j <= k ensures !HasAt(data[..k], j, Close()) {
      if j + 3 <= k {
        assert data[..k][j..j + 3] == data[j..j + 3];
        assert !HasAt(data, j, Close());
      }
    }
  }
}
