/** The cursor operations of the parser on the buffer, and the strings it reads while parsing. */
module Scanner {
  import opened Text
  import opened StrPairs
  import opened ParserSpec

  /** From the cursor on, the buffer still is the text. */
  ghost predicate Ahead(b: string, s: string, p: nat) {
    |b| == |s| + 1 && p <= |s| && Unread(b, 0, s, p)
  }

  /** The bytes of the span are those of the text. */
  ghost predicate Holds(b: string, s: string, span: Span) {
    span.start <= span.end <= |s| && |b| == |s| + 1 && forall k :: span.start <= k < span.end ==> b[k] == s[k]
  }

  ghost predicate Intact(b: string, s: string, spans: seq<Span>) {
    forall i :: 0 <= i < |spans| ==> Holds(b, s, spans[i])
  }

  lemma AheadAt(b: string, s: string, p: nat, q: nat)
    requires Ahead(b, s, p) && p <= q <= |s|
    ensures b[q] == At(s, q) && (b[q] == NUL <==> q == |s|) && Ahead(b, s, q)
  {
    assert q < |s| ==> s[q] != NUL;
  }

  lemma AheadBound(b: string, s: string, p: nat)
    requires Ahead(b, s, p)
    ensures |b| == |s| + 1 && p <= |s| && NUL !in s && b[p] == At(s, p) && (b[p] == NUL <==> p == |s|)
  {
    AheadAt(b, s, p, p);
  }

  lemma AheadHolds(b: string, s: string, p: nat, span: Span)
    requires Ahead(b, s, p) && p <= span.start <= span.end <= |s|
    ensures Holds(b, s, span)
  {
  }

  /** Writing behind the spans does not touch them. */
  lemma IntactBehind(b: string, c: string, s: string, spans: seq<Span>, lo: nat, p: nat)
    requires Intact(b, s, spans) && |c| == |b| && forall k :: 0 <= k < p <= |b| ==> c[k] == b[k]
    requires Apart(spans, lo, p + 1) && p <= |s|
    ensures Intact(c, s, spans)
  {
    forall i | 0 <= i < |spans| ensures Holds(c, s, spans[i]) {
      assert Holds(b, s, spans[i]) && spans[i].end <= p;
    }
  }

  /** Terminators at the ends of spans fall into none of them. */
  lemma IntactAtEnds(b: string, c: string, s: string, spans: seq<Span>, lo: nat, hi: nat, m: nat, n: nat)
    requires Intact(b, s, spans) && Apart(spans, lo, hi) && m < |spans| && n < |spans| && |c| == |b|
    requires forall k :: 0 <= k < |b| && k != spans[m].end && k != spans[n].end ==> c[k] == b[k]
    ensures Intact(c, s, spans)
  {
    forall i | 0 <= i < |spans| ensures Holds(c, s, spans[i]) {
      assert Holds(b, s, spans[i]);
      if i < n { assert spans[i].end < spans[n].start; }
      if n < i { assert spans[n].end < spans[i].start; }
      if i < m { assert spans[i].end < spans[m].start; }
      if m < i { assert spans[m].end < spans[i].start; }
    }
  }

  lemma HoldsKept(b: string, c: string, s: string, span: Span, w: nat)
    requires Holds(b, s, span) && |c| == |b| && !(span.start <= w < span.end)
    requires forall k :: 0 <= k < |b| && k != w ==> c[k] == b[k]
    ensures Holds(c, s, span)
  {
  }

  /** `XMLUtil::SkipWhiteSpace`. */
  method SkipWhiteSpace(buf: array<char>, p: nat, ghost s: string) returns (q: nat)
    requires Ahead(buf[..], s, p)
    ensures q == SkipSpace(s, p)
  {
    q := p;
    AheadAt(buf[..], s, p, q);
    while IsSpace(buf[q])
      invariant p <= q <= |s| && buf[q] == At(s, q)
      invariant SkipSpace(s, p) == SkipSpace(s, q)
      decreases |s| - q
    {
      q := q + 1;
      AheadAt(buf[..], s, p, q);
    }
  }

  /** `XMLUtil::StringEqual` with a header and its length. */
  method StartsWith(buf: array<char>, p: nat, w: string, ghost s: string) returns (r: bool)
    requires Ahead(buf[..], s, p) && NUL !in w
    ensures r <==> HasAt(s, p, w)
  {
    UnreadHasAt(buf[..], 0, s, p, p, w);
    var n := 0;
    while n < |w| && buf[p + n] == w[n]
      invariant 0 <= n <= |w| && p + n <= |s|
      invariant buf[p..p + n] == w[..n]
    {
      AheadAt(buf[..], s, p, p + n);
      assert w[n] != NUL;
      assert buf[p..p + n + 1] == buf[p..p + n] + [buf[p + n]] && w[..n + 1] == w[..n] + [w[n]];
      n := n + 1;
    }
    r := n == |w|;
    assert w[..|w|] == w;
    if n < |w| && p + |w| <= |s| {
      assert buf[p..p + |w|][n] == buf[p + n];
    }
  }

  /** Flushes a name and returns where its C string starts. */
  method FlushName(buf: array<char>, span: Span, ghost s: string)
    requires Holds(buf[..], s, span) && buf.Length == |s| + 1 && span.flags == PLAIN && NUL !in s
    modifies buf
    ensures buf[span.end] == NUL
    ensures forall k :: 0 <= k < buf.Length && k != span.end ==> buf[k] == old(buf[k])
  {
    ghost var b := buf[..];
    assert buf[span.start..span.end] == s[span.start..span.end];
    PlainReading(buf[span.start..span.end], 0);
    assert buf[span.start..span.end][0..] == b[span.start..span.end];
    var pair := new StrPair();
    pair.Set(span.start, span.end, span.flags);
    var str := pair.GetStr(buf);
    var w := b[span.start..span.end] + [NUL];
    forall k | 0 <= k < buf.Length && k != span.end ensures buf[k] == b[k] {
      if k < span.start {
        assert buf[..span.start][k] == b[..span.start][k];
      } else if k < span.end {
        HasAtChar(buf[..], span.start, w, k - span.start);
      } else {
        assert buf[span.end + 1..][k - span.end - 1] == b[span.end + 1..][k - span.end - 1];
      }
    }
    HasAtChar(buf[..], span.start, w, span.end - span.start);
  }

  /** `XMLUtil::StringEqual` on two names, both flushed first. */
  method NamesEqual(buf: array<char>, a: Span, b: Span, ghost s: string) returns (eq: bool)
    requires Holds(buf[..], s, a) && Holds(buf[..], s, b) && NUL !in s
    requires a.flags == b.flags == PLAIN && a.end < b.start
    modifies buf
    ensures eq <==> Slice(s, a) == Slice(s, b)
    ensures forall k :: 0 <= k < buf.Length && k != a.end && k != b.end ==> buf[k] == old(buf[k])
  {
    ghost var b0 := buf[..];
    FlushName(buf, a, s);
    ghost var b1 := buf[..];
    HoldsKept(b0, b1, s, a, a.end);
    HoldsKept(b0, b1, s, b, a.end);
    FlushName(buf, b, s);
    ghost var b2 := buf[..];
    HoldsKept(b1, b2, s, a, b.end);
    HoldsKept(b1, b2, s, b, b.end);
    assert b2[a.end] == b1[a.end] == NUL && b2[b.end] == NUL;
    var n := 0;
    while buf[a.start + n] != NUL && buf[b.start + n] != NUL && buf[a.start + n] == buf[b.start + n]
      invariant a.start + n <= a.end && b.start + n <= b.end && buf[..] == b2
      invariant s[a.start..a.start + n] == s[b.start..b.start + n]
      decreases a.end - a.start - n
    {
      NameEnds(b2, s, a, n);
      NameEnds(b2, s, b, n);
      assert s[a.start..a.start + n + 1] == s[a.start..a.start + n] + [s[a.start + n]];
      assert s[b.start..b.start + n + 1] == s[b.start..b.start + n] + [s[b.start + n]];
      n := n + 1;
    }
    eq := buf[a.start + n] == NUL && buf[b.start + n] == NUL;
    NameEnds(b2, s, a, n);
    NameEnds(b2, s, b, n);
    NamesDecided(s, a, b, n);
  }

  lemma NameEnds(b: string, s: string, a: Span, n: nat)
    requires Holds(b, s, a) && NUL !in s && a.start + n <= a.end && b[a.end] == NUL
    ensures b[a.start + n] == NUL <==> a.start + n == a.end
    ensures a.start + n < a.end ==> b[a.start + n] == s[a.start + n]
  {
    assert a.start + n < a.end ==> s[a.start + n] != NUL;
  }

  lemma NamesDecided(s: string, a: Span, b: Span, n: nat)
    requires a.start + n <= a.end <= |s| && b.start + n <= b.end <= |s|
    requires s[a.start..a.start + n] == s[b.start..b.start + n]
    requires a.start + n == a.end || b.start + n == b.end || s[a.start + n] != s[b.start + n]
    ensures Slice(s, a) == Slice(s, b) <==> a.start + n == a.end && b.start + n == b.end
  {
    var u, v := Slice(s, a), Slice(s, b);
    if a.start + n == a.end && b.start + n == b.end {
      assert u == s[a.start..a.start + n] && v == s[b.start..b.start + n];
    } else if |u| == |v| {
      assert u[n] == s[a.start + n] && v[n] == s[b.start + n];
    }
  }
}
