/** The four pools of a document, and the chunks that a tree owns. */
module NodePools {
  import opened Options
  import opened StrPairs
  import opened ParserSpec
  import opened MemPools

  datatype PoolKind = ELEMENTS | ATTRIBUTES | TEXTS | COMMENTS

  /** A chunk of one of the pools. */
  datatype Chunk = Chunk(pool: PoolKind, address: nat)

  type AttributeChunk = c: Chunk | c.pool == ATTRIBUTES witness Chunk(ATTRIBUTES, 0)

  /** Where a node lives: its own chunk, those of its attributes, and its children. */
  datatype Memory = Memory(own: Chunk, attributes: seq<AttributeChunk>, kids: seq<Memory>)

  ghost function Bag(chunks: seq<Chunk>): multiset<Chunk> {
    multiset(chunks)
  }

  ghost function Owned(m: Memory): multiset<Chunk> {
    multiset{m.own} + Bag(m.attributes) + OwnedList(m.kids)
  }

  ghost function OwnedList(ms: seq<Memory>): multiset<Chunk> {
    if ms == [] then multiset{} else Owned(ms[0]) + OwnedList(ms[1..])
  }

  lemma {:induction false} OwnedMore(ms: seq<Memory>, m: Memory)
    ensures OwnedList(ms + [m]) == OwnedList(ms) + Owned(m)
  {
    hide Owned;
    if ms == [] {
      assert [m][1..] == [] && ms + [m] == [m];
    } else {
      OwnedMore(ms[1..], m);
      assert (ms + [m])[1..] == ms[1..] + [m];
    }
  }

  /** How many chunks of each pool. */
  datatype Tally = Tally(elements: nat, attributes: nat, texts: nat, comments: nat)

  const NOTHING: Tally := Tally(0, 0, 0, 0)

  function Plus(a: Tally, b: Tally): Tally {
    Tally(a.elements + b.elements, a.attributes + b.attributes, a.texts + b.texts, a.comments + b.comments)
  }

  function One(k: PoolKind): Tally {
    match k
    case ELEMENTS => Tally(1, 0, 0, 0)
    case ATTRIBUTES => Tally(0, 1, 0, 0)
    case TEXTS => Tally(0, 0, 1, 0)
    case COMMENTS => Tally(0, 0, 0, 1)
  }

  /** The nodes and attributes of a tree, by the pool they come from. */
  function NodeTally(n: Node): Tally {
    match n
    case Element(_, attributes, _, _, kids) => Plus(Tally(1, |attributes|, 0, 0), ListTally(kids))
    case Text(_, _) => One(TEXTS)
    case _ => One(COMMENTS)
  }

  function ListTally(ns: seq<Node>): Tally {
    if ns == [] then NOTHING else Plus(NodeTally(ns[0]), ListTally(ns[1..]))
  }

  function PoolOf(n: Node): PoolKind {
    match n
    case Element(_, _, _, _, _) => ELEMENTS
    case Text(_, _) => TEXTS
    case _ => COMMENTS
  }

  function KindPool(kind: Kind): PoolKind {
    match kind
    case ElementKind => ELEMENTS
    case TextKind => TEXTS
    case CDataKind => TEXTS
    case _ => COMMENTS
  }

  /** The memory has the shape of the node. */
  ghost predicate Fits(n: Node, m: Memory) {
    m.own.pool == PoolOf(n) &&
    if n.Element? then |m.attributes| == |n.attributes| && FitsList(n.kids, m.kids)
    else m.attributes == [] && m.kids == []
  }

  ghost predicate FitsList(ns: seq<Node>, ms: seq<Memory>) {
    if ns == [] then ms == [] else ms != [] && Fits(ns[0], ms[0]) && FitsList(ns[1..], ms[1..])
  }

  lemma {:induction false} FitsMore(ns: seq<Node>, ms: seq<Memory>, n: Node, m: Memory)
    requires FitsList(ns, ms) && Fits(n, m)
    ensures FitsList(ns + [n], ms + [m])
  {
    if ns == [] {
      assert ns + [n] == [n] && ms + [m] == [m] && [n][1..] == [] && [m][1..] == [];
    } else {
      FitsMore(ns[1..], ms[1..], n, m);
      assert (ns + [n])[1..] == ns[1..] + [n] && (ms + [m])[1..] == ms[1..] + [m];
    }
  }

  /** The chunks of each pool in a memory. */
  ghost function Size(m: Memory): Tally {
    Plus(Plus(One(m.own.pool), Tally(0, |m.attributes|, 0, 0)), SizeList(m.kids))
  }

  ghost function SizeList(ms: seq<Memory>): Tally {
    if ms == [] then NOTHING else Plus(Size(ms[0]), SizeList(ms[1..]))
  }

  lemma {:induction false} SizeMore(ms: seq<Memory>, m: Memory)
    ensures SizeList(ms + [m]) == Plus(SizeList(ms), Size(m))
  {
    if ms == [] {
      assert [m][1..] == [] && ms + [m] == [m];
    } else {
      SizeMore(ms[1..], m);
      assert (ms + [m])[1..] == ms[1..] + [m];
    }
  }

  lemma {:induction false} FitsSize(n: Node, m: Memory)
    requires Fits(n, m)
    ensures Size(m) == NodeTally(n)
    decreases n, 0
  {
    hide Fits, FitsList, Size, NodeTally, SizeList, ListTally;
    if n.Element? {
      ElementSize(n, m);
      FitsListSize(n.kids, m.kids);
    } else {
      LeafSize(n, m);
    }
  }

  lemma ElementSize(n: Node, m: Memory)
    requires n.Element? && Fits(n, m)
    ensures FitsList(n.kids, m.kids)
    ensures SizeList(m.kids) == ListTally(n.kids) ==> Size(m) == NodeTally(n)
  {
    hide FitsList, SizeList, ListTally;
  }

  lemma LeafSize(n: Node, m: Memory)
    requires !n.Element? && Fits(n, m)
    ensures Size(m) == NodeTally(n)
  {
    hide Fits, Size, NodeTally, SizeList, ListTally, One, Plus;
    LeafParts(n, m);
    NothingSize();
    SizeIs(m);
    PlusNothing(One(m.own.pool));
    LeafTally(n);
  }

  lemma LeafParts(n: Node, m: Memory)
    requires !n.Element? && Fits(n, m)
    ensures m.own.pool == PoolOf(n) && m.attributes == [] && m.kids == []
  {
  }

  lemma SizeIs(m: Memory)
    ensures Size(m) == Plus(Plus(One(m.own.pool), Tally(0, |m.attributes|, 0, 0)), SizeList(m.kids))
  {
  }

  lemma NothingSize()
    ensures SizeList([]) == NOTHING
  {
  }

  lemma PlusNothing(t: Tally)
    ensures Plus(Plus(t, NOTHING), NOTHING) == t
  {
  }

  lemma LeafTally(n: Node)
    requires !n.Element?
    ensures NodeTally(n) == One(PoolOf(n))
  {
  }

  lemma {:induction false} FitsListSize(ns: seq<Node>, ms: seq<Memory>)
    requires FitsList(ns, ms)
    ensures SizeList(ms) == ListTally(ns)
    decreases ns, 0
  {
    hide Fits, Size, NodeTally;
    if ns != [] {
      FitsSize(ns[0], ms[0]);
      FitsListSize(ns[1..], ms[1..]);
    }
  }

  /** Texts and sections come from one pool, comments, declarations and what is unknown from another. */
  lemma LeafTallies(v: Span)
    ensures NodeTally(ParserSpec.Text(v, false)) == NodeTally(ParserSpec.Text(v, true)) == Tally(0, 0, 1, 0)
    ensures NodeTally(Comment(v)) == NodeTally(Declaration(v)) == NodeTally(Unknown(v)) == Tally(0, 0, 0, 1)
    ensures KindPool(TextKind) == KindPool(CDataKind) == TEXTS && KindPool(ElementKind) == ELEMENTS
    ensures KindPool(CommentKind) == KindPool(DeclarationKind) == KindPool(UnknownKind) == COMMENTS
  {
  }

  /** An element counts for itself and its attributes, with what is in it. */
  lemma ElementTally(name: Span, attributes: seq<Attribute>, closing: Closing, endName: Option<Span>, kids: seq<Node>)
    ensures var all, inner := NodeTally(Element(name, attributes, closing, endName, kids)), ListTally(kids);
      all == Tally(1 + inner.elements, |attributes| + inner.attributes, inner.texts, inner.comments)
  {
  }

  /** What has been handed out: the chunks, and how many of each pool. */
  datatype Ledger = Ledger(bag: multiset<Chunk>, tally: Tally)

  ghost function Sum(a: Ledger, b: Ledger): Ledger {
    Ledger(a.bag + b.bag, Plus(a.tally, b.tally))
  }

  ghost const EMPTY: Ledger := Ledger(multiset{}, NOTHING)

  ghost function Entry(c: Chunk): Ledger {
    Ledger(multiset{c}, One(c.pool))
  }

  ghost function Entries(chunks: seq<AttributeChunk>): Ledger {
    Ledger(Bag(chunks), Tally(0, |chunks|, 0, 0))
  }

  ghost function Account(m: Memory): Ledger {
    Ledger(Owned(m), Size(m))
  }

  ghost function AccountList(ms: seq<Memory>): Ledger {
    Ledger(OwnedList(ms), SizeList(ms))
  }

  lemma SumLaws(a: Ledger, b: Ledger, c: Ledger)
    ensures Sum(Sum(a, b), c) == Sum(a, Sum(b, c)) && Sum(a, b) == Sum(b, a)
    ensures Sum(a, EMPTY) == a && b.bag <= Sum(a, b).bag
  {
  }

  /** What was added last can be taken away. */
  lemma SumCancel(a: Ledger, b: Ledger, c: Ledger)
    requires Sum(a, c) == Sum(b, c)
    ensures a == b
  {
    assert forall x: Chunk :: a.bag[x] + c.bag[x] == (a.bag + c.bag)[x] == (b.bag + c.bag)[x] == b.bag[x] + c.bag[x];
    assert Plus(a.tally, c.tally) == Plus(b.tally, c.tally);
  }

  lemma AccountIs(m: Memory)
    ensures Account(m) == Sum(Entry(m.own), Sum(Entries(m.attributes), AccountList(m.kids)))
  {
  }

  lemma AccountListIs(ms: seq<Memory>)
    ensures AccountList([]) == EMPTY
    ensures ms != [] ==> AccountList(ms) == Sum(Account(ms[0]), AccountList(ms[1..]))
  {
  }

  lemma AccountMore(ms: seq<Memory>, m: Memory)
    ensures AccountList(ms + [m]) == Sum(AccountList(ms), Account(m))
  {
    OwnedMore(ms, m);
    SizeMore(ms, m);
  }

  lemma EntriesMore(chunks: seq<AttributeChunk>, c: AttributeChunk)
    ensures Entries([]) == EMPTY && Entries(chunks + [c]) == Sum(Entries(chunks), Entry(c))
  {
  }

  /** The pools of an `XMLDocument`, with their chunks as one bag. */
  class Pools {
    const elementPool: MemPool
    const attributePool: MemPool
    const textPool: MemPool
    const commentPool: MemPool
    /** The chunks that are handed out. */
    ghost var live: multiset<Chunk>

    /** The pools hold so many items in a block. */
    constructor (elements: nat, attributes: nat, texts: nat, comments: nat)
      requires 0 < elements && 0 < attributes && 0 < texts && 0 < comments
      ensures Valid() && Books() == EMPTY && fresh(Repr())
    {
      hide MemPool.Valid;
      elementPool := new MemPool(elements);
      attributePool := new MemPool(attributes);
      textPool := new MemPool(texts);
      commentPool := new MemPool(comments);
      live := multiset{};
    }

    function Pool(k: PoolKind): MemPool {
      match k
      case ELEMENTS => elementPool
      case ATTRIBUTES => attributePool
      case TEXTS => textPool
      case COMMENTS => commentPool
    }

    ghost function Repr(): set<object> {
      {this, elementPool, attributePool, textPool, commentPool}
    }

    ghost predicate Valid()
      reads Repr()
    {
      elementPool != attributePool && elementPool != textPool && elementPool != commentPool &&
      attributePool != textPool && attributePool != commentPool && textPool != commentPool &&
      elementPool.Valid() && attributePool.Valid() && textPool.Valid() && commentPool.Valid() &&
      forall c: Chunk :: live[c] == if c.address in Pool(c.pool).live then 1 else 0
    }

    /** The live chunks, and `CurrentAllocs` of the four pools. */
    ghost function Books(): Ledger
      reads Repr()
    {
      Ledger(live, Tally(Pool(ELEMENTS).currentAllocs, Pool(ATTRIBUTES).currentAllocs, Pool(TEXTS).currentAllocs,
                         Pool(COMMENTS).currentAllocs))
    }

    /** A chunk of pool `k` for a new node or attribute. */
    method Alloc(k: PoolKind) returns (c: Chunk)
      requires Valid()
      modifies Repr()
      ensures Valid() && c.pool == k && c !in old(live) && Books() == Sum(old(Books()), Entry(c))
    {
      hide MemPool.Valid;
      var pool := Pool(k);
      var address := pool.Alloc();
      c := Chunk(k, address);
      live := live + multiset{c};
    }

    /** The chunk of a node or attribute goes back to its pool. */
    method Free(c: Chunk)
      requires Valid() && c in Books().bag
      modifies Repr()
      ensures Valid() && old(Books()) == Sum(Books(), Entry(c))
    {
      hide MemPool.Valid;
      assert c.address in Pool(c.pool).live;
      Pool(c.pool).Free(c.address);
      live := live - multiset{c};
      assert live + multiset{c} == old(live);
    }

    /** The loop of `~XMLElement` over the attribute list. */
    method FreeAll(chunks: seq<AttributeChunk>, ghost rest: Ledger)
      requires Valid() && Books() == Sum(rest, Entries(chunks))
      modifies Repr()
      ensures Valid() && Books() == rest
    {
      hide Valid, Books, Entries, Sum, Entry;
      var i := 0;
      assert chunks[0..] == chunks;
      while i < |chunks|
        invariant 0 <= i <= |chunks| && Valid() && Books() == Sum(rest, Entries(chunks[i..]))
      {
        EntriesFirst(chunks[i..]);
        assert chunks[i..][1..] == chunks[i + 1..];
        SumLaws(rest, Entries(chunks[i + 1..]), Entry(chunks[i]));
        EntryIn(Sum(rest, Entries(chunks[i + 1..])), chunks[i]);
        ghost var before := Books();
        Free(chunks[i]);
        SumCancel(Books(), Sum(rest, Entries(chunks[i + 1..])), Entry(chunks[i]));
        i := i + 1;
      }
      EntriesFirst(chunks[i..]);
      SumLaws(rest, EMPTY, EMPTY);
    }

    /** `DELETE_NODE`: the attributes, the children and then the node itself go back to their pools. */
    method DeleteNode(m: Memory, ghost rest: Ledger)
      requires Valid() && Books() == Sum(rest, Account(m))
      modifies Repr()
      ensures Valid() && Books() == rest
      decreases m, 1
    {
      hide Valid, Books, Entries, Sum, Entry, Account, AccountList;
      AccountIs(m);
      ghost var own, attributes, kids := Entry(m.own), Entries(m.attributes), AccountList(m.kids);
      Regroup(rest, own, attributes, kids);
      FreeAll(m.attributes, Sum(Sum(rest, own), kids));
      DeleteChildren(m.kids, Sum(rest, own));
      EntryIn(rest, m.own);
      Free(m.own);
      SumCancel(Books(), rest, own);
    }

    /** `XMLNode::DeleteChildren`. */
    method DeleteChildren(ms: seq<Memory>, ghost rest: Ledger)
      requires Valid() && Books() == Sum(rest, AccountList(ms))
      modifies Repr()
      ensures Valid() && Books() == rest
      decreases ms, 0
    {
      hide Valid, Books, Sum, Account, AccountList;
      var i := 0;
      assert ms[0..] == ms;
      while i < |ms|
        invariant 0 <= i <= |ms| && Valid() && Books() == Sum(rest, AccountList(ms[i..]))
      {
        AccountListIs(ms[i..]);
        assert ms[i..][1..] == ms[i + 1..];
        SumLaws(Account(ms[i]), AccountList(ms[i + 1..]), EMPTY);
        SumLaws(rest, AccountList(ms[i + 1..]), Account(ms[i]));
        DeleteNode(ms[i], Sum(rest, AccountList(ms[i + 1..])));
        i := i + 1;
      }
      AccountListIs(ms[i..]);
      SumLaws(rest, EMPTY, EMPTY);
    }
  }

  lemma Regroup(rest: Ledger, own: Ledger, attributes: Ledger, kids: Ledger)
    ensures Sum(rest, Sum(own, Sum(attributes, kids))) == Sum(Sum(Sum(rest, own), kids), attributes)
  {
  }

  lemma EntryIn(rest: Ledger, c: Chunk)
    ensures c in Sum(rest, Entry(c)).bag
  {
  }

  lemma EntriesFirst(chunks: seq<AttributeChunk>)
    ensures chunks == [] ==> Entries(chunks) == EMPTY
    ensures chunks != [] ==> Entries(chunks) == Sum(Entries(chunks[1..]), Entry(chunks[0]))
  {
    if chunks != [] {
      assert chunks == [chunks[0]] + chunks[1..];
    }
  }
}
