/** The random number generator and the in-place shuffle. */
module Shuffling {

  const MAX_RANGE := 0x8000_0000
  const INT_MAX := 0x7FFF_FFFF

  /** One step of the generator, in 32-bit unsigned arithmetic. */
  function Next(state: nat): (r: nat)
    ensures r < MAX_RANGE
  {
    (1103515245 * state + 12345) % 0x1_0000_0000 % MAX_RANGE
  }

  lemma RemainderIs(n: nat, q: nat, r: nat)
    requires n == 2147483648 * q + r && r < 2147483648
    ensures n % 2147483648 == r
  {
  }

  /** The wrap-around at 32 bits is lost in the reduction to 31. */
  lemma NextIs(state: nat)
    ensures Next(state) == (1103515245 * state + 12345) % 2147483648
  {
    var n := 1103515245 * state + 12345;
    var high, low := n / 0x1_0000_0000, n % 0x1_0000_0000;
    RemainderIs(n, 2 * high + low / 2147483648, low % 2147483648);
  }

  lemma NumberIs(state: nat, q: nat, next: nat)
    requires 1103515245 * state + 12345 == 2147483648 * q + next && next < 2147483648
    ensures Next(state) == next
  {
    hide Next;
    NextIs(state);
    RemainderIs(1103515245 * state + 12345, q, next);
  }

  /** The first numbers from seed 1: below ten they are 0, 5, 4, 1. */
  lemma FirstNumbers()
    ensures Next(1) == 1103527590 && Next(1103527590) == 377401575
    ensures Next(377401575) == 662824084 && Next(662824084) == 1147902781
  {
    hide Next;
    NumberIs(1, 0, 1103527590);
    NumberIs(1103527590, 567063465, 377401575);
    NumberIs(377401575, 193933207, 662824084);
    NumberIs(662824084, 340601653, 1147902781);
  }

  /** And four elements are shuffled by them in this way. */
  lemma ShuffleExample<T>(a: T, b: T, c: T, d: T)
    ensures Fisher([a, b, c, d], 0, 4, Drawn(1, 4)) == [b, d, a, c] && After(1, 4) == 662824084
  {
    hide Next, Fisher, Drawn, After;
    FirstNumbers();
    FisherStep([a, b, c, d], 0, 4, 1);
    assert [a, b, c, d][2 := d][3 := c] == [a, b, d, c];
    FisherStep([a, b, d, c], 0, 3, 1103527590);
    assert [a, b, d, c][0 := d][2 := a] == [d, b, a, c] && [d, b, a, c][0 := b][1 := d] == [b, d, a, c];
    FisherStep([d, b, a, c], 0, 2, 377401575);
    FisherEnd([b, d, a, c], 0, 1, 662824084);
  }

  class Random {
    var state: nat

    constructor (seed: nat)
      requires seed < 0x1_0000_0000
      ensures state == seed
    {
      state := seed;
    }

    method Reseed(seed: nat)
      requires seed < 0x1_0000_0000
      modifies this
      ensures state == seed
    {
      state := seed;
    }

    method Generate(range: nat) returns (r: nat)
      requires 0 < range <= MAX_RANGE
      modifies this
      ensures state == Next(old(state)) && r == state % range && r < range
      ensures state == (1103515245 * old(state) + 12345) % 2147483648
    {
      NextIs(state);
      state := (1103515245 * state + 12345) % 0x1_0000_0000 % MAX_RANGE;
      return state % range;
    }
  }

  // ----- The shuffle as a function of what is drawn -----

  function Swap<T>(v: seq<T>, i: nat, j: nat): seq<T>
    requires i < |v| && j < |v|
  {
    v[i := v[j]][j := v[i]]
  }

  /** One number is drawn for each width of the range down to two, below that width. */
  predicate Draws(draws: seq<nat>, width: nat) {
    |draws| == (if width < 2 then 0 else width - 1) && forall k :: 0 <= k < |draws| ==> draws[k] < width - k
  }

  function Fisher<T>(v: seq<T>, begin: nat, width: nat, draws: seq<nat>): (w: seq<T>)
    requires begin + width <= |v| && Draws(draws, width)
    ensures |w| == |v|
    decreases width
  {
    if width < 2 then v
    else Fisher(Swap(v, begin + draws[0], begin + width - 1), begin, width - 1, draws[1..])
  }

  /** What the generator draws from a state on. */
  function Drawn(state: nat, width: nat): (draws: seq<nat>)
    ensures Draws(draws, width)
    decreases width
  {
    if width < 2 then [] else [Next(state) % width] + Drawn(Next(state), width - 1)
  }

  /** The state that this leaves behind. */
  function After(state: nat, width: nat): nat
    decreases width
  {
    if width < 2 then state else After(Next(state), width - 1)
  }

  /** One draw and one swap. */
  lemma FisherStep<T>(v: seq<T>, begin: nat, width: nat, state: nat)
    requires 2 <= width && begin + width <= |v|
    ensures After(state, width) == After(Next(state), width - 1)
    ensures var i, last := begin + Next(state) % width, begin + width - 1;
      i <= last &&
      Fisher(v, begin, width, Drawn(state, width)) ==
        Fisher(v[i := v[last]][last := v[i]], begin, width - 1, Drawn(Next(state), width - 1))
  {
    hide Next;
    assert Drawn(state, width)[1..] == Drawn(Next(state), width - 1);
  }

  lemma FisherEnd<T>(v: seq<T>, begin: nat, width: nat, state: nat)
    requires width < 2 && begin + width <= |v|
    ensures After(state, width) == state && Fisher(v, begin, width, Drawn(state, width)) == v
  {
  }

  method ShuffleRange<T>(random: Random, begin: nat, end: nat, v: seq<T>) returns (w: seq<T>)
    requires begin <= end <= |v| <= INT_MAX
    modifies random
    ensures w == Fisher(v, begin, end - begin, Drawn(old(random.state), end - begin))
    ensures random.state == After(old(random.state), end - begin)
  {
    hide Fisher, Drawn, After;
    w := v;
    var rangeWidth := end - begin;
    while rangeWidth >= 2
      invariant 0 <= rangeWidth <= end - begin && |w| == |v|
      invariant After(random.state, rangeWidth) == After(old(random.state), end - begin)
      invariant Fisher(w, begin, rangeWidth, Drawn(random.state, rangeWidth)) ==
                Fisher(v, begin, end - begin, Drawn(old(random.state), end - begin))
    {
      var lastInRange := begin + rangeWidth - 1;
      FisherStep(w, begin, rangeWidth, random.state);
      var draw := random.Generate(rangeWidth);
      var selected := begin + draw;
      w := w[selected := w[lastInRange]][lastInRange := w[selected]];
      rangeWidth := rangeWidth - 1;
    }
    FisherEnd(w, begin, rangeWidth, random.state);
  }

  // ----- It reaches every order of the range in exactly one way, and nothing else -----

  ghost predicate Distinct<T>(v: seq<T>) {
    forall i, j :: 0 <= i < j < |v| ==> v[i] != v[j]
  }

  lemma Swapped<T>(v: seq<T>, i: nat, j: nat)
    requires i < |v| && j < |v|
    ensures |Swap(v, i, j)| == |v| && multiset(Swap(v, i, j)) == multiset(v) && Swap(v, i, j)[j] == v[i]
    ensures forall k :: 0 <= k < |v| && k != i && k != j ==> Swap(v, i, j)[k] == v[k]
    ensures Distinct(v) ==> Distinct(Swap(v, i, j))
  {
  }

  /** Outside the range nothing moves; all in all the elements stay the same. */
  lemma {:induction false} FisherPermutes<T>(v: seq<T>, begin: nat, width: nat, draws: seq<nat>)
    requires begin + width <= |v| && Draws(draws, width)
    ensures multiset(Fisher(v, begin, width, draws)) == multiset(v)
    ensures forall i :: 0 <= i < begin || begin + width <= i < |v| ==> Fisher(v, begin, width, draws)[i] == v[i]
    decreases width
  {
    if width >= 2 {
      Swapped(v, begin + draws[0], begin + width - 1);
      FisherPermutes(Swap(v, begin + draws[0], begin + width - 1), begin, width - 1, draws[1..]);
    }
  }

  /** The first draw decides what goes last. */
  lemma FisherFirst<T>(v: seq<T>, begin: nat, width: nat, draws: seq<nat>)
    requires begin + width <= |v| && Draws(draws, width) && width >= 2
    ensures Draws(draws[1..], width - 1)
    ensures Fisher(v, begin, width, draws) ==
      Fisher(Swap(v, begin + draws[0], begin + width - 1), begin, width - 1, draws[1..])
    ensures Fisher(v, begin, width, draws)[begin + width - 1] == v[begin + draws[0]]
  {
    var u := Swap(v, begin + draws[0], begin + width - 1);
    Swapped(v, begin + draws[0], begin + width - 1);
    FisherPermutes(u, begin, width - 1, draws[1..]);
  }

  lemma Cancel<T>(a: multiset<T>, x: multiset<T>, y: multiset<T>, b: multiset<T>)
    requires a + x + b == a + y + b
    ensures x == y
  {
    forall e: T ensures x[e] == y[e] {
      assert (a + x + b)[e] == a[e] + x[e] + b[e] && (a + y + b)[e] == a[e] + y[e] + b[e];
    }
  }

  /** Sequences that agree outside a range and hold the same elements hold the same elements in the range. */
  lemma RangePermutes<T>(v: seq<T>, w: seq<T>, begin: nat, end: nat)
    requires begin <= end <= |v| == |w| && multiset(v) == multiset(w)
    requires forall i :: 0 <= i < begin || end <= i < |v| ==> v[i] == w[i]
    ensures multiset(v[begin..end]) == multiset(w[begin..end])
  {
    assert v == v[..begin] + v[begin..end] + v[end..] && w == w[..begin] + w[begin..end] + w[end..];
    assert v[..begin] == w[..begin] && v[end..] == w[end..];
    Cancel(multiset(v[..begin]), multiset(v[begin..end]), multiset(w[begin..end]), multiset(v[end..]));
  }

  /** Different draws give different orders. */
  lemma {:induction false} FisherInjective<T>(v: seq<T>, begin: nat, width: nat, c: seq<nat>, d: seq<nat>)
    requires begin + width <= |v| && Draws(c, width) && Draws(d, width) && Distinct(v)
    requires Fisher(v, begin, width, c) == Fisher(v, begin, width, d)
    ensures c == d
    decreases width
  {
    if width >= 2 {
      hide Swap, Fisher;
      FisherFirst(v, begin, width, c);
      FisherFirst(v, begin, width, d);
      assert c[0] == d[0];
      Swapped(v, begin + c[0], begin + width - 1);
      FisherInjective(Swap(v, begin + c[0], begin + width - 1), begin, width - 1, c[1..], d[1..]);
      assert c == [c[0]] + c[1..] && d == [d[0]] + d[1..];
    }
  }

  /** Every order of the range is reached by some draws. */
  lemma {:induction false} FisherOnto<T>(v: seq<T>, w: seq<T>, begin: nat, width: nat) returns (draws: seq<nat>)
    requires begin + width <= |v| == |w| && multiset(v) == multiset(w)
    requires forall i :: 0 <= i < begin || begin + width <= i < |v| ==> v[i] == w[i]
    ensures Draws(draws, width) && Fisher(v, begin, width, draws) == w
    decreases width
  {
    hide Swap, Fisher;
    RangePermutes(v, w, begin, begin + width);
    if width < 2 {
      draws := [];
      NothingToDraw(v, w, begin, width);
    } else {
      var last := begin + width - 1;
      var draw := Find(v[begin..begin + width], w[begin..begin + width], width - 1);
      var u := Swap(v, begin + draw, last);
      Swapped(v, begin + draw, last);
      assert u[last] == w[last];
      var rest := FisherOnto(u, w, begin, width - 1);
      draws := [draw] + rest;
      assert draws[1..] == rest;
      FisherFirst(v, begin, width, draws);
    }
  }

  lemma NothingToDraw<T>(v: seq<T>, w: seq<T>, begin: nat, width: nat)
    requires begin + width <= |v| == |w| && width < 2
    requires multiset(v[begin..begin + width]) == multiset(w[begin..begin + width])
    requires forall i :: 0 <= i < begin || begin + width <= i < |v| ==> v[i] == w[i]
    ensures Fisher(v, begin, width, []) == w
  {
    if width == 1 {
      var i := Find(v[begin..begin + 1], w[begin..begin + 1], 0);
    }
  }

  lemma Find<T>(v: seq<T>, w: seq<T>, k: nat) returns (i: nat)
    requires multiset(v) == multiset(w) && k < |w|
    ensures i < |v| && v[i] == w[k]
  {
    assert w[k] in multiset(w);
    i :| i < |v| && v[i] == w[k];
  }
}
