/** What the scripts of `EditDistance` achieve: they turn left into right, at the cost in the table. */
module EditScripts {
  import opened Options
  import opened EditDistance

  // ----- Every script read back from the table is valid -----

  /** The front of a side, without what the last edit of a script consumes. */
  function LeftFront<T>(e: EditType, left: seq<T>): seq<T>
    requires e == Add || left != []
  {
    if e == Add then left else left[..|left| - 1]
  }

  function RightFront<T>(e: EditType, right: seq<T>): seq<T>
    requires e == Remove || right != []
  {
    if e == Remove then right else right[..|right| - 1]
  }

  /** What the last edit of a script writes. */
  function LastOutput<T>(e: EditType, left: seq<T>, right: seq<T>): seq<T>
    requires (e == Add || left != []) && (e == Remove || right != [])
  {
    match e
    case Match => [left[|left| - 1]]
    case Remove => []
    case _ => [right[|right| - 1]]
  }

  lemma ReplayOne<T>(e: EditType, left: seq<T>, right: seq<T>)
    requires Fits(e, left, right)
    ensures Replay([e], left, right) ==
      if LeftAfter(e, left) == [] && RightAfter(e, right) == [] then Some(Output(e, left, right)) else None
  {
    assert [e][1..] == [];
    assert Output(e, left, right) + [] == Output(e, left, right);
  }

  lemma ReplayStep<T>(edits: seq<EditType>, left: seq<T>, right: seq<T>)
    requires edits != []
    ensures Replay(edits, left, right).Some? <==>
      Fits(edits[0], left, right) && Replay(edits[1..], LeftAfter(edits[0], left), RightAfter(edits[0], right)).Some?
    ensures Replay(edits, left, right).Some? ==>
      Replay(edits, left, right).value ==
      Output(edits[0], left, right) + Replay(edits[1..], LeftAfter(edits[0], left), RightAfter(edits[0], right)).value
  {
  }

  /** A script may equally be taken apart from its end. */
  lemma {:induction false} ReplayLast<T>(edits: seq<EditType>, e: EditType, left: seq<T>, right: seq<T>)
    ensures Replay(edits + [e], left, right).Some? <==>
      Fits(e, left, right) && Replay(edits, LeftFront(e, left), RightFront(e, right)).Some?
    ensures Replay(edits + [e], left, right).Some? ==>
      Replay(edits + [e], left, right).value ==
      Replay(edits, LeftFront(e, left), RightFront(e, right)).value + LastOutput(e, left, right)
  {
    var all := edits + [e];
    if edits == [] {
      assert all == [e];
      if Fits(e, left, right) {
        ReplayOne(e, left, right);
        assert Replay([], LeftFront(e, left), RightFront(e, right)).Some? ==>
          [] + LastOutput(e, left, right) == Output(e, left, right);
      }
    } else {
      hide Replay;
      var f := edits[0];
      assert all[0] == f && all[1..] == edits[1..] + [e];
      ReplayStep(all, left, right);
      Fronts(e, f, left, right);
      if Fits(f, left, right) {
        ReplayLast(edits[1..], e, LeftAfter(f, left), RightAfter(f, right));
      }
      if Fits(e, left, right) {
        ReplayStep(edits, LeftFront(e, left), RightFront(e, right));
        assert Replay(edits, LeftFront(e, left), RightFront(e, right)).Some? ==>
          Replay(all, left, right).value ==
            Replay(edits, LeftFront(e, left), RightFront(e, right)).value + LastOutput(e, left, right);
      }
    }
  }

  lemma BothEnds<T>(s: seq<T>)
    requires 2 <= |s|
    ensures s[1..][..|s| - 2] == s[..|s| - 1][1..]
    ensures s[1..][|s| - 2] == s[|s| - 1] && s[..|s| - 1][0] == s[0]
  {
  }

  /** One edit at each end: it does not matter which is taken off first. */
  lemma Fronts<T>(e: EditType, f: EditType, left: seq<T>, right: seq<T>)
    ensures Fits(f, left, right) && Fits(e, LeftAfter(f, left), RightAfter(f, right)) <==>
            Fits(e, left, right) && Fits(f, LeftFront(e, left), RightFront(e, right))
    ensures Fits(f, left, right) && Fits(e, LeftAfter(f, left), RightAfter(f, right)) ==>
      LeftAfter(f, LeftFront(e, left)) == LeftFront(e, LeftAfter(f, left)) &&
      RightAfter(f, RightFront(e, right)) == RightFront(e, RightAfter(f, right)) &&
      Output(f, LeftFront(e, left), RightFront(e, right)) == Output(f, left, right) &&
      LastOutput(e, LeftAfter(f, left), RightAfter(f, right)) == LastOutput(e, left, right)
  {
    if Fits(f, left, right) && Fits(e, LeftAfter(f, left), RightAfter(f, right)) {
      if e != Add && f != Add {
        BothEnds(left);
      }
      if e != Remove && f != Remove {
        BothEnds(right);
      }
    }
  }

  /** Replaying the script of a cell turns the prefix of `left` into the prefix of `right`. */
  lemma {:induction false} ScriptReplays<T>(left: seq<T>, right: seq<T>, i: nat, j: nat)
    requires i <= |left| && j <= |right|
    ensures Replay(Script(left, right, i, j), left[..i], right[..j]) == Some(right[..j])
    decreases i + j
  {
    if i + j > 0 {
      hide Move;
      BorderMoves(left, right, i, j);
      var move := Move(left, right, i, j);
      var i', j' := if move == Add then i else i - 1, if move == Remove then j else j - 1;
      ScriptReplays(left, right, i', j');
      OneMore(Script(left, right, i', j'), move, left, right, i, j);
    }
  }

  /** A script between prefixes, and one more edit. */
  lemma OneMore<T>(edits: seq<EditType>, e: EditType, left: seq<T>, right: seq<T>, i: nat, j: nat)
    requires i <= |left| && j <= |right| && (e == Add || i > 0) && (e == Remove || j > 0)
    ensures Replay(edits + [e], left[..i], right[..j]) == Some(right[..j]) <==>
      Replay(edits, left[..if e == Add then i else i - 1], right[..if e == Remove then j else j - 1]) ==
      Some(right[..if e == Remove then j else j - 1]) && (e == Match ==> left[i - 1] == right[j - 1])
  {
    hide Replay;
    ReplayLast(edits, e, left[..i], right[..j]);
    assert LeftFront(e, left[..i]) == left[..if e == Add then i else i - 1];
    assert RightFront(e, right[..j]) == right[..if e == Remove then j else j - 1];
    if Fits(e, left[..i], right[..j]) && Replay(edits, LeftFront(e, left[..i]), RightFront(e, right[..j])).Some? {
      var before := Replay(edits, LeftFront(e, left[..i]), RightFront(e, right[..j])).value;
      if e == Remove {
        assert before + [] == before;
      } else {
        SnocEquals(before, LastOutput(e, left[..i], right[..j])[0], right[..j - 1], right[j - 1]);
        assert right[..j] == right[..j - 1] + [right[j - 1]];
      }
    }
  }

  lemma SnocEquals<T>(s: seq<T>, x: T, t: seq<T>, y: T)
    ensures s + [x] == t + [y] <==> s == t && x == y
  {
    if s + [x] == t + [y] {
      assert (s + [x])[|s|] == x && (t + [y])[|t|] == y;
      assert (s + [x])[..|s|] == s && (t + [y])[..|t|] == t;
    }
  }

  /** Moves never leave the table, and a match is a match. */
  lemma BorderMoves<T>(left: seq<T>, right: seq<T>, i: nat, j: nat)
    requires i <= |left| && j <= |right| && i + j > 0
    ensures Move(left, right, i, j) != Add ==> i > 0
    ensures Move(left, right, i, j) != Remove ==> j > 0
    ensures Move(left, right, i, j) == Match <==> i > 0 && j > 0 && left[i - 1] == right[j - 1]
  {
  }

  /** Each cell is the exact price of the script read back from it. */
  lemma {:induction false} ScriptCost<T>(left: seq<T>, right: seq<T>, i: nat, j: nat)
    requires i <= |left| && j <= |right|
    ensures PathCost(Script(left, right, i, j)) == Cost(left, right, i, j)
    decreases i + j
  {
    if i + j > 0 {
      var move := Move(left, right, i, j);
      var i', j' := if move == Add then i else i - 1, if move == Remove then j else j - 1;
      ScriptCost(left, right, i', j');
      var script := Script(left, right, i, j);
      assert script[..|script| - 1] == Script(left, right, i', j') && script[|script| - 1] == move;
    }
  }

  // ----- What the cells say about the prefixes -----

  /** No cell costs more than replacing the shorter prefix throughout and adding or removing the rest. */
  lemma {:induction false} CostBound<T>(left: seq<T>, right: seq<T>, i: nat, j: nat)
    requires i <= |left| && j <= |right|
    ensures Cost(left, right, i, j) <=
      if i <= j then i * REPLACE_STEP + (j - i) * STEP else j * REPLACE_STEP + (i - j) * STEP
    decreases i + j
  {
    if i > 0 && j > 0 {
      CostBound(left, right, i - 1, j - 1);
    }
  }

  /** A cell is free exactly when its prefixes are equal. */
  lemma {:induction false} FreeIff<T>(left: seq<T>, right: seq<T>, i: nat, j: nat)
    requires i <= |left| && j <= |right|
    ensures Cost(left, right, i, j) == 0 <==> left[..i] == right[..j]
    decreases i + j
  {
    if i > 0 && j > 0 {
      FreeIff(left, right, i - 1, j - 1);
      assert left[..i] == left[..i - 1] + [left[i - 1]] && right[..j] == right[..j - 1] + [right[j - 1]];
      assert left[..i][i - 1] == left[i - 1] && right[..j][j - 1] == right[j - 1];
      if left[..i] == right[..j] {
        assert left[..i - 1] == left[..i][..i - 1] && right[..j - 1] == right[..j][..j - 1];
      }
    }
  }

  // ----- How good the scripts are -----

  /** The least price of a script between two prefixes. */
  function Least<T(==)>(left: seq<T>, right: seq<T>, i: nat, j: nat): nat
    requires i <= |left| && j <= |right|
    decreases i + j
  {
    if j == 0 then i * STEP
    else if i == 0 then j * STEP
    else
      var add, remove, diagonal :=
        Least(left, right, i, j - 1) + STEP, Least(left, right, i - 1, j) + STEP, Least(left, right, i - 1, j - 1) +
        if left[i - 1] == right[j - 1] then 0 else REPLACE_STEP;
      if add <= remove && add <= diagonal then add else if remove <= diagonal then remove else diagonal
  }

  /** Dropping one element from a prefix changes the least price by one step at most. */
  lemma LeastIs<T>(left: seq<T>, right: seq<T>, i: nat, j: nat)
    requires 0 < i <= |left| && 0 < j <= |right|
    ensures var add, remove, diagonal :=
        Least(left, right, i, j - 1) + STEP, Least(left, right, i - 1, j) + STEP, Least(left, right, i - 1, j - 1) +
        if left[i - 1] == right[j - 1] then 0 else REPLACE_STEP;
      var least := Least(left, right, i, j);
      least <= add && least <= remove && least <= diagonal && (least == add || least == remove || least == diagonal)
  {
  }

  /** One line more costs one step at most. */
  lemma LeastMore<T>(left: seq<T>, right: seq<T>, i: nat, j: nat)
    requires i <= |left| && j <= |right|
    ensures i > 0 ==> Least(left, right, i, j) <= Least(left, right, i - 1, j) + STEP
    ensures j > 0 ==> Least(left, right, i, j) <= Least(left, right, i, j - 1) + STEP
  {
  }

  lemma LeastBorder<T>(left: seq<T>, right: seq<T>, i: nat, j: nat)
    requires i <= |left| && j <= |right| && (i == 0 || j == 0)
    ensures Least(left, right, i, j) == (i + j) * STEP
    ensures i > 0 ==> Least(left, right, i - 1, j) == (i + j - 1) * STEP
    ensures j > 0 ==> Least(left, right, i, j - 1) == (i + j - 1) * STEP
  {
  }

  lemma {:induction false} LeastNeighbours<T>(left: seq<T>, right: seq<T>, i: nat, j: nat)
    requires i <= |left| && j <= |right|
    ensures i > 0 ==> Least(left, right, i - 1, j) <= Least(left, right, i, j) + STEP
    ensures j > 0 ==> Least(left, right, i, j - 1) <= Least(left, right, i, j) + STEP
    decreases i + j
  {
    hide Least;
    if i > 0 && j > 0 {
      LeastNeighbours(left, right, i - 1, j);
      LeastNeighbours(left, right, i, j - 1);
      LeastIs(left, right, i, j);
      LeastMore(left, right, i - 1, j);
      LeastMore(left, right, i, j - 1);
    } else {
      LeastBorder(left, right, i, j);
    }
  }

  /** Equal last elements cost nothing: matching them is never worse than anything else. */
  lemma LeastMatch<T>(left: seq<T>, right: seq<T>, i: nat, j: nat)
    requires 0 < i <= |left| && 0 < j <= |right| && left[i - 1] == right[j - 1]
    ensures Least(left, right, i, j) == Least(left, right, i - 1, j - 1)
  {
    LeastNeighbours(left, right, i - 1, j);
    LeastNeighbours(left, right, i, j - 1);
  }

  lemma NothingReplayed<T>(left: seq<T>, right: seq<T>)
    requires Replay([], left, right).Some?
    ensures left == [] && right == []
  {
  }

  lemma LeastOfNothing<T>(left: seq<T>, right: seq<T>, i: nat, j: nat)
    requires i <= |left| && j <= |right| && left[..i] == [] && right[..j] == []
    ensures Least(left, right, i, j) == 0
  {
    assert |left[..i]| == i && |right[..j]| == j;
  }

  /** One more edit costs its price at most. */
  lemma LeastStep<T>(left: seq<T>, right: seq<T>, i: nat, j: nat, e: EditType)
    requires i <= |left| && j <= |right| && (e == Add || i > 0) && (e == Remove || j > 0)
    requires e == Match ==> left[i - 1] == right[j - 1]
    ensures Least(left, right, i, j) <=
      Least(left, right, if e == Add then i else i - 1, if e == Remove then j else j - 1) + Price(e)
  {
    LeastNeighbours(left, right, i, j);
  }

  /** No script between the two prefixes is cheaper. */
  lemma {:induction false} LeastBelow<T>(left: seq<T>, right: seq<T>, i: nat, j: nat, edits: seq<EditType>)
    requires i <= |left| && j <= |right|
    requires Replay(edits, left[..i], right[..j]) == Some(right[..j])
    ensures Least(left, right, i, j) <= PathCost(edits)
    decreases |edits|
  {
    hide Replay, Least;
    if edits == [] {
      NothingReplayed(left[..i], right[..j]);
      LeastOfNothing(left, right, i, j);
    } else {
      var n := |edits| - 1;
      var e := edits[n];
      assert edits == edits[..n] + [e];
      ReplayLast(edits[..n], e, left[..i], right[..j]);
      LeastStep(left, right, i, j, e);
      OneMore(edits[..n], e, left, right, i, j);
      LeastBelow(left, right, if e == Add then i else i - 1, if e == Remove then j else j - 1, edits[..n]);
    }
  }

  /** A script of the least price, and that it is one. */
  lemma {:induction false} LeastAttained<T>(left: seq<T>, right: seq<T>, i: nat, j: nat) returns (edits: seq<EditType>)
    requires i <= |left| && j <= |right|
    ensures Replay(edits, left[..i], right[..j]) == Some(right[..j]) && PathCost(edits) == Least(left, right, i, j)
    decreases i + j
  {
    if i + j == 0 {
      edits := [];
    } else {
      var e := LeastMove(left, right, i, j);
      var before := LeastAttained(left, right, if e == Add then i else i - 1, if e == Remove then j else j - 1);
      OneMore(before, e, left, right, i, j);
      edits := before + [e];
      assert edits[..|edits| - 1] == before;
    }
  }

  lemma LeastMove<T>(left: seq<T>, right: seq<T>, i: nat, j: nat) returns (e: EditType)
    requires i <= |left| && j <= |right| && i + j > 0
    ensures e != Add ==> i > 0
    ensures e != Remove ==> j > 0
    ensures e == Match ==> left[i - 1] == right[j - 1]
    ensures Least(left, right, i, j) ==
      Least(left, right, if e == Add then i else i - 1, if e == Remove then j else j - 1) + Price(e)
  {
    if j == 0 {
      e := Remove;
    } else if i == 0 {
      e := Add;
    } else if Least(left, right, i, j) == Least(left, right, i, j - 1) + STEP {
      e := Add;
    } else if Least(left, right, i, j) == Least(left, right, i - 1, j) + STEP {
      e := Remove;
    } else if left[i - 1] == right[j - 1] {
      e := Match;
    } else {
      e := Replace;
    }
  }

  /** The cells where the table takes the replacement although adding or removing is cheaper: both cost the same
      there, so neither is strictly below the other. */
  predicate Overlooked<T(==)>(left: seq<T>, right: seq<T>, i: nat, j: nat)
    requires 0 < i <= |left| && 0 < j <= |right|
  {
    Move(left, right, i, j) == Replace &&
    (Cost(left, right, i, j - 1) <= Cost(left, right, i - 1, j - 1) ||
     Cost(left, right, i - 1, j) <= Cost(left, right, i - 1, j - 1))
  }

  ghost predicate HoldsLeast<T>(left: seq<T>, right: seq<T>) {
    forall i: nat, j: nat :: i <= |left| && j <= |right| ==> Cost(left, right, i, j) == Least(left, right, i, j)
  }

  ghost predicate OverlooksNone<T>(left: seq<T>, right: seq<T>) {
    forall i: nat, j: nat :: 0 < i <= |left| && 0 < j <= |right| ==> !Overlooked(left, right, i, j)
  }

  /** The whole table holds least prices exactly when it overlooks no cell. */
  lemma LeastEverywhereIff<T>(left: seq<T>, right: seq<T>)
    ensures HoldsLeast(left, right) <==> OverlooksNone(left, right)
  {
    if HoldsLeast(left, right) {
      forall i: nat, j: nat | 0 < i <= |left| && 0 < j <= |right| ensures !Overlooked(left, right, i, j) {
        OverlookedIsDearer(left, right, i, j);
      }
    }
    if OverlooksNone(left, right) {
      forall i: nat, j: nat | i <= |left| && j <= |right| ensures Cost(left, right, i, j) == Least(left, right, i, j) {
        LeastUnlessOverlooked(left, right, i, j);
      }
    }
  }

  lemma OverlookedIsDearer<T>(left: seq<T>, right: seq<T>, i: nat, j: nat)
    requires 0 < i <= |left| && 0 < j <= |right|
    requires Cost(left, right, i, j - 1) == Least(left, right, i, j - 1)
    requires Cost(left, right, i - 1, j) == Least(left, right, i - 1, j)
    ensures Overlooked(left, right, i, j) ==> Least(left, right, i, j) < Cost(left, right, i, j)
  {
  }

  /** The step at one cell whose neighbours hold their least prices. */
  lemma LeastHere<T>(left: seq<T>, right: seq<T>, i: nat, j: nat)
    requires 0 < i <= |left| && 0 < j <= |right| && !Overlooked(left, right, i, j)
    requires Cost(left, right, i - 1, j - 1) == Least(left, right, i - 1, j - 1)
    requires Cost(left, right, i - 1, j) == Least(left, right, i - 1, j)
    requires Cost(left, right, i, j - 1) == Least(left, right, i, j - 1)
    ensures Cost(left, right, i, j) == Least(left, right, i, j)
  {
    hide Least;
    LeastIs(left, right, i, j);
    if left[i - 1] == right[j - 1] {
      LeastMatch(left, right, i, j);
    }
  }

  lemma {:induction false} LeastUnlessOverlooked<T>(left: seq<T>, right: seq<T>, i: nat, j: nat)
    requires i <= |left| && j <= |right|
    requires OverlooksNone(left, right)
    ensures Cost(left, right, i, j) == Least(left, right, i, j)
    decreases i + j
  {
    if i > 0 && j > 0 {
      LeastUnlessOverlooked(left, right, i - 1, j - 1);
      LeastUnlessOverlooked(left, right, i - 1, j);
      LeastUnlessOverlooked(left, right, i, j - 1);
      LeastHere(left, right, i, j);
    }
  }

  /** A table that overlooks no cell gives a script that no other script undercuts. */
  lemma CheapestIf<T>(left: seq<T>, right: seq<T>, edits: seq<EditType>)
    requires OverlooksNone(left, right) && Replay(edits, left, right) == Some(right)
    ensures PathCost(Script(left, right, |left|, |right|)) <= PathCost(edits)
  {
    hide Cost, Least, Script, PathCost, Replay, OverlooksNone;
    var i, j := |left|, |right|;
    assert left[..i] == left && right[..j] == right;
    LeastUnlessOverlooked(left, right, i, j);
    ScriptCost(left, right, i, j);
    LeastBelow(left, right, i, j, edits);
  }

  // ----- When the script returned is the cheapest -----

  /** The move taken at a cell begins a cheapest way back: none of the three neighbours is a cheaper one.
      Equal elements are always matched for nothing. */
  predicate Tight<T(==)>(left: seq<T>, right: seq<T>, i: nat, j: nat)
    requires 0 < i <= |left| && 0 < j <= |right|
  {
    left[i - 1] == right[j - 1] ||
    var move := Move(left, right, i, j);
    var taken := Price(move) +
      Least(left, right, if move == Add then i else i - 1, if move == Remove then j else j - 1);
    taken <= Least(left, right, i, j - 1) + STEP && taken <= Least(left, right, i - 1, j) + STEP &&
    taken <= Least(left, right, i - 1, j - 1) + REPLACE_STEP
  }

  /** Every cell that the walk back from `i`, `j` visits inside the table is tight. */
  predicate TightPath<T(==)>(left: seq<T>, right: seq<T>, i: nat, j: nat)
    requires i <= |left| && j <= |right|
    decreases i + j
  {
    i == 0 || j == 0 ||
    var move := Move(left, right, i, j);
    Tight(left, right, i, j) &&
    TightPath(left, right, if move == Add then i else i - 1, if move == Remove then j else j - 1)
  }

  lemma {:induction false} LeastIsLeast<T>(left: seq<T>, right: seq<T>, i: nat, j: nat)
    requires i <= |left| && j <= |right|
    ensures Least(left, right, i, j) <= Cost(left, right, i, j)
    decreases i + j
  {
    if i > 0 && j > 0 {
      LeastIsLeast(left, right, i - 1, j - 1);
      LeastIsLeast(left, right, i - 1, j);
      LeastIsLeast(left, right, i, j - 1);
    }
  }

  /** A cell holds its least price exactly when the walk back from it visits tight cells only. */
  lemma CostStep<T>(left: seq<T>, right: seq<T>, i: nat, j: nat)
    requires 0 < i <= |left| && 0 < j <= |right|
    ensures var move := Move(left, right, i, j);
      Cost(left, right, i, j) ==
        Price(move) + Cost(left, right, if move == Add then i else i - 1, if move == Remove then j else j - 1)
  {
  }

  lemma TightStep<T>(left: seq<T>, right: seq<T>, i: nat, j: nat)
    requires 0 < i <= |left| && 0 < j <= |right|
    ensures var move := Move(left, right, i, j);
      var taken := Price(move) +
        Least(left, right, if move == Add then i else i - 1, if move == Remove then j else j - 1);
      Least(left, right, i, j) <= taken && (Least(left, right, i, j) == taken <==> Tight(left, right, i, j))
  {
    hide Cost, Least;
    LeastIs(left, right, i, j);
    if left[i - 1] == right[j - 1] {
      LeastMatch(left, right, i, j);
    }
  }

  lemma {:induction false} TightPathIff<T>(left: seq<T>, right: seq<T>, i: nat, j: nat)
    requires i <= |left| && j <= |right|
    ensures Cost(left, right, i, j) == Least(left, right, i, j) <==> TightPath(left, right, i, j)
    decreases i + j
  {
    if i > 0 && j > 0 {
      hide Cost, Least, Move, Tight;
      var move := Move(left, right, i, j);
      var i', j' := if move == Add then i else i - 1, if move == Remove then j else j - 1;
      LeastIsLeast(left, right, i', j');
      TightPathIff(left, right, i', j');
      CostStep(left, right, i, j);
      TightStep(left, right, i, j);
    }
  }

  ghost predicate Undercut<T>(left: seq<T>, right: seq<T>) {
    exists edits: seq<EditType> ::
      Replay(edits, left, right) == Some(right) && PathCost(edits) < PathCost(Script(left, right, |left|, |right|))
  }

  /** No script undercuts the one returned exactly when the walk back visits tight cells only. */
  lemma CheapestIff<T>(left: seq<T>, right: seq<T>)
    ensures !Undercut(left, right) <==> TightPath(left, right, |left|, |right|)
  {
    hide Cost, Least, Script, PathCost, Replay, TightPath;
    var i, j := |left|, |right|;
    assert left[..i] == left && right[..j] == right;
    ScriptCost(left, right, i, j);
    TightPathIff(left, right, i, j);
    LeastIsLeast(left, right, i, j);
    var best := LeastAttained(left, right, i, j);
    if Undercut(left, right) {
      var edits: seq<EditType> :|
        Replay(edits, left, right) == Some(right) && PathCost(edits) < PathCost(Script(left, right, |left|, |right|));
      LeastBelow(left, right, i, j, edits);
    }
  }

  /** Among neighbours that hold their least prices, the cells that are not tight are the overlooked ones. */
  lemma TightIff<T>(left: seq<T>, right: seq<T>, i: nat, j: nat)
    requires 0 < i <= |left| && 0 < j <= |right|
    requires Cost(left, right, i, j - 1) == Least(left, right, i, j - 1)
    requires Cost(left, right, i - 1, j) == Least(left, right, i - 1, j)
    requires Cost(left, right, i - 1, j - 1) == Least(left, right, i - 1, j - 1)
    ensures Tight(left, right, i, j) <==> !Overlooked(left, right, i, j)
  {
    hide Cost, Least;
  }

  /** The walk back from `i`, `j` visits the cell `a`, `b` inside the table. */
  predicate OnPath<T(==)>(left: seq<T>, right: seq<T>, i: nat, j: nat, a: nat, b: nat)
    requires i <= |left| && j <= |right|
    decreases i + j
  {
    i > 0 && j > 0 &&
    ((a == i && b == j) ||
     var move := Move(left, right, i, j);
     OnPath(left, right, if move == Add then i else i - 1, if move == Remove then j else j - 1, a, b))
  }

  /** A neighbour of the cell is dearer than its least price. */
  predicate DearNeighbour<T(==)>(left: seq<T>, right: seq<T>, i: nat, j: nat)
    requires 0 < i <= |left| && 0 < j <= |right|
  {
    Cost(left, right, i, j - 1) > Least(left, right, i, j - 1) ||
    Cost(left, right, i - 1, j) > Least(left, right, i - 1, j) ||
    Cost(left, right, i - 1, j - 1) > Least(left, right, i - 1, j - 1)
  }

  lemma {:induction false} LooseCell<T>(left: seq<T>, right: seq<T>, i: nat, j: nat) returns (a: nat, b: nat)
    requires i <= |left| && j <= |right| && !TightPath(left, right, i, j)
    ensures 0 < a <= |left| && 0 < b <= |right| && OnPath(left, right, i, j, a, b) && !Tight(left, right, a, b)
    ensures Overlooked(left, right, a, b) || DearNeighbour(left, right, a, b)
    decreases i + j
  {
    hide Cost, Least, Tight, Overlooked;
    var move := Move(left, right, i, j);
    if Tight(left, right, i, j) {
      a, b := LooseCell(left, right, if move == Add then i else i - 1, if move == Remove then j else j - 1);
    } else {
      a, b := i, j;
      LeastIsLeast(left, right, i, j - 1);
      LeastIsLeast(left, right, i - 1, j);
      LeastIsLeast(left, right, i - 1, j - 1);
      if !DearNeighbour(left, right, i, j) {
        TightIff(left, right, i, j);
      }
    }
  }

  /** If a script undercuts the one returned, the walk back visits a cell that is overlooked or beside a
      dear one. */
  lemma UndercutCell<T>(left: seq<T>, right: seq<T>) returns (i: nat, j: nat)
    requires Undercut(left, right)
    ensures 0 < i <= |left| && 0 < j <= |right| && OnPath(left, right, |left|, |right|, i, j)
    ensures Overlooked(left, right, i, j) || DearNeighbour(left, right, i, j)
  {
    hide Undercut, TightPath, Tight;
    CheapestIff(left, right);
    i, j := LooseCell(left, right, |left|, |right|);
  }

  /** The script is not always the cheapest: two replacements are chosen where a removal and an addition do. */
  lemma NotTheCheapest()
    ensures Cost([0, 1], [1, 0], 2, 2) == 2 * REPLACE_STEP
    ensures Replay([Remove, Match, Add], [0, 1], [1, 0]) == Some([1, 0])
    ensures PathCost([Remove, Match, Add]) == 2 * STEP
    ensures 2 * REPLACE_STEP == 200002 && 2 * STEP == 200000
  {
    var l, r := [0, 1], [1, 0];
    assert Cost(l, r, 1, 1) == REPLACE_STEP;
    assert Cost(l, r, 1, 2) == STEP && Cost(l, r, 2, 1) == STEP;
    assert [Remove, Match, Add][1..] == [Match, Add] && [Match, Add][1..] == [Add];
    assert [Remove, Match, Add][..2] == [Remove, Match] && [Remove, Match][..1] == [Remove];
    assert l[1..] == [1] && r[1..] == [0] && l[1..][1..] == [];
    ReplayOne(Add, [], [0]);
    assert Output(Match, [1], r) + [0] == r;
    assert Output(Remove, l, r) + r == r;
  }

  /** One line is added, removed or replaced, and where an addition and a removal cost the same, lines are replaced. */
  lemma ScriptExamples<T>(a: T, b: T)
    requires a != b
    ensures Script([a], [b, a], 1, 2) == [Add, Match] && Cost([a], [b, a], 1, 2) == 100000
    ensures Script([b, a], [a], 2, 1) == [Remove, Match] && Cost([b, a], [a], 2, 1) == 100000
    ensures Script([a], [b], 1, 1) == [Replace] && Cost([a], [b], 1, 1) == 100001
    ensures Script([a, b], [b, a], 2, 2) == [Replace, Replace] && Cost([a, b], [b, a], 2, 2) == 200002
  {
    OneReplaced([a], [b]);
    OneReplaced([a, b], [b, a]);
    assert Script([a], [b, a], 0, 1) == [Add] && Script([b, a], [a], 1, 0) == [Remove];
    var l, r := [a, b], [b, a];
    assert Cost(l, r, 1, 2) == STEP && Cost(l, r, 2, 1) == STEP;
    assert Move(l, r, 2, 2) == Replace;
  }

  lemma OneReplaced<T>(l: seq<T>, r: seq<T>)
    requires l != [] && r != [] && l[0] != r[0]
    ensures Script(l, r, 1, 1) == [Replace] && Cost(l, r, 1, 1) == 100001
  {
    assert Script(l, r, 0, 0) == [] && Move(l, r, 1, 1) == Replace;
  }

  // ----- Strings -----

  /** Numbers strings so that equal strings, and only those, get equal numbers. */
  class InternalStrings {
    var ids: map<string, nat>

    constructor ()
      ensures Valid() && ids == map[]
    {
      ids := map[];
    }

    ghost predicate Valid()
      reads this
    {
      (forall s :: s in ids ==> ids[s] < |ids|) &&
      forall s, t :: s in ids && t in ids && ids[s] == ids[t] ==> s == t
    }

    method GetId(str: string) returns (id: nat)
      requires Valid()
      modifies this
      ensures Valid() && str in ids && ids[str] == id
      ensures forall s :: s in old(ids) ==> s in ids && ids[s] == old(ids)[s]
    {
      if str in ids {
        return ids[str];
      }
      id := |ids|;
      ids := ids[str := id];
    }

    method GetIds(strings: seq<string>) returns (numbers: seq<nat>)
      requires Valid()
      modifies this
      ensures Valid() && |numbers| == |strings|
      ensures forall k :: 0 <= k < |strings| ==> strings[k] in ids && ids[strings[k]] == numbers[k]
      ensures forall s :: s in old(ids) ==> s in ids && ids[s] == old(ids)[s]
    {
      numbers := [];
      for i := 0 to |strings|
        invariant Valid() && |numbers| == i
        invariant forall k :: 0 <= k < i ==> strings[k] in ids && ids[strings[k]] == numbers[k]
        invariant forall s :: s in old(ids) ==> s in ids && ids[s] == old(ids)[s]
      {
        var id := GetId(strings[i]);
        numbers := numbers + [id];
      }
    }
  }

  /** Two pairs of sequences that compare alike. */
  ghost predicate Alike<S, T>(left: seq<S>, right: seq<S>, left': seq<T>, right': seq<T>) {
    |left| == |left'| && |right| == |right'| &&
    forall i, j :: 0 <= i < |left| && 0 <= j < |right| ==> (left[i] == right[j] <==> left'[i] == right'[j])
  }

  lemma {:induction false} AlikeCosts<S, T>(left: seq<S>, right: seq<S>, left': seq<T>, right': seq<T>, i: nat, j: nat)
    requires Alike(left, right, left', right') && i <= |left| && j <= |right|
    ensures Cost(left, right, i, j) == Cost(left', right', i, j)
    decreases i + j
  {
    if i > 0 && j > 0 {
      AlikeCosts(left, right, left', right', i - 1, j - 1);
      AlikeCosts(left, right, left', right', i - 1, j);
      AlikeCosts(left, right, left', right', i, j - 1);
    }
  }

  lemma {:induction false} AlikeScripts<S, T>(left: seq<S>, right: seq<S>, left': seq<T>, right': seq<T>,
      i: nat, j: nat)
    requires Alike(left, right, left', right') && i <= |left| && j <= |right|
    ensures Script(left, right, i, j) == Script(left', right', i, j)
    decreases i + j
  {
    if i + j > 0 {
      AlikeMoves(left, right, left', right', i, j);
      var move := Move(left, right, i, j);
      AlikeScripts(left, right, left', right', if move == Add then i else i - 1, if move == Remove then j else j - 1);
    }
  }

  lemma AlikeMoves<S, T>(left: seq<S>, right: seq<S>, left': seq<T>, right': seq<T>, i: nat, j: nat)
    requires Alike(left, right, left', right') && i <= |left| && j <= |right|
    ensures Move(left, right, i, j) == Move(left', right', i, j)
  {
    if i > 0 && j > 0 {
      AlikeCosts(left, right, left', right', i - 1, j - 1);
      AlikeCosts(left, right, left', right', i - 1, j);
      AlikeCosts(left, right, left', right', i, j - 1);
    }
  }

  /** Scripts between string lists: interned, then read from the table of numbers. */
  method CalculateOptimalEditsOfStrings(left: seq<string>, right: seq<string>) returns (bestPath: seq<EditType>)
    ensures bestPath == Script(left, right, |left|, |right|)
    ensures Replay(bestPath, left, right) == Some(right)
    ensures PathCost(bestPath) == Cost(left, right, |left|, |right|)
  {
    var table := new InternalStrings();
    var leftIds := table.GetIds(left);
    var rightIds := table.GetIds(right);
    bestPath := CalculateOptimalEdits(leftIds, rightIds);
    AlikeScripts(left, right, leftIds, rightIds, |left|, |right|);
    ScriptReplays(left, right, |left|, |right|);
    ScriptCost(left, right, |left|, |right|);
    assert left[..|left|] == left && right[..|right|] == right;
  }
}
