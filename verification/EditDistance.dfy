/** The edit script behind a failed string comparison: a table of costs, and the path read back from it. */
module EditDistance {
  import opened Options

  datatype EditType = Match | Add | Remove | Replace

  // The costs 1 and 1.00001 of the table, in hundred-thousandths.
  const STEP := 100000
  const REPLACE_STEP := 100001

  // ----- What a script means -----

  /** Whether the lines an edit consumes are there. */
  predicate Fits<T(==)>(edit: EditType, left: seq<T>, right: seq<T>) {
    (edit == Add || left != []) && (edit == Remove || right != [])
  }

  function LeftAfter<T>(edit: EditType, left: seq<T>): seq<T>
    requires edit == Add || left != []
  {
    if edit == Add then left else left[1..]
  }

  function RightAfter<T>(edit: EditType, right: seq<T>): seq<T>
    requires edit == Remove || right != []
  {
    if edit == Remove then right else right[1..]
  }

  /** A match keeps the line of the left side; additions and replacements write the line of the right side. */
  function Output<T>(edit: EditType, left: seq<T>, right: seq<T>): seq<T>
    requires (edit == Add || left != []) && (edit == Remove || right != [])
  {
    match edit
    case Match => [left[0]]
    case Remove => []
    case _ => [right[0]]
  }

  /** The lines a script makes of `left`; none when it runs out of lines or leaves some over. */
  function Replay<T(==)>(edits: seq<EditType>, left: seq<T>, right: seq<T>): Option<seq<T>> {
    if edits == [] then
      if left == [] && right == [] then Some([]) else None
    else if !Fits(edits[0], left, right) then
      None
    else
      var rest := Replay(edits[1..], LeftAfter(edits[0], left), RightAfter(edits[0], right));
      if rest.None? then None else Some(Output(edits[0], left, right) + rest.value)
  }

  function Price(edit: EditType): nat {
    match edit
    case Match => 0
    case Replace => REPLACE_STEP
    case _ => STEP
  }

  function PathCost(edits: seq<EditType>): nat {
    if edits == [] then 0 else PathCost(edits[..|edits| - 1]) + Price(edits[|edits| - 1])
  }

  // ----- The table and the path -----

  function Cost<T(==)>(left: seq<T>, right: seq<T>, i: nat, j: nat): nat
    requires i <= |left| && j <= |right|
    decreases i + j
  {
    if j == 0 then i * STEP
    else if i == 0 then j * STEP
    else if left[i - 1] == right[j - 1] then Cost(left, right, i - 1, j - 1)
    else
      var add, remove, replace :=
        Cost(left, right, i, j - 1), Cost(left, right, i - 1, j), Cost(left, right, i - 1, j - 1);
      if add < remove && add < replace then add + STEP
      else if remove < add && remove < replace then remove + STEP
      else replace + REPLACE_STEP
  }

  function Move<T(==)>(left: seq<T>, right: seq<T>, i: nat, j: nat): EditType
    requires i <= |left| && j <= |right|
  {
    if j == 0 then Remove
    else if i == 0 then Add
    else if left[i - 1] == right[j - 1] then Match
    else
      var add, remove, replace :=
        Cost(left, right, i, j - 1), Cost(left, right, i - 1, j), Cost(left, right, i - 1, j - 1);
      if add < remove && add < replace then Add
      else if remove < add && remove < replace then Remove
      else Replace
  }

  /** The path from the origin to a cell, following the recorded moves back. */
  function Script<T(==)>(left: seq<T>, right: seq<T>, i: nat, j: nat): seq<EditType>
    requires i <= |left| && j <= |right|
    decreases i + j
  {
    if i == 0 && j == 0 then []
    else
      var move := Move(left, right, i, j);
      Script(left, right, if move == Add then i else i - 1, if move == Remove then j else j - 1) + [move]
  }

  function Reversed<T>(s: seq<T>): seq<T> {
    if s == [] then [] else Reversed(s[1..]) + [s[0]]
  }

  lemma ReversedSnoc<T>(s: seq<T>, x: T)
    ensures Reversed(s + [x]) == [x] + Reversed(s)
  {
    if s != [] {
      assert (s + [x])[1..] == s[1..] + [x];
    }
  }

  /** The last move of a path, and the path to where it came from. */
  lemma ScriptStep<T>(left: seq<T>, right: seq<T>, i: nat, j: nat)
    requires i <= |left| && j <= |right| && i + j > 0
    ensures var move := Move(left, right, i, j);
      (move != Add ==> i > 0) && (move != Remove ==> j > 0) &&
      Script(left, right, i, j) ==
        Script(left, right, if move == Add then i else i - 1, if move == Remove then j else j - 1) + [move]
  {
    hide Cost;
  }

  lemma ScriptStart<T>(left: seq<T>, right: seq<T>)
    ensures forall path: seq<EditType> :: Script(left, right, 0, 0) + path == path
  {
    assert Script(left, right, 0, 0) == [];
  }

  method CalculateOptimalEdits(left: seq<nat>, right: seq<nat>) returns (bestPath: seq<EditType>)
    ensures bestPath == Script(left, right, |left|, |right|)
  {
    hide Script, Move, Cost;
    var costs := new nat[|left| + 1, |right| + 1];
    var bestMove := new EditType[|left| + 1, |right| + 1];
    FillBorder(left, right, costs, bestMove);
    FillTable(left, right, costs, bestMove);
    bestPath := [];
    var l_i, r_i := |left|, |right|;
    while l_i > 0 || r_i > 0
      invariant 0 <= l_i <= |left| && 0 <= r_i <= |right|
      invariant forall i: nat, j: nat :: i <= |left| && j <= |right| ==>
        Filled(left, right, i, j, costs[i, j], bestMove[i, j])
      invariant Script(left, right, l_i, r_i) + Reversed(bestPath) == Script(left, right, |left|, |right|)
      decreases l_i + r_i
    {
      var move := bestMove[l_i, r_i];
      assert Filled(left, right, l_i, r_i, costs[l_i, r_i], bestMove[l_i, r_i]);
      ReversedSnoc(bestPath, move);
      ScriptStep(left, right, l_i, r_i);
      bestPath := bestPath + [move];
      l_i := if move != Add then l_i - 1 else l_i;
      r_i := if move != Remove then r_i - 1 else r_i;
    }
    ScriptStart(left, right);
    bestPath := Reversed(bestPath);
  }

  /** A cell holds the cost and the move of its pair of prefixes. */
  ghost predicate Filled(left: seq<nat>, right: seq<nat>, i: nat, j: nat, cost: nat, move: EditType)
    requires i <= |left| && j <= |right|
  {
    cost == Cost(left, right, i, j) && (i + j > 0 ==> move == Move(left, right, i, j))
  }

  method FillBorder(left: seq<nat>, right: seq<nat>, costs: array2<nat>, bestMove: array2<EditType>)
    requires costs.Length0 == bestMove.Length0 == |left| + 1 && costs.Length1 == bestMove.Length1 == |right| + 1
    modifies costs, bestMove
    ensures forall i: nat :: i <= |left| ==> Filled(left, right, i, 0, costs[i, 0], bestMove[i, 0])
    ensures forall j: nat :: j <= |right| ==> Filled(left, right, 0, j, costs[0, j], bestMove[0, j])
  {
    for l_i := 0 to |left| + 1
      invariant forall i: nat :: i < l_i ==> Filled(left, right, i, 0, costs[i, 0], bestMove[i, 0])
    {
      costs[l_i, 0] := l_i * STEP;
      bestMove[l_i, 0] := Remove;
    }
    for r_i := 1 to |right| + 1
      invariant forall i: nat :: i <= |left| ==> Filled(left, right, i, 0, costs[i, 0], bestMove[i, 0])
      invariant forall j: nat :: j < r_i ==> Filled(left, right, 0, j, costs[0, j], bestMove[0, j])
    {
      costs[0, r_i] := r_i * STEP;
      bestMove[0, r_i] := Add;
    }
  }

  method FillTable(left: seq<nat>, right: seq<nat>, costs: array2<nat>, bestMove: array2<EditType>)
    requires costs.Length0 == bestMove.Length0 == |left| + 1 && costs.Length1 == bestMove.Length1 == |right| + 1
    requires forall i: nat :: i <= |left| ==> Filled(left, right, i, 0, costs[i, 0], bestMove[i, 0])
    requires forall j: nat :: j <= |right| ==> Filled(left, right, 0, j, costs[0, j], bestMove[0, j])
    modifies costs, bestMove
    ensures forall i: nat, j: nat :: i <= |left| && j <= |right| ==>
      Filled(left, right, i, j, costs[i, j], bestMove[i, j])
  {
    for l_i := 0 to |left|
      invariant forall i: nat :: i <= |left| ==> Filled(left, right, i, 0, costs[i, 0], bestMove[i, 0])
      invariant forall i: nat, j: nat :: i <= l_i && j <= |right| ==>
        Filled(left, right, i, j, costs[i, j], bestMove[i, j])
    {
      ghost var row := l_i + 1;
      for r_i := 0 to |right|
        invariant forall i: nat :: i <= |left| ==> Filled(left, right, i, 0, costs[i, 0], bestMove[i, 0])
        invariant forall i: nat, j: nat :: i <= l_i && j <= |right| ==>
          Filled(left, right, i, j, costs[i, j], bestMove[i, j])
        invariant forall j: nat :: j <= r_i ==> Filled(left, right, row, j, costs[row, j], bestMove[row, j])
      {
        assert Filled(left, right, l_i + 1, r_i, costs[l_i + 1, r_i], bestMove[l_i + 1, r_i]);
        assert Filled(left, right, l_i, r_i + 1, costs[l_i, r_i + 1], bestMove[l_i, r_i + 1]);
        assert Filled(left, right, l_i, r_i, costs[l_i, r_i], bestMove[l_i, r_i]);
        if left[l_i] == right[r_i] {
          costs[l_i + 1, r_i + 1] := costs[l_i, r_i];
          bestMove[l_i + 1, r_i + 1] := Match;
        } else {
          var add, remove, replace := costs[l_i + 1, r_i], costs[l_i, r_i + 1], costs[l_i, r_i];
          if add < remove && add < replace {
            costs[l_i + 1, r_i + 1] := add + STEP;
            bestMove[l_i + 1, r_i + 1] := Add;
          } else if remove < add && remove < replace {
            costs[l_i + 1, r_i + 1] := remove + STEP;
            bestMove[l_i + 1, r_i + 1] := Remove;
          } else {
            costs[l_i + 1, r_i + 1] := replace + REPLACE_STEP;
            bestMove[l_i + 1, r_i + 1] := Replace;
          }
        }
        assert Filled(left, right, l_i + 1, r_i + 1, costs[l_i + 1, r_i + 1], bestMove[l_i + 1, r_i + 1]);
      }
    }
  }
}
