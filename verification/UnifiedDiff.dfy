/** Unified diffs of two lists of lines, and what applying them does. */
module UnifiedDiff {
  import opened Options
  import opened EditDistance
  import EditScripts

  /** A line of a hunk: ' ' in both, '-' in left only, '+' in right only. */
  datatype Line = Line(edit: char, text: string)

  /** One side of a hunk header: the number of the first line, from one, and how many there are. */
  datatype Range = Range(start: nat, length: nat)

  /** A hunk as it is printed. A side without changes is left out of the header. */
  datatype Printed = Printed(left: Option<Range>, right: Option<Range>, body: seq<Line>)

  // ----- The text of a diff -----

  function Digits(n: nat): string {
    (if n < 10 then "" else Digits(n / 10)) + ["0123456789"[n % 10]]
  }

  function RangeText(range: Range): string {
    Digits(range.start) + "," + Digits(range.length)
  }

  function Header(hunk: Printed): string {
    "@@ " + (if hunk.left.Some? then "-" + RangeText(hunk.left.value) else "") +
    (if hunk.left.Some? && hunk.right.Some? then " " else "") +
    (if hunk.right.Some? then "+" + RangeText(hunk.right.value) else "") + " @@\n"
  }

  function LinesText(body: seq<Line>): string {
    if body == [] then "" else LinesText(body[..|body| - 1]) + ([body[|body| - 1].edit] + body[|body| - 1].text + "\n")
  }

  function Text(hunks: seq<Printed>): string {
    if hunks == [] then ""
    else
      Text(hunks[..|hunks| - 1]) + Header(hunks[|hunks| - 1]) + LinesText(hunks[|hunks| - 1].body)
  }

  // ----- Applying a diff -----

  /** The texts of the lines that are not of one kind. */
  function Without(body: seq<Line>, edit: char): seq<string> {
    if body == [] then [] else (if body[0].edit == edit then [] else [body[0].text]) + Without(body[1..], edit)
  }

  function LeftOf(body: seq<Line>): seq<string> {
    Without(body, '+')
  }

  function RightOf(body: seq<Line>): seq<string> {
    Without(body, '-')
  }

  /** What applying some hunks has read of the left lines, and written. */
  datatype Progress = Progress(read: nat, written: seq<string>)

  /** Where a hunk starts in the left lines, from zero. A header that names only the right side is placed by what was
      written so far. */
  function Start(hunk: Printed, so: Progress): int {
    match (hunk.left, hunk.right)
    case (Some(range), _) => range.start - 1
    case (None, Some(range)) => so.read + (range.start - 1 - |so.written|)
    case _ => -1
  }

  /** Applies one hunk behind those before it. Fails unless both sides of the header agree with the body and with the
      position, and the lines to keep and to remove are there. */
  function ApplyOne(left: seq<string>, hunk: Printed, so: Progress): Option<Progress>
    requires so.read <= |left|
  {
    var start, n := Start(hunk, so), |LeftOf(hunk.body)|;
    if so.read <= start && start + n <= |left| && left[start..start + n] == LeftOf(hunk.body) then
      var before := so.written + left[so.read..start];
      if (hunk.left.Some? ==> hunk.left.value.length == n) &&
         (hunk.right.Some? ==> hunk.right.value == Range(|before| + 1, |RightOf(hunk.body)|)) then
        Some(Progress(start + n, before + RightOf(hunk.body)))
      else None
    else None
  }

  function Apply(left: seq<string>, hunks: seq<Printed>): (r: Option<Progress>)
    ensures r.Some? ==> r.value.read <= |left|
  {
    if hunks == [] then Some(Progress(0, []))
    else
      var so := Apply(left, hunks[..|hunks| - 1]);
      if so.None? then None else ApplyOne(left, hunks[|hunks| - 1], so.value)
  }

  /** Applies the hunks in order and keeps what is left over. */
  function Patch(left: seq<string>, hunks: seq<Printed>): Option<seq<string>> {
    var all := Apply(left, hunks);
    if all.None? then None else Some(all.value.written + left[all.value.read..])
  }

  // ----- Lines of a hunk -----

  lemma {:induction false} WithoutConcat(a: seq<Line>, b: seq<Line>, edit: char)
    ensures Without(a + b, edit) == Without(a, edit) + Without(b, edit)
  {
    if a == [] {
      assert a + b == b;
    } else {
      WithoutConcat(a[1..], b, edit);
      var first := if a[0].edit == edit then [] else [a[0].text];
      assert (a + b)[1..] == a[1..] + b && (a + b)[0] == a[0];
      assert first + (Without(a[1..], edit) + Without(b, edit)) == (first + Without(a[1..], edit)) + Without(b, edit);
    }
  }

  predicate All(body: seq<Line>, edit: char) {
    forall i :: 0 <= i < |body| ==> body[i].edit == edit
  }

  lemma {:induction false} OneSided(body: seq<Line>)
    ensures All(body, '-') ==> RightOf(body) == [] && |LeftOf(body)| == |body|
    ensures All(body, '+') ==> LeftOf(body) == [] && |RightOf(body)| == |body|
  {
    if body != [] {
      OneSided(body[1..]);
      assert forall edit :: All(body, edit) ==> All(body[1..], edit);
    }
  }

  function Count(body: seq<Line>, edit: char): nat {
    if body == [] then 0 else (if body[0].edit == edit then 1 else 0) + Count(body[1..], edit)
  }

  lemma {:induction false} CountConcat(a: seq<Line>, b: seq<Line>, edit: char)
    ensures Count(a + b, edit) == Count(a, edit) + Count(b, edit)
  {
    if a == [] {
      assert a + b == b;
    } else {
      CountConcat(a[1..], b, edit);
      assert (a + b)[1..] == a[1..] + b;
    }
  }

  predicate Kinds(body: seq<Line>) {
    forall i :: 0 <= i < |body| ==> body[i].edit in [' ', '-', '+']
  }

  /** A body of the three kinds of lines has as many left lines as lines not added, and likewise on the right. */
  lemma {:induction false} SideLengths(body: seq<Line>)
    requires Kinds(body)
    ensures |LeftOf(body)| == Count(body, ' ') + Count(body, '-')
    ensures |RightOf(body)| == Count(body, ' ') + Count(body, '+')
  {
    if body != [] {
      SideLengths(body[1..]);
    }
  }

  // ----- Changes -----

  /** How many lines are removed and added. */
  datatype Changes = Changes(removed: nat, added: nat)

  const NO_CHANGES: Changes := Changes(0, 0)

  function Plus(a: Changes, b: Changes): Changes {
    Changes(a.removed + b.removed, a.added + b.added)
  }

  /** A replacement removes a line and adds one. */
  function After(so: Changes, edit: EditType): Changes {
    match edit
    case Match => so
    case Remove => so.(removed := so.removed + 1)
    case Add => so.(added := so.added + 1)
    case Replace => Changes(so.removed + 1, so.added + 1)
  }

  /** Those of the first `e` edits of a script. */
  function OfScript(edits: seq<EditType>, e: nat): Changes
    requires e <= |edits|
  {
    if e == 0 then NO_CHANGES else After(OfScript(edits, e - 1), edits[e - 1])
  }

  function OfBody(body: seq<Line>): Changes {
    Changes(Count(body, '-'), Count(body, '+'))
  }

  function OfHunks(hunks: seq<Printed>): Changes {
    if hunks == [] then NO_CHANGES else Plus(OfHunks(hunks[..|hunks| - 1]), OfBody(hunks[|hunks| - 1].body))
  }

  lemma MoreHunks(hunks: seq<Printed>, hunk: Printed)
    ensures OfHunks(hunks + [hunk]) == Plus(OfHunks(hunks), OfBody(hunk.body))
  {
    hide OfBody;
    assert (hunks + [hunk])[..|hunks|] == hunks;
  }

  // ----- Context -----

  /** Which lines of a body are common to both sides. */
  function Marks(body: seq<Line>): seq<bool> {
    seq(|body|, i requires 0 <= i < |body| => body[i].edit == ' ')
  }

  /** How many common lines a body begins with. */
  function Lead(marks: seq<bool>): (n: nat)
    ensures n <= |marks| && (forall i :: 0 <= i < n ==> marks[i]) && (n < |marks| ==> !marks[n])
  {
    if marks != [] && marks[0] then 1 + Lead(marks[1..]) else 0
  }

  /** How many common lines it ends with. */
  function Trail(marks: seq<bool>): (n: nat)
    ensures n <= |marks| && (forall i :: |marks| - n <= i < |marks| ==> marks[i])
    ensures n < |marks| ==> !marks[|marks| - n - 1]
  {
    if marks != [] && marks[|marks| - 1] then 1 + Trail(marks[..|marks| - 1]) else 0
  }

  /** Only common lines stand between the edited lines at `i` and `j`. */
  predicate Neighbours(marks: seq<bool>, i: nat, j: nat) {
    i < j < |marks| && !marks[i] && !marks[j] && forall k :: i < k < j ==> marks[k]
  }

  /** Fewer than `n` common lines stand between two edited lines. */
  ghost predicate RunsBelow(marks: seq<bool>, n: nat) {
    forall i: nat, j: nat :: Neighbours(marks, i, j) ==> j - i - 1 < n
  }

  lemma PushedMark(front: seq<Line>, waiting: seq<Line>, line: Line)
    requires All(waiting, '+') && (line.edit == '-' || waiting == [])
    ensures Marks(front + [line] + waiting) == Marks(front + waiting) + [line.edit == ' ']
  {
  }

  /** The marks of a hunk that begins with `lead` common lines and now ends with `trail` of them. */
  ghost predicate Filled(marks: seq<bool>, lead: nat, trail: nat, n: nat) {
    lead + trail < |marks| && Lead(marks) == lead && Trail(marks) == trail && RunsBelow(marks, n)
  }

  lemma LeadIs(marks: seq<bool>, n: nat)
    requires n < |marks| && !marks[n] && forall i :: 0 <= i < n ==> marks[i]
    ensures Lead(marks) == n
  {
  }

  lemma TrailIs(marks: seq<bool>, n: nat)
    requires n < |marks| && !marks[|marks| - n - 1] && forall i :: |marks| - n <= i < |marks| ==> marks[i]
    ensures Trail(marks) == n
  {
  }

  /** The first edit of a hunk. */
  lemma FirstMark(marks: seq<bool>, n: nat)
    requires forall i :: 0 <= i < |marks| ==> marks[i]
    ensures Filled(marks + [false], |marks|, 0, n)
  {
    hide Lead, Trail;
    LeadIs(marks + [false], |marks|);
    TrailIs(marks + [false], 0);
  }

  /** A further line. */
  lemma NextMark(marks: seq<bool>, lead: nat, trail: nat, n: nat, common: bool)
    requires Filled(marks, lead, trail, n) && (!common ==> trail < n)
    ensures Filled(marks + [common], lead, if common then trail + 1 else 0, n)
  {
    hide Lead, Trail;
    var more := marks + [common];
    LeadIs(more, lead);
    TrailIs(more, if common then trail + 1 else 0);
    forall i: nat, j: nat | Neighbours(more, i, j) ensures j - i - 1 < n {
      MoreNeighbours(marks, common, i, j);
      if j == |marks| {
        assert !marks[|marks| - trail - 1];
      }
    }
  }

  lemma MoreNeighbours(marks: seq<bool>, common: bool, i: nat, j: nat)
    requires Neighbours(marks + [common], i, j)
    ensures j < |marks| ==> Neighbours(marks, i, j)
    ensures j <= |marks| && forall k :: i < k < j ==> marks[k]
    ensures j == |marks| ==> !common
  {
    forall k | 0 <= k < |marks| ensures marks[k] == (marks + [common])[k] {
    }
    forall k | i < k < j ensures marks[k] {
      assert (marks + [common])[k];
    }
  }

  /** Where a line ends up that is put behind the hunk, the removals or the additions. */
  lemma Placed(hunk: seq<Line>, removes: seq<Line>, adds: seq<Line>, line: Line)
    ensures hunk + removes + adds + [] == hunk + removes + adds
    ensures hunk + (removes + [line]) + adds == hunk + removes + [line] + adds
    ensures hunk + removes + (adds + [line]) == hunk + removes + adds + [line] + []
    ensures removes == adds == [] ==> hunk + [line] + removes + adds == hunk + removes + adds + [line] + []
  {
  }

  /** One hunk while it is collected. Removed and added lines wait in their own lists until the next common line, so
      that a group of edits is printed with all removals in front. */
  class Hunk {
    const leftStart: nat
    const rightStart: nat
    var adds: nat
    var removes: nat
    var common: nat
    var hunk: seq<Line>
    var hunkAdds: seq<Line>
    var hunkRemoves: seq<Line>

    constructor (leftStart: nat, rightStart: nat)
      ensures this.leftStart == leftStart && this.rightStart == rightStart
      ensures Valid() && Body() == [] && !HasEdits()
    {
      this.leftStart, this.rightStart := leftStart, rightStart;
      adds, removes, common := 0, 0, 0;
      hunk, hunkAdds, hunkRemoves := [], [], [];
    }

    /** The lines as they would be printed now. */
    function Body(): seq<Line>
      reads this
    {
      hunk + hunkRemoves + hunkAdds
    }

    /** Nothing but common lines stands directly in front of the waiting ones. */
    ghost predicate Valid()
      reads this
    {
      Counted() && Grouped(hunk) && (hunk != [] ==> hunk[|hunk| - 1].edit == ' ')
    }

    /** The counters count the lines, and the two lists hold what they are for. */
    ghost predicate Counted()
      reads this
    {
      All(hunkRemoves, '-') && All(hunkAdds, '+') &&
      Kinds(hunk) &&
      common == Count(Body(), ' ') && removes == Count(Body(), '-') && adds == Count(Body(), '+')
    }

    predicate HasEdits()
      reads this
    {
      adds > 0 || removes > 0
    }

    method FlushEdits()
      requires Counted()
      modifies this`hunk, this`hunkAdds, this`hunkRemoves
      ensures Counted() && Body() == old(Body()) && hunk == Body() && hunkAdds == hunkRemoves == []
    {
      hunk := hunk + hunkRemoves;
      hunkRemoves := [];
      hunk := hunk + hunkAdds;
      hunkAdds := [];
      assert hunk + [] + [] == hunk;
    }

    /** Either side of the hunk grows by the line, or not, as the kind of edit says. */
    method PushLine(edit: char, line: string)
      requires Valid() && edit in [' ', '-', '+']
      modifies this
      ensures Valid()
      ensures LeftOf(Body()) == old(LeftOf(Body())) + if edit == '+' then [] else [line]
      ensures RightOf(Body()) == old(RightOf(Body())) + if edit == '-' then [] else [line]
      ensures HasEdits() <==> old(HasEdits()) || edit != ' '
      ensures Marks(Body()) == old(Marks(Body())) + [edit == ' ']
      ensures OfBody(Body()) ==
        After(old(OfBody(Body())), if edit == ' ' then Match else if edit == '-' then Remove else Add)
    {
      hide LeftOf, RightOf, Count, Grouped, Marks, OfBody, After;
      ghost var body := Body();
      GroupedBody(hunk, hunkRemoves, hunkAdds, Line(' ', line));
      if edit == ' ' {
        FlushEdits();
      }
      ghost var front := if edit == '-' then hunk + hunkRemoves else Body();
      ghost var waiting := if edit == '-' then hunkAdds else [];
      Placed(hunk, hunkRemoves, hunkAdds, Line(edit, line));
      PushedBody(body, front, waiting, Line(edit, line));
      if edit == ' ' {
        common := common + 1;
        hunk := hunk + [Line(' ', line)];
      } else if edit == '-' {
        removes := removes + 1;
        hunkRemoves := hunkRemoves + [Line('-', line)];
      } else {
        adds := adds + 1;
        hunkAdds := hunkAdds + [Line('+', line)];
      }
    }

    /** Writes the header and all lines behind what the stream holds. */
    method PrintTo(os: string) returns (text: string, ghost printed: Printed)
      requires Valid()
      modifies this`hunk, this`hunkAdds, this`hunkRemoves
      ensures text == os + Header(printed) + LinesText(printed.body)
      ensures printed.body == old(Body()) && Grouped(printed.body) && Kinds(printed.body)
      ensures printed.left == if removes > 0 then Some(Range(leftStart, |LeftOf(printed.body)|)) else None
      ensures printed.right == if adds > 0 then Some(Range(rightStart, |RightOf(printed.body)|)) else None
    {
      hide LinesText, Header, Without, Count, Grouped;
      printed := Printed(if removes > 0 then Some(Range(leftStart, removes + common)) else None,
                         if adds > 0 then Some(Range(rightStart, adds + common)) else None, Body());
      GroupedBody(hunk, hunkRemoves, hunkAdds, Line(' ', ""));
      SideLengths(Body());
      text := PrintHeader(os, printed);
      FlushEdits();
      text := PrintLines(text);
    }

    method PrintLines(os: string) returns (text: string)
      ensures text == os + LinesText(hunk)
    {
      text := os;
      for it := 0 to |hunk|
        invariant text == os + LinesText(hunk[..it])
      {
        assert hunk[..it + 1][..it] == hunk[..it];
        text := text + ([hunk[it].edit] + hunk[it].text + "\n");
        assert LinesText(hunk[..it + 1]) == LinesText(hunk[..it]) + ([hunk[it].edit] + hunk[it].text + "\n");
      }
      assert hunk[..|hunk|] == hunk;
    }

    method PrintHeader(ss: string, ghost printed: Printed) returns (text: string)
      requires printed.left == if removes > 0 then Some(Range(leftStart, removes + common)) else None
      requires printed.right == if adds > 0 then Some(Range(rightStart, adds + common)) else None
      ensures text == ss + Header(printed)
    {
      hide Digits;
      text := "@@ ";
      if removes > 0 {
        text := text + "-" + (Digits(leftStart) + "," + Digits(removes + common));
      }
      if removes > 0 && adds > 0 {
        text := text + " ";
      }
      if adds > 0 {
        text := text + "+" + (Digits(rightStart) + "," + Digits(adds + common));
      }
      text := ss + (text + " @@\n");
    }
  }

  /** Wherever both kinds of changes meet, the removed lines come first. */
  predicate Grouped(body: seq<Line>) {
    forall i :: 0 < i < |body| && body[i].edit == '-' ==> body[i - 1].edit != '+'
  }

  /** Lines that wait behind a common line are grouped when they are printed, and the next common line closes the
  group. */
  lemma GroupedBody(hunk: seq<Line>, removes: seq<Line>, adds: seq<Line>, line: Line)
    requires Grouped(hunk) && (hunk != [] ==> hunk[|hunk| - 1].edit == ' ')
    requires All(removes, '-') && All(adds, '+') && line.edit == ' '
    ensures Grouped(hunk + removes + adds) && Grouped(hunk + removes + adds + [line])
  {
  }

  lemma WithoutOne(line: Line, edit: char)
    ensures Without([line], edit) == if line.edit == edit then [] else [line.text]
  {
    assert [line][1..] == [];
  }

  /** A line pushed in front of added lines. */
  lemma Pushed(front: seq<Line>, waiting: seq<Line>, line: Line)
    requires All(waiting, '+') && (line.edit == '-' || waiting == [])
    ensures LeftOf(front + [line] + waiting) == LeftOf(front + waiting) + if line.edit == '+' then [] else [line.text]
    ensures RightOf(front + [line] + waiting) == RightOf(front + waiting) + if line.edit == '-' then [] else [line.text]
  {
    hide Without;
    WithoutConcat(front, [line], '+');
    WithoutConcat(front + [line], waiting, '+');
    WithoutConcat(front, waiting, '+');
    WithoutConcat(front, [line], '-');
    WithoutConcat(front + [line], waiting, '-');
    WithoutConcat(front, waiting, '-');
    OneSided(waiting);
    WithoutOne(line, '+');
    WithoutOne(line, '-');
    if line.edit == '-' {
      assert RightOf(front) + [] + RightOf(waiting) == RightOf(front) + RightOf(waiting);
      assert LeftOf(front) + [] == LeftOf(front);
      assert LeftOf(front) + [line.text] + [] == LeftOf(front) + [line.text];
    } else {
      assert front + [line] + [] == front + [line] && front + [] == front;
    }
  }

  /** What a line pushed does to everything that is said of a body. */
  lemma PushedBody(body: seq<Line>, front: seq<Line>, waiting: seq<Line>, line: Line)
    requires body == front + waiting && line.edit in [' ', '-', '+']
    requires All(waiting, '+') && (line.edit == '-' || waiting == [])
    ensures var body' := front + [line] + waiting;
      LeftOf(body') == LeftOf(body) + (if line.edit == '+' then [] else [line.text]) &&
      RightOf(body') == RightOf(body) + (if line.edit == '-' then [] else [line.text]) &&
      Marks(body') == Marks(body) + [line.edit == ' '] &&
      OfBody(body') ==
        After(OfBody(body), if line.edit == ' ' then Match else if line.edit == '-' then Remove else Add) &&
      Count(body', ' ') == Count(body, ' ') + (if line.edit == ' ' then 1 else 0) &&
      Count(body', '-') == Count(body, '-') + (if line.edit == '-' then 1 else 0) &&
      Count(body', '+') == Count(body, '+') + (if line.edit == '+' then 1 else 0)
  {
    hide LeftOf, RightOf, Count, Marks;
    Pushed(front, waiting, line);
    PushedCounts(front, waiting, line);
    PushedMark(front, waiting, line);
  }

  lemma PushedCount(front: seq<Line>, waiting: seq<Line>, line: Line, edit: char)
    ensures Count(front + [line] + waiting, edit) == Count(front + waiting, edit) + if line.edit == edit then 1 else 0
  {
    CountConcat(front, [line], edit);
    CountConcat(front + [line], waiting, edit);
    CountConcat(front, waiting, edit);
    assert [line][1..] == [];
  }

  lemma PushedCounts(front: seq<Line>, waiting: seq<Line>, line: Line)
    ensures Count(front + [line] + waiting, ' ') == Count(front + waiting, ' ') + if line.edit == ' ' then 1 else 0
    ensures Count(front + [line] + waiting, '-') == Count(front + waiting, '-') + if line.edit == '-' then 1 else 0
    ensures Count(front + [line] + waiting, '+') == Count(front + waiting, '+') + if line.edit == '+' then 1 else 0
  {
    hide Count;
    PushedCount(front, waiting, line, ' ');
    PushedCount(front, waiting, line, '-');
    PushedCount(front, waiting, line, '+');
  }

  // ----- Walking the script -----

  /** Where the walk stands: what is left of the script turns the rest of `left` into the rest of `right`. */
  ghost predicate Here(edits: seq<EditType>, left: seq<string>, right: seq<string>, e: nat, l: nat, r: nat) {
    e <= |edits| && l <= |left| && r <= |right| && Replay(edits[e..], left[l..], right[r..]) == Some(right[r..])
  }

  lemma HereStep(edits: seq<EditType>, left: seq<string>, right: seq<string>, e: nat, l: nat, r: nat)
    requires Here(edits, left, right, e, l, r) && e < |edits|
    ensures edits[e] != Add ==> l < |left|
    ensures edits[e] != Remove ==> r < |right|
    ensures edits[e] == Match ==> left[l] == right[r]
    ensures Here(edits, left, right, e + 1,
      if edits[e] == Add then l else l + 1, if edits[e] == Remove then r else r + 1)
  {
    hide Replay;
    EditScripts.ReplayStep(edits[e..], left[l..], right[r..]);
    assert edits[e..][1..] == edits[e + 1..] && edits[e..][0] == edits[e];
    assert LeftAfter(edits[e], left[l..]) == left[if edits[e] == Add then l else l + 1..];
    assert RightAfter(edits[e], right[r..]) == right[if edits[e] == Remove then r else r + 1..];
    var rest := Replay(edits[e + 1..], LeftAfter(edits[e], left[l..]), RightAfter(edits[e], right[r..])).value;
    if edits[e] == Remove {
      assert [] + rest == rest;
    } else {
      var first := Output(edits[e], left[l..], right[r..]);
      assert |first| == 1 && first + rest == right[r..] && (first + rest)[1..] == rest && (first + rest)[0] == first[0];
    }
  }

  lemma Beginning(edits: seq<EditType>, left: seq<string>, right: seq<string>)
    requires Replay(edits, left, right) == Some(right)
    ensures Here(edits, left, right, 0, 0, 0) && SameBefore(left, right, 0, 0, 0) && right[..0] == []
  {
    assert edits[0..] == edits && left[0..] == left && right[0..] == right;
  }

  lemma HereEnd(edits: seq<EditType>, left: seq<string>, right: seq<string>, e: nat, l: nat, r: nat)
    requires Here(edits, left, right, e, l, r) && e == |edits|
    ensures l == |left| && r == |right|
  {
    assert edits[e..] == [];
  }

  /** How many matches come next. */
  function Matches(edits: seq<EditType>, e: nat): (n: nat)
    requires e <= |edits|
    ensures e + n <= |edits| && (e + n < |edits| ==> edits[e + n] != Match)
    ensures forall k :: e <= k < e + n ==> edits[k] == Match
    decreases |edits| - e
  {
    if e < |edits| && edits[e] == Match then 1 + Matches(edits, e + 1) else 0
  }

  lemma OneLineMore(lines: seq<string>, from: nat, to: nat)
    requires from <= to < |lines|
    ensures lines[from..to + 1] == lines[from..to] + [lines[to]]
  {
  }

  /** Skips the matches in front of the next edit. */
  method FindEdit(edits: seq<EditType>, ghost left: seq<string>, ghost right: seq<string>, l: nat, r: nat, e: nat)
    returns (l_i: nat, r_i: nat, edit_i: nat)
    requires Here(edits, left, right, e, l, r)
    ensures Here(edits, left, right, edit_i, l_i, r_i)
    ensures edit_i - e == l_i - l == r_i - r == Matches(edits, e)
    ensures OfScript(edits, edit_i) == OfScript(edits, e)
    ensures left[l..l_i] == right[r..r_i]
  {
    hide Replay;
    l_i, r_i, edit_i := l, r, e;
    while edit_i < |edits| && edits[edit_i] == Match
      invariant Here(edits, left, right, edit_i, l_i, r_i) && l <= l_i <= |left| && r <= r_i <= |right| &&
        edit_i <= |edits|
      invariant edit_i - e == l_i - l == r_i - r && e <= edit_i
      invariant Matches(edits, e) == edit_i - e + Matches(edits, edit_i)
      invariant OfScript(edits, edit_i) == OfScript(edits, e)
      invariant left[l..l_i] == right[r..r_i]
    {
      HereStep(edits, left, right, edit_i, l_i, r_i);
      OneLineMore(left, l, l_i);
      OneLineMore(right, r, r_i);
      l_i := l_i + 1;
      r_i := r_i + 1;
      edit_i := edit_i + 1;
    }
  }

  /** Whether there is no further edit, or only one that is too far away to share its context. */
  method TooFar(edits: seq<EditType>, edit_i: nat, context: nat) returns (tooFar: bool)
    requires edit_i <= |edits|
    ensures tooFar <==> edit_i + Matches(edits, edit_i) == |edits| || Matches(edits, edit_i) >= context
  {
    var it := edit_i;
    while it < |edits| && edits[it] == Match
      invariant edit_i <= it <= |edits| && Matches(edits, edit_i) == it - edit_i + Matches(edits, it)
    {
      it := it + 1;
    }
    return it == |edits| || it - edit_i >= context;
  }

  /** The last `n` lines in front of both positions are the same. */
  ghost predicate SameBefore(left: seq<string>, right: seq<string>, l: nat, r: nat, n: nat) {
    n <= l <= |left| && n <= r <= |right| && left[l - n..l] == right[r - n..r]
  }

  lemma SameNone(left: seq<string>, right: seq<string>, l: nat, r: nat)
    requires l <= |left| && r <= |right|
    ensures SameBefore(left, right, l, r, 0)
  {
  }

  lemma NoLines()
    ensures LeftOf([]) == [] && RightOf([]) == []
  {
  }

  lemma NoMarks()
    ensures Marks([]) == [] && OfBody([]) == NO_CHANGES
  {
  }

  lemma SameShorter(left: seq<string>, right: seq<string>, l: nat, r: nat, n: nat, m: nat)
    requires SameBefore(left, right, l, r, n) && m <= n
    ensures SameBefore(left, right, l, r, m)
  {
    assert left[l - m..l] == left[l - n..l][n - m..] && right[r - m..r] == right[r - n..r][n - m..];
  }

  lemma SameLonger(left: seq<string>, right: seq<string>, l: nat, r: nat, n: nat, l': nat, r': nat)
    requires SameBefore(left, right, l, r, n) && l <= l' <= |left| && r <= r' <= |right| && left[l..l'] == right[r..r']
    ensures SameBefore(left, right, l', r', n + (l' - l))
  {
    assert |left[l..l']| == |right[r..r']|;
    assert left[l - n..l'] == left[l - n..l] + left[l..l'] && right[r - n..r'] == right[r - n..r] + right[r..r'];
  }

  /** The body of a hunk that holds `n` common lines from `s` and `t` on, and nothing else. */
  ghost predicate Opened(body: seq<Line>, left: seq<string>, right: seq<string>, s: nat, t: nat, n: nat) {
    s + n <= |left| && t + n <= |right| && LeftOf(body) == left[s..s + n] && RightOf(body) == right[t..t + n] &&
    Marks(body) == seq(n, _ => true) && OfBody(body) == NO_CHANGES
  }

  lemma OpenedMore(body: seq<Line>, body': seq<Line>, left: seq<string>, right: seq<string>, s: nat, t: nat, n: nat)
    requires Opened(body, left, right, s, t, n) && s + n < |left| && t + n < |right| && left[s + n] == right[t + n]
    requires LeftOf(body') == LeftOf(body) + [left[s + n]] && RightOf(body') == RightOf(body) + [left[s + n]]
    requires Marks(body') == Marks(body) + [true] && OfBody(body') == After(OfBody(body), Match)
    ensures Opened(body', left, right, s, t, n + 1)
  {
    hide Without, Marks, OfBody;
    OneLineMore(left, s, s + n);
    OneLineMore(right, t, t + n);
    assert seq(n, _ => true) + [true] == seq(n + 1, _ => true);
  }

  lemma ContextLine(left: seq<string>, right: seq<string>, l: nat, r: nat, n: nat, k: nat)
    requires SameBefore(left, right, l, r, n) && k < n
    ensures left[l - n + k] == right[r - n + k]
  {
    assert left[l - n + k] == left[l - n..l][k] && right[r - n + k] == right[r - n..r][k];
  }

  lemma NothingOpened(left: seq<string>, right: seq<string>, s: nat, t: nat)
    requires s <= |left| && t <= |right|
    ensures Opened([], left, right, s, t, 0)
  {
    NoLines();
    NoMarks();
    assert left[s..s] == [] && right[t..t] == [] && seq(0, _ => true) == [];
  }

  /** A new hunk that begins with the common lines in front of an edit. */
  method StartHunk(left: seq<string>, ghost right: seq<string>, l_i: nat, r_i: nat, prefixContext: nat)
    returns (hunk: Hunk)
    requires SameBefore(left, right, l_i, r_i, prefixContext)
    ensures fresh(hunk) && hunk.Valid() && !hunk.HasEdits()
    ensures hunk.leftStart == l_i - prefixContext + 1 && hunk.rightStart == r_i - prefixContext + 1
    ensures LeftOf(hunk.Body()) == left[l_i - prefixContext..l_i]
    ensures RightOf(hunk.Body()) == right[r_i - prefixContext..r_i]
    ensures Marks(hunk.Body()) == seq(prefixContext, _ => true) && OfBody(hunk.Body()) == NO_CHANGES
  {
    hide Hunk.Valid, Without, Hunk.Body, Marks, OfBody, Opened, After, Hunk.HasEdits;
    var s, t := l_i - prefixContext, r_i - prefixContext;
    hunk := new Hunk(s + 1, t + 1);
    var i := prefixContext;
    NothingOpened(left, right, s, t);
    while i > 0
      invariant 0 <= i <= prefixContext && fresh(hunk) && hunk.Valid() && !hunk.HasEdits()
      invariant Opened(hunk.Body(), left, right, s, t, prefixContext - i)
      decreases i
    {
      ContextLine(left, right, l_i, r_i, prefixContext, prefixContext - i);
      ghost var body := hunk.Body();
      hunk.PushLine(' ', left[l_i - i]);
      OpenedMore(body, hunk.Body(), left, right, s, t, prefixContext - i);
      i := i - 1;
    }
    OpenedIs(hunk.Body(), left, right, s, t, prefixContext);
  }

  lemma OpenedIs(body: seq<Line>, left: seq<string>, right: seq<string>, s: nat, t: nat, n: nat)
    requires Opened(body, left, right, s, t, n)
    ensures s + n <= |left| && t + n <= |right| && LeftOf(body) == left[s..s + n] && RightOf(body) == right[t..t + n]
    ensures Marks(body) == seq(n, _ => true) && OfBody(body) == NO_CHANGES
  {
    hide Without, Marks, OfBody;
  }

  /** Pushes the lines of one edit. */
  method PushEdit(hunk: Hunk, edit: EditType, left: seq<string>, right: seq<string>, ghost s: nat, ghost t: nat,
      l_i: nat, r_i: nat)
    requires hunk.Valid() && s <= l_i <= |left| && t <= r_i <= |right|
    requires edit != Add ==> l_i < |left|
    requires edit != Remove ==> r_i < |right|
    requires edit == Match ==> left[l_i] == right[r_i]
    requires LeftOf(hunk.Body()) == left[s..l_i] && RightOf(hunk.Body()) == right[t..r_i]
    modifies hunk
    ensures hunk.Valid() && (hunk.HasEdits() <==> old(hunk.HasEdits()) || edit != Match)
    ensures LeftOf(hunk.Body()) == left[s..if edit == Add then l_i else l_i + 1]
    ensures RightOf(hunk.Body()) == right[t..if edit == Remove then r_i else r_i + 1]
    ensures Marks(hunk.Body()) ==
      old(Marks(hunk.Body())) + [edit == Match] + if edit == Replace then [false] else []
    ensures OfBody(hunk.Body()) == After(old(OfBody(hunk.Body())), edit)
  {
    hide Hunk.Valid, Without, Hunk.Body, Marks, OfBody;
    assert old(Marks(hunk.Body())) + [edit == Match] + [] == old(Marks(hunk.Body())) + [edit == Match];
    assert edit != Add ==> left[s..l_i] + [left[l_i]] == left[s..l_i + 1];
    assert edit != Remove ==> right[t..r_i] + [right[r_i]] == right[t..r_i + 1];
    assert left[s..l_i] + [] == left[s..l_i] && right[t..r_i] + [] == right[t..r_i];
    if edit == Match || edit == Remove || edit == Replace {
      hunk.PushLine(if edit == Match then ' ' else '-', left[l_i]);
    }
    assert edit == Replace ==> left[s..l_i + 1] + [] == left[s..l_i + 1];
    if edit == Add || edit == Replace {
      hunk.PushLine('+', right[r_i]);
    }
  }

  /** The marks of a hunk before its first edit, or behind it. */
  ghost predicate Grown(marks: seq<bool>, lead: nat, trail: nat, context: nat, edited: bool) {
    if edited then Filled(marks, lead, trail, 2 * context) else marks == seq(lead, _ => true)
  }

  /** What an edit does to the marks. */
  lemma EditMarked(marks: seq<bool>, lead: nat, trail: nat, context: nat, edited: bool, edit: EditType)
    requires Grown(marks, lead, trail, context, edited) && (edit == Match ==> edited)
    requires edit != Match ==> 0 < context && (edited ==> trail < 2 * context)
    ensures Filled(marks + [edit == Match] + if edit == Replace then [false] else [], lead,
      if edit == Match then trail + 1 else 0, 2 * context)
  {
    hide Filled;
    var next := marks + [edit == Match];
    assert next + [] == next;
    if edited {
      NextMark(marks, lead, trail, 2 * context, edit == Match);
    } else {
      FirstMark(marks, 2 * context);
    }
    if edit == Replace {
      NextMark(next, lead, 0, 2 * context, false);
    }
  }

  function LeftNext(edit: EditType, l: nat): nat {
    if edit != Add then l + 1 else l
  }

  function RightNext(edit: EditType, r: nat): nat {
    if edit != Remove then r + 1 else r
  }

  /** Where the walk stands in a hunk whose first edit is the one at `e`. So many common lines were the last ones; if
  they are more than the context, the next edit is near. */
  ghost predicate Walk(edits: seq<EditType>, left: seq<string>, right: seq<string>, context: nat, e: nat, l: nat,
      r: nat, e': nat, suffix: nat) {
    Here(edits, left, right, e', l, r) && SameBefore(left, right, l, r, suffix) && e <= e' &&
    (e' == e ==> suffix == 0) && (e < e' ==> context > 0) &&
    (context < suffix ==> e' + Matches(edits, e') < |edits| && suffix + Matches(edits, e') < 2 * context)
  }

  /** The next edit is none, or too far away. */
  predicate Far(edits: seq<EditType>, e: nat, context: nat)
    requires e <= |edits|
  {
    e + Matches(edits, e) == |edits| || Matches(edits, e) >= context
  }

  lemma WalkStep(edits: seq<EditType>, left: seq<string>, right: seq<string>, context: nat, e: nat, l: nat, r: nat,
      e': nat, suffix: nat)
    requires Walk(edits, left, right, context, e, l, r, e', suffix) && e' < |edits| && (e' == e ==> edits[e] != Match)
    requires context <= suffix ==> !Far(edits, e', context)
    ensures edits[e'] != Add ==> l < |left|
    ensures edits[e'] != Remove ==> r < |right|
    ensures edits[e'] == Match ==> left[l] == right[r]
    ensures edits[e'] != Match ==> 0 < context && (e < e' ==> suffix < 2 * context)
    ensures Walk(edits, left, right, context, e, LeftNext(edits[e'], l), RightNext(edits[e'], r), e' + 1,
      if edits[e'] == Match then suffix + 1 else 0)
  {
    hide Replay, SameBefore, Here;
    HereStep(edits, left, right, e', l, r);
    HereBounds(edits, left, right, e' + 1, LeftNext(edits[e'], l), RightNext(edits[e'], r));
    if edits[e'] == Match {
      assert left[l..l + 1] == right[r..r + 1];
      SameLonger(left, right, l, r, suffix, l + 1, r + 1);
    } else {
      SameNone(left, right, LeftNext(edits[e'], l), RightNext(edits[e'], r));
    }
  }

  lemma HereBounds(edits: seq<EditType>, left: seq<string>, right: seq<string>, e: nat, l: nat, r: nat)
    requires Here(edits, left, right, e, l, r)
    ensures e <= |edits| && l <= |left| && r <= |right|
  {
    hide Replay;
  }

  /** What the body of the hunk holds by then: lines from `s` and `t` on, and the changes from the edit at `e` on. */
  ghost predicate Holds(body: seq<Line>, edits: seq<EditType>, left: seq<string>, right: seq<string>, context: nat,
      s: nat, t: nat, e: nat, lead: nat, l: nat, r: nat, e': nat, suffix: nat) {
    s <= l <= |left| && t <= r <= |right| && e <= e' <= |edits| &&
    LeftOf(body) == left[s..l] && RightOf(body) == right[t..r] && Grown(Marks(body), lead, suffix, context, e < e') &&
    Plus(OfScript(edits, e), OfBody(body)) == OfScript(edits, e')
  }

  lemma HoldsStep(body: seq<Line>, body': seq<Line>, edits: seq<EditType>, left: seq<string>, right: seq<string>,
      context: nat, s: nat, t: nat, e: nat, lead: nat, l: nat, r: nat, e': nat, suffix: nat)
    requires Holds(body, edits, left, right, context, s, t, e, lead, l, r, e', suffix)
    requires e' < |edits| && (edits[e'] == Match ==> e < e')
    requires edits[e'] != Match ==> 0 < context && (e < e' ==> suffix < 2 * context)
    requires var edit := edits[e'];
      (edit != Add ==> l < |left|) && (edit != Remove ==> r < |right|) &&
      LeftOf(body') == left[s..LeftNext(edit, l)] && RightOf(body') == right[t..RightNext(edit, r)] &&
      Marks(body') == Marks(body) + [edit == Match] + (if edit == Replace then [false] else []) &&
      OfBody(body') == After(OfBody(body), edit)
    ensures Holds(body', edits, left, right, context, s, t, e, lead, LeftNext(edits[e'], l), RightNext(edits[e'], r),
      e' + 1, if edits[e'] == Match then suffix + 1 else 0)
  {
    hide Marks, Without, OfBody, Filled;
    EditMarked(Marks(body), lead, suffix, context, e < e', edits[e']);
  }

  /** Takes edits into a hunk until enough common lines follow and the next edit is too far away. */
  method FillHunk(hunk: Hunk, edits: seq<EditType>, left: seq<string>, right: seq<string>, context: nat,
                  ghost s: nat, ghost t: nat, l: nat, r: nat, e: nat, ghost lead: nat)
    returns (l_i: nat, r_i: nat, edit_i: nat, ghost trail: nat)
    requires Here(edits, left, right, e, l, r) && (e < |edits| ==> edits[e] != Match)
    requires hunk.Valid() && !hunk.HasEdits() && s <= l && t <= r
    requires LeftOf(hunk.Body()) == left[s..l] && RightOf(hunk.Body()) == right[t..r]
    requires Marks(hunk.Body()) == seq(lead, _ => true) && OfBody(hunk.Body()) == NO_CHANGES
    modifies hunk
    ensures Here(edits, left, right, edit_i, l_i, r_i) && hunk.Valid() && s <= l_i && t <= r_i && e <= edit_i
    ensures LeftOf(hunk.Body()) == left[s..l_i] && RightOf(hunk.Body()) == right[t..r_i]
    ensures hunk.HasEdits() <==> context > 0 && e < |edits|
    ensures hunk.HasEdits() ==> e < edit_i
    ensures edit_i < |edits| ==> SameBefore(left, right, l_i, r_i, context)
    ensures edit_i + Matches(edits, edit_i) == |edits| || context <= Matches(edits, edit_i)
    ensures hunk.HasEdits() ==> Filled(Marks(hunk.Body()), lead, trail, 2 * context) && trail <= context
    ensures edit_i < |edits| ==> trail == context
    ensures Plus(OfScript(edits, e), OfBody(hunk.Body())) == OfScript(edits, edit_i)
  {
    hide Hunk.Valid, Without, Hunk.Body, Replay, Hunk.HasEdits, Filled, Marks, OfBody, Walk, Holds, Far, Here,
      SameBefore;
    l_i, r_i, edit_i := l, r, e;
    var nSuffix := 0;
    FillBegins(hunk.Body(), edits, left, right, context, s, t, e, lead, l, r);
    HereBounds(edits, left, right, e, l, r);
    while edit_i < |edits|
      invariant hunk.Valid() && (hunk.HasEdits() <==> e < edit_i) && e <= edit_i <= |edits|
      invariant Walk(edits, left, right, context, e, l_i, r_i, edit_i, nSuffix)
      invariant Holds(hunk.Body(), edits, left, right, context, s, t, e, lead, l_i, r_i, edit_i, nSuffix)
    {
      if nSuffix >= context {
        var tooFar := TooFar(edits, edit_i, context);
        FarIs(edits, edit_i, context);
        if tooFar {
          break;
        }
      }
      var edit := edits[edit_i];
      FillParts(hunk.Body(), edits, left, right, context, s, t, e, lead, l_i, r_i, edit_i, nSuffix);
      WalkStep(edits, left, right, context, e, l_i, r_i, edit_i, nSuffix);
      ghost var body := hunk.Body();
      PushEdit(hunk, edit, left, right, s, t, l_i, r_i);
      HoldsStep(body, hunk.Body(), edits, left, right, context, s, t, e, lead, l_i, r_i, edit_i, nSuffix);
      nSuffix := if edit == Match then nSuffix + 1 else 0;
      l_i := LeftNext(edit, l_i);
      r_i := RightNext(edit, r_i);
      edit_i := edit_i + 1;
    }
    trail := nSuffix;
    FillParts(hunk.Body(), edits, left, right, context, s, t, e, lead, l_i, r_i, edit_i, nSuffix);
    FillEnds(hunk.Body(), edits, left, right, context, s, t, e, lead, l_i, r_i, edit_i, nSuffix);
  }

  lemma FarIs(edits: seq<EditType>, e: nat, context: nat)
    requires e <= |edits|
    ensures Far(edits, e, context) <==> e + Matches(edits, e) == |edits| || Matches(edits, e) >= context
  {
  }

  lemma FillBegins(body: seq<Line>, edits: seq<EditType>, left: seq<string>, right: seq<string>, context: nat,
      s: nat, t: nat, e: nat, lead: nat, l: nat, r: nat)
    requires Here(edits, left, right, e, l, r) && s <= l && t <= r
    requires LeftOf(body) == left[s..l] && RightOf(body) == right[t..r]
    requires Marks(body) == seq(lead, _ => true) && OfBody(body) == NO_CHANGES
    ensures Walk(edits, left, right, context, e, l, r, e, 0)
    ensures Holds(body, edits, left, right, context, s, t, e, lead, l, r, e, 0)
  {
    hide Replay, Without, Marks, OfBody, SameBefore;
    SameNone(left, right, l, r);
  }

  lemma FillParts(body: seq<Line>, edits: seq<EditType>, left: seq<string>, right: seq<string>, context: nat,
      s: nat, t: nat, e: nat, lead: nat, l: nat, r: nat, e': nat, suffix: nat)
    requires Walk(edits, left, right, context, e, l, r, e', suffix)
    requires Holds(body, edits, left, right, context, s, t, e, lead, l, r, e', suffix)
    ensures s <= l <= |left| && t <= r <= |right| && LeftOf(body) == left[s..l] && RightOf(body) == right[t..r]
    ensures Here(edits, left, right, e', l, r) && e <= e' <= |edits| && (e < e' ==> context > 0)
    ensures Plus(OfScript(edits, e), OfBody(body)) == OfScript(edits, e')
  {
    hide Replay, Without, Marks, OfBody, SameBefore, Here, Filled;
  }

  /** The loop ends at the end of the script, or behind just as many common lines as the context. */
  lemma FillEnds(body: seq<Line>, edits: seq<EditType>, left: seq<string>, right: seq<string>, context: nat,
      s: nat, t: nat, e: nat, lead: nat, l: nat, r: nat, e': nat, suffix: nat)
    requires Walk(edits, left, right, context, e, l, r, e', suffix)
    requires Holds(body, edits, left, right, context, s, t, e, lead, l, r, e', suffix)
    requires e' <= |edits| && (e' == |edits| || (context <= suffix && Far(edits, e', context)))
    ensures e < e' ==> Filled(Marks(body), lead, suffix, 2 * context) && suffix <= context
    ensures e' < |edits| ==> suffix == context && SameBefore(left, right, l, r, context) && Far(edits, e', context)
  {
    hide Replay, Without, Marks, OfBody, SameBefore, Here, Filled;
  }

  // ----- The diff -----

  /** A hunk whose sides are the two segments from `s` and `t` on carries the applied part up to their ends. */
  lemma HunkApplies(left: seq<string>, right: seq<string>, hunk: Printed, l: nat, r: nat, s: nat, t: nat, l': nat,
      r': nat)
    requires l <= s <= l' <= |left| && r <= t <= r' <= |right|
    requires s - l == t - r && left[l..s] == right[r..t]
    requires LeftOf(hunk.body) == left[s..l'] && RightOf(hunk.body) == right[t..r']
    requires hunk.left.Some? || hunk.right.Some?
    requires hunk.left.Some? ==> hunk.left.value == Range(s + 1, |LeftOf(hunk.body)|)
    requires hunk.right.Some? ==> hunk.right.value == Range(t + 1, |RightOf(hunk.body)|)
    ensures ApplyOne(left, hunk, Progress(l, right[..r])) == Some(Progress(l', right[..r']))
  {
    hide Without;
    assert right[..r] + left[l..s] == right[..t];
    assert right[..t] + right[t..r'] == right[..r'];
  }

  lemma Appended(left: seq<string>, hunks: seq<Printed>, hunk: Printed)
    requires Apply(left, hunks).Some?
    ensures Apply(left, hunks + [hunk]) == ApplyOne(left, hunk, Apply(left, hunks).value)
    ensures Text(hunks + [hunk]) == Text(hunks) + Header(hunk) + LinesText(hunk.body)
  {
    hide ApplyOne, Header, LinesText;
    assert (hunks + [hunk])[..|hunks|] == hunks;
  }

  /** No changes: nothing to apply. */
  lemma NoHunks(left: seq<string>)
    ensures Apply(left, []) == Some(Progress(0, [])) && Patch(left, []) == Some(left) && Text([]) == ""
  {
    assert [] + left[0..] == left;
  }

  /** What is not touched behind the last hunk is the same on both sides. */
  lemma Remainder(left: seq<string>, right: seq<string>, hunks: seq<Printed>, l: nat, r: nat)
    requires l <= |left| && r <= |right| && left[l..] == right[r..]
    requires Apply(left, hunks) == Some(Progress(l, right[..r]))
    ensures Patch(left, hunks) == Some(right)
  {
    hide Apply;
    assert right[..r] + right[r..] == right;
  }

  lemma Shortened(lines: seq<string>, from: nat, to: nat, to': nat)
    requires from <= to' <= to <= |lines|
    ensures lines[from..to'] == lines[from..to][..to' - from]
  {
  }

  /** The common lines between two hunks, without the context of the second. */
  lemma Gap(left: seq<string>, right: seq<string>, l0: nat, r0: nat, l: nat, r: nat, n: nat)
    requires l0 + n <= l <= |left| && r0 <= r <= |right| && left[l0..l] == right[r0..r]
    ensures r0 + n <= r && (l - n) - l0 == (r - n) - r0 && left[l0..l - n] == right[r0..r - n]
  {
    assert |left[l0..l]| == |right[r0..r]|;
    Shortened(left, l0, l, l - n);
    Shortened(right, r0, r, r - n);
  }

  ghost predicate Proper(hunk: Printed) {
    (hunk.left.Some? || hunk.right.Some?) && Grouped(hunk.body) && Kinds(hunk.body)
  }

  /** What holds between two hunks: the lines of context in front agree, and the next edit, if any, leaves room for
      its own context. */
  ghost predicate Between(edits: seq<EditType>, left: seq<string>, right: seq<string>, context: nat, first: bool,
                          l: nat, r: nat, e: nat)
  {
    Here(edits, left, right, e, l, r) &&
    (e < |edits| ==> SameBefore(left, right, l, r, Min(l, context))) &&
    if first then l == r == e == 0
    else context > 0 && (e + Matches(edits, e) == |edits| || context <= Matches(edits, e))
  }

  function Min(a: nat, b: nat): nat {
    if a < b then a else b
  }

  /** Where the first edit of a hunk is, in the left lines. */
  function FirstEdit(hunk: Printed, so: Progress): int {
    Start(hunk, so) + Lead(Marks(hunk.body))
  }

  /** How many common lines a hunk has. In front of its first edit and behind its last one stand as many as there are,
      up to `context` of them. Between two of its edits there are fewer than would fill two contexts. */
  ghost predicate InContext(left: seq<string>, hunk: Printed, so: Progress, context: nat) {
    var marks, start, n := Marks(hunk.body), Start(hunk, so), |LeftOf(hunk.body)|;
    0 <= start && start + n <= |left| && Lead(marks) + Trail(marks) < |marks| && Trail(marks) <= n &&
    Lead(marks) == Min(start + Lead(marks), context) &&
    Trail(marks) == Min(|left| - (start + n - Trail(marks)), context) &&
    RunsBelow(marks, 2 * context)
  }

  /** The lines of both sides are numbered from one, and those of the left side stand where the header says. */
  ghost predicate Numbered(left: seq<string>, hunk: Printed, so: Progress) {
    var start, n := Start(hunk, so), |LeftOf(hunk.body)|;
    so.read <= start && start + n <= |left| && left[start..start + n] == LeftOf(hunk.body) &&
    (hunk.left.Some? ==> hunk.left.value == Range(start + 1, n)) &&
    (hunk.right.Some? ==>
      hunk.right.value == Range(|so.written| + (start - so.read) + 1, |RightOf(hunk.body)|))
  }

  lemma {:induction false} TrailInLeft(body: seq<Line>)
    ensures Trail(Marks(body)) <= |LeftOf(body)|
  {
    if body != [] {
      var front, last := body[..|body| - 1], body[|body| - 1];
      assert body == front + [last];
      TrailInLeft(front);
      WithoutConcat(front, [last], '+');
      WithoutOne(last, '+');
      assert Marks(body)[..|body| - 1] == Marks(front);
    }
  }

  lemma FilledInContext(left: seq<string>, hunk: Printed, so: Progress, context: nat, lead: nat, trail: nat, l: nat,
      l': nat)
    requires lead <= l && l - lead <= l' <= |left| && LeftOf(hunk.body) == left[l - lead..l']
    requires Start(hunk, so) == l - lead
    requires Filled(Marks(hunk.body), lead, trail, 2 * context) && lead == Min(l, context)
    requires trail <= context && (l' < |left| ==> trail == context)
    ensures InContext(left, hunk, so, context)
    ensures FirstEdit(hunk, so) == l && Trail(Marks(hunk.body)) == trail
  {
    hide Marks, RunsBelow, Without, Start;
    TrailInLeft(hunk.body);
  }

  /** In front of the next edit, at `l` and `r`, the context is the same on both sides and was not printed before. */
  lemma OpenPlace(edits: seq<EditType>, left: seq<string>, right: seq<string>, context: nat, first: bool,
      l0: nat, r0: nat, e0: nat, l: nat, r: nat, e: nat)
    requires Between(edits, left, right, context, first, l0, r0, e0) && e0 < |edits|
    requires Here(edits, left, right, e, l, r)
    requires e - e0 == l - l0 == r - r0 == Matches(edits, e0) && left[l0..l] == right[r0..r]
    ensures SameBefore(left, right, l, r, Min(l, context)) && Min(l, context) <= r
    ensures e < |edits| ==> edits[e] != Match && l0 + Min(l, context) <= l
    ensures !first && e < |edits| ==> context <= l - l0
  {
    hide Replay;
    SameLonger(left, right, l0, r0, Min(l0, context), l, r);
    SameShorter(left, right, l, r, Min(l0, context) + (l - l0), Min(l, context));
  }

  /** Finds the next edit and starts its hunk, which does not reach back into what was printed. */
  method OpenHunk(edits: seq<EditType>, left: seq<string>, ghost right: seq<string>, context: nat, ghost first: bool,
                  l0: nat, r0: nat, e0: nat)
    returns (hunk: Hunk, ghost n: nat, l: nat, r: nat, e: nat)
    requires Between(edits, left, right, context, first, l0, r0, e0) && e0 < |edits|
    ensures Here(edits, left, right, e, l, r) && e0 <= e && l0 <= l && r0 <= r && left[l0..l] == right[r0..r]
    ensures e < |edits| ==> edits[e] != Match && l0 + n <= l
    ensures n <= l && n <= r && fresh(hunk) && hunk.Valid() && !hunk.HasEdits()
    ensures hunk.leftStart == l - n + 1 && hunk.rightStart == r - n + 1
    ensures LeftOf(hunk.Body()) == left[l - n..l] && RightOf(hunk.Body()) == right[r - n..r]
    ensures n == Min(l, context) && Marks(hunk.Body()) == seq(n, _ => true)
    ensures OfScript(edits, e) == OfScript(edits, e0) && OfBody(hunk.Body()) == NO_CHANGES
    ensures !first && e < |edits| ==> context <= l - l0
  {
    hide Replay, Without, Hunk.Body, Hunk.Valid, Hunk.HasEdits, Marks, OfBody, OfScript, Here, SameBefore, Matches;
    l, r, e := FindEdit(edits, left, right, l0, r0, e0);
    OpenPlace(edits, left, right, context, first, l0, r0, e0, l, r, e);
    var prefixContext := Min(l, context);
    n := prefixContext;
    hunk := StartHunk(left, right, l, r, prefixContext);
  }

  lemma LeftWhole(edits: seq<EditType>, left: seq<string>, right: seq<string>, e: nat, l: nat, r: nat)
    requires Here(edits, left, right, e, l, r)
    ensures e == |edits| ==> l == |left|
  {
    hide Replay;
    if e == |edits| {
      HereEnd(edits, left, right, e, l, r);
    }
  }

  /** What a hunk that was printed means: it applies, has its context, and leaves room for the next. */
  lemma HunkDone(edits: seq<EditType>, left: seq<string>, right: seq<string>, context: nat, hunk: Printed,
      l0: nat, r0: nat, l: nat, r: nat, n: nat, l': nat, r': nat, e': nat, trail: nat)
    requires l0 + n <= l <= |left| && r0 <= r <= |right| && n <= r && left[l0..l] == right[r0..r]
    requires l - n <= l' <= |left| && r - n <= r' <= |right| && n == Min(l, context) && context > 0
    requires LeftOf(hunk.body) == left[l - n..l'] && RightOf(hunk.body) == right[r - n..r']
    requires hunk.left.Some? || hunk.right.Some?
    requires hunk.left.Some? ==> hunk.left.value == Range(l - n + 1, |LeftOf(hunk.body)|)
    requires hunk.right.Some? ==> hunk.right.value == Range(r - n + 1, |RightOf(hunk.body)|)
    requires Filled(Marks(hunk.body), n, trail, 2 * context) && trail <= context
    requires Here(edits, left, right, e', l', r')
    requires e' < |edits| ==> trail == context && SameBefore(left, right, l', r', context)
    requires e' + Matches(edits, e') == |edits| || context <= Matches(edits, e')
    ensures ApplyOne(left, hunk, Progress(l0, right[..r0])) == Some(Progress(l', right[..r']))
    ensures InContext(left, hunk, Progress(l0, right[..r0]), context)
    ensures FirstEdit(hunk, Progress(l0, right[..r0])) == l && Trail(Marks(hunk.body)) == trail
    ensures Between(edits, left, right, context, false, l', r', e')
    ensures Numbered(left, hunk, Progress(l0, right[..r0]))
  {
    hide Replay, Without, ApplyOne, SameBefore, Marks, Filled, InContext, FirstEdit, Lead, Trail, RunsBelow, Here,
      Matches;
    Gap(left, right, l0, r0, l, r, n);
    HunkApplies(left, right, hunk, l0, r0, l - n, r - n, l', r');
    LeftWhole(edits, left, right, e', l', r');
    HereBounds(edits, left, right, e', l', r');
    FilledInContext(left, hunk, Progress(l0, right[..r0]), context, n, trail, l, l');
    if e' < |edits| {
      SameShorter(left, right, l', r', context, Min(l', context));
    }
  }

  /** Prints the next hunk, if there is one. */
  method NextHunk(edits: seq<EditType>, left: seq<string>, right: seq<string>, context: nat, ghost first: bool,
                  ss: string, l0: nat, r0: nat, e0: nat)
    returns (ss': string, found: bool, ghost printed: Printed, l_i: nat, r_i: nat, edit_i: nat)
    requires Between(edits, left, right, context, first, l0, r0, e0) && e0 < |edits|
    ensures !found && context > 0 ==> left[l0..] == right[r0..]
    ensures found ==> Between(edits, left, right, context, false, l_i, r_i, edit_i) && e0 < edit_i && Proper(printed)
    ensures found ==> ApplyOne(left, printed, Progress(l0, right[..r0])) == Some(Progress(l_i, right[..r_i]))
    ensures ss' == if found then ss + Header(printed) + LinesText(printed.body) else ss
    ensures found ==> InContext(left, printed, Progress(l0, right[..r0]), context)
    ensures found ==> Numbered(left, printed, Progress(l0, right[..r0]))
    ensures found && !first ==> context <= FirstEdit(printed, Progress(l0, right[..r0])) - l0
    ensures found && edit_i < |edits| ==> Trail(Marks(printed.body)) == context
    ensures found ==> Plus(OfScript(edits, e0), OfBody(printed.body)) == OfScript(edits, edit_i)
    ensures !found && context > 0 ==> OfScript(edits, e0) == OfScript(edits, |edits|)
  {
    hide Replay, Without, Hunk.Body, Hunk.Valid, ApplyOne, Grouped, Header, LinesText, SameBefore, Marks, Filled,
      OfBody, OfScript, InContext, Numbered, FirstEdit, Lead, Trail, RunsBelow, Here, Matches, Kinds, Hunk.HasEdits,
      Plus, Start;
    printed := Printed(None, None, []);
    var hunk, n, l, r, e := OpenHunk(edits, left, right, context, first, l0, r0, e0);
    ghost var trail;
    l_i, r_i, edit_i, trail := FillHunk(hunk, edits, left, right, context, l - n, r - n, l, r, e, n);
    HereBounds(edits, left, right, e, l, r);
    HereBounds(edits, left, right, edit_i, l_i, r_i);
    ss', found := ss, hunk.HasEdits();
    if found {
      SomeEdits(hunk);
      ss', printed := hunk.PrintTo(ss);
      HunkDone(edits, left, right, context, printed, l0, r0, l, r, n, l_i, r_i, edit_i, trail);
    } else if context > 0 {
      HereEnd(edits, left, right, e, l, r);
      ToTheEnd(left, l0);
      ToTheEnd(right, r0);
    }
  }

  lemma SomeEdits(hunk: Hunk)
    ensures hunk.HasEdits() <==> hunk.adds > 0 || hunk.removes > 0
  {
  }

  lemma ToTheEnd(lines: seq<string>, from: nat)
    requires from <= |lines|
    ensures lines[from..] == lines[from..|lines|]
  {
  }

  /** A hunk has its context when those before it have been applied, and its first edit is at least two contexts
      behind the last edit of the hunk in front. */
  ghost predicate HunkInContext(left: seq<string>, hunks: seq<Printed>, i: nat, context: nat)
    requires i < |hunks|
  {
    Apply(left, hunks[..i]).Some? &&
    var so := Apply(left, hunks[..i]).value;
    InContext(left, hunks[i], so, context) && Numbered(left, hunks[i], so) &&
    (i > 0 ==> 2 * context <= FirstEdit(hunks[i], so) - (so.read - Trail(Marks(hunks[i - 1].body))))
  }

  ghost predicate AllInContext(left: seq<string>, hunks: seq<Printed>, context: nat) {
    forall i :: 0 <= i < |hunks| ==> HunkInContext(left, hunks, i, context)
  }

  lemma NoneInContext(left: seq<string>, context: nat)
    ensures AllInContext(left, [], context)
  {
  }

  lemma OneMoreInContext(left: seq<string>, hunks: seq<Printed>, hunk: Printed, context: nat)
    requires AllInContext(left, hunks, context) && Apply(left, hunks).Some?
    requires var so := Apply(left, hunks).value;
      InContext(left, hunk, so, context) && Numbered(left, hunk, so) &&
      (hunks != [] ==> Trail(Marks(hunks[|hunks| - 1].body)) == context && context <= FirstEdit(hunk, so) - so.read)
    ensures AllInContext(left, hunks + [hunk], context)
  {
    hide InContext, Numbered, Apply, FirstEdit, Trail, Marks;
    var all := hunks + [hunk];
    assert all[..|hunks|] == hunks;
    assert HunkInContext(left, all, |hunks|, context);
    forall i | 0 <= i < |hunks| ensures HunkInContext(left, all, i, context) {
      assert HunkInContext(left, hunks, i, context);
      assert all[..i] == hunks[..i] && all[i] == hunks[i] && (i > 0 ==> all[i - 1] == hunks[i - 1]);
    }
  }

  lemma NothingChanged(edits: seq<EditType>)
    ensures OfHunks([]) == OfScript(edits, 0) == NO_CHANGES
  {
  }

  /** Writes all hunks. Applied to `left` they give `right`; only without any context they do not: then there
  is none. */
  method WriteHunks(left: seq<string>, right: seq<string>, context: nat)
    returns (ss: string, ghost hunks: seq<Printed>)
    ensures ss == Text(hunks)
    ensures Patch(left, hunks) == Some(right) <==> context > 0 || left == right
    ensures context == 0 ==> hunks == []
    ensures forall i :: 0 <= i < |hunks| ==> Proper(hunks[i])
    ensures AllInContext(left, hunks, context)
    ensures context > 0 ==>
      var script := Script(left, right, |left|, |right|); OfHunks(hunks) == OfScript(script, |script|)
  {
    hide Replay, Apply, Text, Patch, ApplyOne, Script, Header, LinesText, SameBefore, Proper, Matches, InContext,
      Numbered, AllInContext, FirstEdit, Trail, Marks, OfScript, OfHunks, OfBody;
    var edits := EditScripts.CalculateOptimalEditsOfStrings(left, right);
    var l_i: nat, r_i: nat, edit_i: nat := 0, 0, 0;
    ss, hunks := "", [];
    NoHunks(left);
    Beginning(edits, left, right);
    NoneInContext(left, context);
    NothingChanged(edits);
    while edit_i < |edits|
      invariant Between(edits, left, right, context, hunks == [], l_i, r_i, edit_i)
      invariant ss == Text(hunks) && Apply(left, hunks) == Some(Progress(l_i, right[..r_i]))
      invariant forall i :: 0 <= i < |hunks| ==> Proper(hunks[i])
      invariant AllInContext(left, hunks, context)
      invariant hunks != [] && edit_i < |edits| ==> Trail(Marks(hunks[|hunks| - 1].body)) == context
      invariant OfHunks(hunks) == OfScript(edits, edit_i)
    {
      var ss', found, printed, l, r, e := NextHunk(edits, left, right, context, hunks == [], ss, l_i, r_i, edit_i);
      if !found {
        if context > 0 {
          Remainder(left, right, hunks, l_i, r_i);
        }
        return;
      }
      Appended(left, hunks, printed);
      OneMoreInContext(left, hunks, printed, context);
      MoreHunks(hunks, printed);
      hunks := hunks + [printed];
      ss, l_i, r_i, edit_i := ss', l, r, e;
    }
    HereEnd(edits, left, right, edit_i, l_i, r_i);
    Remainder(left, right, hunks, l_i, r_i);
  }
}
