/** Reading a printed diff back: the text alone determines the hunks. */
module DiffText {
  import opened Options
  import opened EditDistance
  import opened UnifiedDiff

  /** Something read off the front of a text, and the rest of it. */
  datatype Read<T> = Read(value: T, rest: string) | Bad

  predicate IsDigit(c: char) {
    '0' <= c <= '9'
  }

  function ReadNumber(n: nat, text: string): (r: Read<nat>)
    ensures r.Read?
    decreases |text|
  {
    if text != "" && IsDigit(text[0]) then ReadNumber(10 * n + (text[0] as int - '0' as int), text[1..])
    else Read(n, text)
  }

  function ReadRange(text: string): Read<Range> {
    var start := ReadNumber(0, text);
    if start.rest == "" || start.rest[0] != ',' then Bad
    else
      var length := ReadNumber(0, start.rest[1..]);
      Read(Range(start.value, length.value), length.rest)
  }

  /** One side of a header, if the text goes on with its sign. */
  function ReadSide(sign: char, text: string): Read<Option<Range>> {
    if text == "" || text[0] != sign then Read(None, text)
    else
      var range := ReadRange(text[1..]);
      if range.Bad? then Bad else Read(Some(range.value), range.rest)
  }

  function Skip(mark: string, text: string): Read<()> {
    if mark <= text then Read((), text[|mark|..]) else Bad
  }

  /** A header: its two sides, with a blank between them if both are there. */
  function ReadHeader(text: string): Read<Printed> {
    var begin := Skip("@@ ", text);
    if begin.Bad? then Bad
    else
      var left := ReadSide('-', begin.rest);
      if left.Bad? then Bad
      else
        var right := ReadSide('+', if left.value.Some? && " +" <= left.rest then left.rest[1..] else left.rest);
        if right.Bad? then Bad
        else
          var end := Skip(" @@\n", right.rest);
          if end.Bad? then Bad else Read(Printed(left.value, right.value, []), end.rest)
  }

  /** The position of the first line feed. */
  function LineEnd(text: string): (n: nat)
    ensures n <= |text| && '\n' !in text[..n] && (n < |text| ==> text[n] == '\n')
  {
    if text == "" || text[0] == '\n' then 0 else 1 + LineEnd(text[1..])
  }

  function ReadBody(text: string): Read<seq<Line>>
    decreases |text|
  {
    if text == "" || text[0] !in [' ', '-', '+'] then Read([], text)
    else
      var n := LineEnd(text);
      if n == |text| then Bad
      else
        var others := ReadBody(text[n + 1..]);
        if others.Bad? then Bad else Read([Line(text[0], text[1..n])] + others.value, others.rest)
  }

  function ReadDiff(text: string): Option<seq<Printed>>
    decreases |text|
  {
    if text == "" then Some([])
    else
      var header := ReadHeader(text);
      if header.Bad? || |header.rest| >= |text| then None
      else
        var body := ReadBody(header.rest);
        if body.Bad? || |body.rest| >= |text| then None
        else
          var others := ReadDiff(body.rest);
          if others.None? then None else Some([header.value.(body := body.value)] + others.value)
  }

  // ----- Every part is read back -----

  lemma OneDigit(n: nat, d: nat, rest: string)
    requires d < 10
    ensures ReadNumber(n, ["0123456789"[d]] + rest) == ReadNumber(10 * n + d, rest)
  {
    assert "0123456789"[d] as int - '0' as int == d;
    assert (["0123456789"[d]] + rest)[1..] == rest;
  }

  lemma {:induction false} DigitsRead(n: nat, rest: string)
    ensures ReadNumber(0, Digits(n) + rest) == ReadNumber(n, rest)
    decreases n
  {
    hide ReadNumber;
    var c := "0123456789"[n % 10];
    OneDigit(n / 10, n % 10, rest);
    if n >= 10 {
      DigitsRead(n / 10, [c] + rest);
      assert Digits(n) + rest == Digits(n / 10) + ([c] + rest);
    } else {
      assert Digits(n) + rest == [c] + rest;
    }
  }

  lemma NumberRead(n: nat, rest: string)
    requires rest == "" || !IsDigit(rest[0])
    ensures ReadNumber(0, Digits(n) + rest) == Read(n, rest)
  {
    DigitsRead(n, rest);
  }

  lemma RangeRead(range: Range, rest: string)
    requires rest == "" || !IsDigit(rest[0])
    ensures ReadRange(RangeText(range) + rest) == Read(range, rest)
  {
    hide ReadNumber, Digits;
    var tail := "," + (Digits(range.length) + rest);
    assert RangeText(range) + rest == Digits(range.start) + tail;
    NumberRead(range.start, tail);
    assert tail[1..] == Digits(range.length) + rest;
    NumberRead(range.length, rest);
  }

  lemma SideRead(sign: char, range: Range, rest: string)
    requires rest == "" || !IsDigit(rest[0])
    ensures ReadSide(sign, [sign] + RangeText(range) + rest) == Read(Some(range), rest)
  {
    hide ReadRange, RangeText;
    RangeRead(range, rest);
    assert ([sign] + RangeText(range) + rest)[1..] == RangeText(range) + rest;
  }

  /** The sides of a header as they are written, in front of the rest. */
  function LeftText(hunk: Printed): string {
    if hunk.left.Some? then ['-'] + RangeText(hunk.left.value) else ""
  }

  function RightText(hunk: Printed): string {
    if hunk.right.Some? then ['+'] + RangeText(hunk.right.value) else ""
  }

  lemma HeaderParts(hunk: Printed, rest: string)
    ensures Header(hunk) + rest == "@@ " + (LeftText(hunk) +
      ((if hunk.left.Some? && hunk.right.Some? then " " else "") + (RightText(hunk) + (" @@\n" + rest))))
  {
    hide RangeText;
  }

  lemma LeftRead(hunk: Printed, rest: string)
    requires rest != "" && !IsDigit(rest[0]) && rest[0] != '-'
    ensures ReadSide('-', LeftText(hunk) + rest) == Read(hunk.left, rest)
  {
    hide RangeText;
    if hunk.left.Some? {
      SideRead('-', hunk.left.value, rest);
    } else {
      assert "" + rest == rest;
    }
  }

  lemma RightRead(hunk: Printed, rest: string)
    requires rest != "" && !IsDigit(rest[0]) && rest[0] != '+'
    ensures ReadSide('+', RightText(hunk) + rest) == Read(hunk.right, rest)
  {
    hide RangeText;
    if hunk.right.Some? {
      SideRead('+', hunk.right.value, rest);
    } else {
      assert "" + rest == rest;
    }
  }

  lemma Skipped(mark: string, rest: string)
    ensures Skip(mark, mark + rest) == Read((), rest)
  {
    assert (mark + rest)[|mark|..] == rest;
  }

  lemma HeaderRead(hunk: Printed, rest: string)
    ensures ReadHeader(Header(hunk) + rest) == Read(hunk.(body := []), rest)
  {
    hide ReadSide, LeftText, Skip, Header;
    var end := " @@\n" + rest;
    var right := RightText(hunk) + end;
    var both := (if hunk.left.Some? && hunk.right.Some? then " " else "") + right;
    HeaderParts(hunk, rest);
    Skipped("@@ ", LeftText(hunk) + both);
    assert "" + right == right && "" + end == end;
    LeftRead(hunk, both);
    RightRead(hunk, end);
    Skipped(" @@\n", rest);
    assert (" " + right)[1..] == right;
    assert hunk.left.Some? && hunk.right.Some? ==> " +" <= both;
    assert end[1] == '@' && " +"[1] == '+';
    assert hunk.right.None? ==> both == end && !(" +" <= both);
  }

  lemma {:induction false} LineEndIs(text: string, n: nat)
    requires n < |text| && text[n] == '\n' && '\n' !in text[..n]
    ensures LineEnd(text) == n
  {
    if n > 0 {
      assert text[0] == text[..n][0];
      assert text[1..][..n - 1] == text[..n][1..];
      LineEndIs(text[1..], n - 1);
    }
  }

  /** The kinds of lines there are, and no line feed inside a line. */
  predicate Plain(body: seq<Line>) {
    forall i :: 0 <= i < |body| ==> body[i].edit in [' ', '-', '+'] && '\n' !in body[i].text
  }

  lemma LinesTextCons(line: Line, body: seq<Line>)
    ensures LinesText([line] + body) == [line.edit] + line.text + "\n" + LinesText(body)
    decreases |body|
  {
    var all := [line] + body;
    if body == [] {
      assert all[..0] == [] && all[|all| - 1] == line;
      assert LinesText(all) == "" + ([line.edit] + line.text + "\n");
    } else {
      var last := body[|body| - 1];
      assert all[..|all| - 1] == [line] + body[..|body| - 1] && all[|all| - 1] == last;
      LinesTextCons(line, body[..|body| - 1]);
    }
  }

  lemma NoLines(rest: string)
    requires rest == "" || rest[0] == '@'
    ensures ReadBody(LinesText([]) + rest) == Read([], rest)
  {
    assert "" + rest == rest;
  }

  lemma {:induction false} BodyRead(body: seq<Line>, rest: string)
    requires Plain(body) && (rest == "" || rest[0] == '@')
    ensures ReadBody(LinesText(body) + rest) == Read(body, rest)
    decreases |body|
  {
    hide LinesText;
    if body == [] {
      NoLines(rest);
    } else {
      var line := body[0];
      assert body == [line] + body[1..];
      LinesTextCons(line, body[1..]);
      var tail := LinesText(body[1..]) + rest;
      var text := LinesText(body) + rest;
      var n := 1 + |line.text|;
      assert text == [line.edit] + line.text + "\n" + tail;
      assert text[..n] == [line.edit] + line.text && text[1..n] == line.text && text[n + 1..] == tail;
      LineEndIs(text, n);
      BodyRead(body[1..], rest);
    }
  }

  lemma TextCons(hunk: Printed, hunks: seq<Printed>)
    ensures Text([hunk] + hunks) == Header(hunk) + LinesText(hunk.body) + Text(hunks)
    decreases |hunks|
  {
    hide Header, LinesText;
    var all := [hunk] + hunks;
    if hunks == [] {
      assert all[..0] == [] && all[|all| - 1] == hunk;
      assert Text(all) == "" + Header(hunk) + LinesText(hunk.body);
    } else {
      var last := hunks[|hunks| - 1];
      assert all[..|all| - 1] == [hunk] + hunks[..|hunks| - 1] && all[|all| - 1] == last;
      TextCons(hunk, hunks[..|hunks| - 1]);
    }
  }

  lemma HeaderFirst(hunk: Printed)
    ensures Header(hunk) != "" && Header(hunk)[0] == '@'
  {
  }

  lemma ReadDiffStep(text: string, header: Read<Printed>, body: Read<seq<Line>>)
    requires header == ReadHeader(text) && header.Read? && |header.rest| < |text|
    requires body == ReadBody(header.rest) && body.Read? && |body.rest| < |text|
    ensures ReadDiff(text) == var others := ReadDiff(body.rest);
      if others.None? then None else Some([header.value.(body := body.value)] + others.value)
  {
    hide ReadHeader, ReadBody;
  }

  /** Behind a body comes the end, or the header of the next hunk. */
  lemma BehindBody(hunks: seq<Printed>)
    ensures Text(hunks) == "" || Text(hunks)[0] == '@'
  {
    hide Header, LinesText;
    if hunks != [] {
      assert hunks == [hunks[0]] + hunks[1..];
      TextCons(hunks[0], hunks[1..]);
      HeaderFirst(hunks[0]);
    }
  }

  lemma DiffReadCons(hunk: Printed, hunks: seq<Printed>)
    requires Plain(hunk.body) && ReadDiff(Text(hunks)) == Some(hunks)
    ensures ReadDiff(Text([hunk] + hunks)) == Some([hunk] + hunks)
  {
    hide Header, LinesText, ReadHeader, ReadBody, Plain, Text, ReadDiff;
    TextCons(hunk, hunks);
    HeaderFirst(hunk);
    BehindBody(hunks);
    var tail := Text(hunks);
    var behind := LinesText(hunk.body) + tail;
    var text := Text([hunk] + hunks);
    assert text == Header(hunk) + behind;
    HeaderRead(hunk, behind);
    BodyRead(hunk.body, tail);
    ReadDiffStep(text, Read(hunk.(body := []), behind), Read(hunk.body, tail));
    assert hunk.(body := []).(body := hunk.body) == hunk;
  }

  /** A printed diff reads back as the hunks that were printed. */
  lemma {:induction false} DiffRead(hunks: seq<Printed>)
    requires forall i :: 0 <= i < |hunks| ==> Plain(hunks[i].body)
    ensures ReadDiff(Text(hunks)) == Some(hunks)
    decreases |hunks|
  {
    hide Plain, Header, LinesText, ReadHeader, ReadBody;
    if hunks == [] {
      assert Text(hunks) == "";
    } else {
      hide Text, ReadDiff;
      DiffRead(hunks[1..]);
      DiffReadCons(hunks[0], hunks[1..]);
      assert hunks == [hunks[0]] + hunks[1..];
    }
  }

  // ----- The diffs that are printed are of this kind -----

  predicate WithoutFeeds(lines: seq<string>) {
    forall i :: 0 <= i < |lines| ==> '\n' !in lines[i]
  }

  lemma {:induction false} SidesHold(body: seq<Line>, i: nat)
    requires i < |body|
    ensures body[i].edit == '+' ==> body[i].text in RightOf(body)
    ensures body[i].edit != '+' ==> body[i].text in LeftOf(body)
  {
    if i > 0 {
      SidesHold(body[1..], i - 1);
    }
  }

  lemma BodyPlain(body: seq<Line>)
    requires Kinds(body) && WithoutFeeds(LeftOf(body)) && WithoutFeeds(RightOf(body))
    ensures Plain(body)
  {
    forall i | 0 <= i < |body| ensures body[i].edit in [' ', '-', '+'] && '\n' !in body[i].text {
      SidesHold(body, i);
      assert body[i].edit in [' ', '-', '+'];
      NoFeed(if body[i].edit == '+' then RightOf(body) else LeftOf(body), body[i].text);
    }
  }

  lemma ProperIs(hunk: Printed)
    requires Proper(hunk)
    ensures Kinds(hunk.body)
  {
  }

  lemma NoFeed(lines: seq<string>, line: string)
    requires WithoutFeeds(lines) && line in lines
    ensures '\n' !in line
  {
  }

  /** Hunks that apply hold no line feeds but those of the two lists. */
  lemma {:induction false} AppliedPlain(left: seq<string>, hunks: seq<Printed>)
    requires WithoutFeeds(left) && Apply(left, hunks).Some? && WithoutFeeds(Apply(left, hunks).value.written)
    requires forall i :: 0 <= i < |hunks| ==> Proper(hunks[i])
    ensures forall i :: 0 <= i < |hunks| ==> Plain(hunks[i].body)
    decreases |hunks|
  {
    if hunks != [] {
      hide Without, Proper;
      var front, hunk := hunks[..|hunks| - 1], hunks[|hunks| - 1];
      var so, now := Apply(left, front).value, Apply(left, hunks).value;
      assert so.written == now.written[..|so.written|];
      AppliedPlain(left, front);
      assert RightOf(hunk.body) == now.written[|now.written| - |RightOf(hunk.body)|..];
      assert WithoutFeeds(LeftOf(hunk.body)) && WithoutFeeds(RightOf(hunk.body));
      ProperIs(hunk);
      BodyPlain(hunk.body);
    }
  }

  /** For lines without line feeds, the text of a diff that turns `left` into `right` can be read back, and does so. */
  lemma TextPatches(left: seq<string>, right: seq<string>, hunks: seq<Printed>)
    requires WithoutFeeds(left) && WithoutFeeds(right) && Patch(left, hunks) == Some(right)
    requires forall i :: 0 <= i < |hunks| ==> Proper(hunks[i])
    ensures ReadDiff(Text(hunks)) == Some(hunks)
  {
    hide Apply, Proper;
    var all := Apply(left, hunks).value;
    assert all.written == right[..|all.written|];
    AppliedPlain(left, hunks);
    DiffRead(hunks);
  }

  /** Without context the text is empty. Otherwise it is a diff that turns `left` into `right`: for lines without line
      feeds, what is read from it does so, and nothing else than equal lists makes up for missing context. */
  method CreateUnifiedDiff(left: seq<string>, right: seq<string>, context: nat) returns (ss: string)
    ensures context == 0 ==> ss == ""
    ensures exists hunks ::
      (ss == Text(hunks) && AllInContext(left, hunks, context) &&
       (Patch(left, hunks) == Some(right) <==> context > 0 || left == right))
    ensures WithoutFeeds(left) && WithoutFeeds(right) ==>
      ReadDiff(ss).Some? && (Patch(left, ReadDiff(ss).value) == Some(right) <==> context > 0 || left == right) &&
      AllInContext(left, ReadDiff(ss).value, context) &&
      (context > 0 ==>
         var script := Script(left, right, |left|, |right|); OfHunks(ReadDiff(ss).value) == OfScript(script, |script|))
  {
    hide Script, OfHunks, OfScript, Text, Patch, ReadDiff, Proper, WithoutFeeds, AllInContext;
    ghost var hunks;
    ss, hunks := WriteHunks(left, right, context);
    NothingWritten();
    if context > 0 && WithoutFeeds(left) && WithoutFeeds(right) {
      TextPatches(left, right, hunks);
    }
  }

  lemma NothingWritten()
    ensures Text([]) == "" && ReadDiff("") == Some([])
  {
  }

  lemma BodyExample(a: string, b: string, c: string, x: string)
    ensures LinesText([Line(' ', a), Line(' ', b), Line('-', c), Line('+', x)]) ==
      " " + a + "\n" + (" " + b + "\n" + ("-" + c + "\n" + ("+" + x + "\n")))
  {
    hide LinesText;
    var body := [Line(' ', a), Line(' ', b), Line('-', c), Line('+', x)];
    assert body == [body[0]] + body[1..] && body[1..] == [body[1]] + body[2..] && body[2..] == [body[2]] + [body[3]];
    LinesTextCons(body[0], body[1..]);
    LinesTextCons(body[1], body[2..]);
    LinesTextCons(body[2], [body[3]]);
    LinesTextCons(body[3], []);
    NoLinesText();
    assert [body[3]] + [] == [body[3]] && "+" + x + "\n" + "" == "+" + x + "\n";
  }

  lemma NoLinesText()
    ensures LinesText([]) == "" && Text([]) == ""
  {
  }

  lemma HeaderExample(body: seq<Line>)
    ensures Header(Printed(Some(Range(1, 3)), Some(Range(1, 3)), body)) == "@@ -1,3 +1,3 @@\n"
  {
    assert Digits(1) == "1" && Digits(3) == "3";
  }

  /** The text of a hunk with two common lines and a replaced one. */
  lemma HunkExample(a: string, b: string, c: string, x: string)
    ensures var body := [Line(' ', a), Line(' ', b), Line('-', c), Line('+', x)];
      Text([Printed(Some(Range(1, 3)), Some(Range(1, 3)), body)]) ==
        "@@ -1,3 +1,3 @@\n" + (" " + a + "\n" + (" " + b + "\n" + ("-" + c + "\n" + ("+" + x + "\n"))))
  {
    hide LinesText, Header, Text;
    var hunk := Printed(Some(Range(1, 3)), Some(Range(1, 3)), [Line(' ', a), Line(' ', b), Line('-', c), Line('+', x)]);
    BodyExample(a, b, c, x);
    HeaderExample(hunk.body);
    TextCons(hunk, []);
    NoLinesText();
    assert [hunk] + [] == [hunk];
    var text := Header(hunk) + LinesText(hunk.body);
    assert text + "" == text;
  }
}
