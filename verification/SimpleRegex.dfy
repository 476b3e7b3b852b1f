/** The simple regular expressions of death tests: their syntax, their languages, and the matcher. */
module SimpleRegex {
  import opened Options

  // ----- Characters -----

  predicate IsInSet(ch: char, str: string) {
    ch != '\0' && ch in str
  }

  predicate IsAsciiDigit(ch: char) {
    '0' <= ch <= '9'
  }

  predicate IsAsciiPunct(ch: char) {
    IsInSet(ch, "^-!\"#$%&'()*+,./:;<=>?@[\\]_`{|}~")
  }

  predicate IsRepeat(ch: char) {
    IsInSet(ch, "?*+")
  }

  predicate IsAsciiWhiteSpace(ch: char) {
    IsInSet(ch, " \U{0C}\n\r\t\U{0B}")
  }

  predicate IsAsciiWordChar(ch: char) {
    'a' <= ch <= 'z' || 'A' <= ch <= 'Z' || '0' <= ch <= '9' || ch == '_'
  }

  predicate IsValidEscape(c: char) {
    IsAsciiPunct(c) || IsInSet(c, "dDfnrsStvwW")
  }

  predicate AtomMatchesChar(escaped: bool, patternChar: char, ch: char) {
    if escaped then
      match patternChar
      case 'd' => IsAsciiDigit(ch)
      case 'D' => !IsAsciiDigit(ch)
      case 'f' => ch == '\U{0C}'
      case 'n' => ch == '\n'
      case 'r' => ch == '\r'
      case 's' => IsAsciiWhiteSpace(ch)
      case 'S' => !IsAsciiWhiteSpace(ch)
      case 't' => ch == '\t'
      case 'v' => ch == '\U{0B}'
      case 'w' => IsAsciiWordChar(ch)
      case 'W' => !IsAsciiWordChar(ch)
      case _ => IsAsciiPunct(patternChar) && patternChar == ch
    else
      (patternChar == '.' && ch != '\n') || patternChar == ch
  }

  // ----- Syntax -----

  /** One character class: a character, or an escape sequence. */
  datatype Atom = Atom(escaped: bool, c: char)

  /** An atom, repeated as `?`, `*` or `+` say, or once. */
  datatype Piece = Piece(atom: Atom, repeat: Option<char>)

  /** A regular expression, and where its matches are anchored. */
  datatype Regex = Regex(caret: bool, pieces: seq<Piece>, dollar: bool)

  predicate IsPlain(c: char) {
    c != '\\' && !IsInSet(c, "^$?*+()[]{}|")
  }

  predicate LegalPiece(piece: Piece) {
    (if piece.atom.escaped then IsValidEscape(piece.atom.c) else IsPlain(piece.atom.c)) &&
    (piece.repeat.Some? ==> IsRepeat(piece.repeat.value))
  }

  predicate Legal(pieces: seq<Piece>) {
    forall i :: 0 <= i < |pieces| ==> LegalPiece(pieces[i])
  }

  function PieceText(piece: Piece): string {
    (if piece.atom.escaped then "\\" else "") + [piece.atom.c] +
    if piece.repeat.Some? then [piece.repeat.value] else ""
  }

  /** The text of some pieces, and of the anchor behind them. */
  function TailText(pieces: seq<Piece>, dollar: bool): string {
    if pieces == [] then if dollar then "$" else ""
    else PieceText(pieces[0]) + TailText(pieces[1..], dollar)
  }

  function RegexText(re: Regex): string {
    (if re.caret then "^" else "") + TailText(re.pieces, re.dollar)
  }

  // ----- Languages -----

  predicate AllMatch(atom: Atom, s: string) {
    forall i :: 0 <= i < |s| ==> AtomMatchesChar(atom.escaped, atom.c, s[i])
  }

  predicate CountFits(repeat: Option<char>, n: nat) {
    match repeat
    case None => n == 1
    case Some(op) => (op == '+' ==> n >= 1) && (op == '?' ==> n <= 1)
  }

  /** The strings that some pieces, one behind the other, stand for. */
  ghost predicate InLanguage(pieces: seq<Piece>, s: string) {
    if pieces == [] then s == ""
    else
      exists k: nat {:trigger s[..k]} :: k <= |s| &&
        CountFits(pieces[0].repeat, k) && AllMatch(pieces[0].atom, s[..k]) && InLanguage(pieces[1..], s[k..])
  }

  /** A prefix of `s` is in the language; all of it, if the end is anchored. */
  ghost predicate AtHead(pieces: seq<Piece>, dollar: bool, s: string) {
    exists k: nat {:trigger s[..k]} :: k <= |s| && (dollar ==> k == |s|) && InLanguage(pieces, s[..k])
  }

  /** A substring is in the language: a prefix if the start is anchored, a suffix if the end is. */
  ghost predicate Anywhere(re: Regex, s: string) {
    exists i: nat, j: nat {:trigger s[i..j]} :: i <= j <= |s| &&
      (re.caret ==> i == 0) && (re.dollar ==> j == |s|) && InLanguage(re.pieces, s[i..j])
  }

  // ----- Reading a regular expression -----

  /** The piece at the front of a text, before it is known to be legal. */
  function ReadPiece(s: string): (piece: Piece)
    requires s != "" && s != "\\"
    ensures 0 < |PieceText(piece)| <= |s| && PieceText(piece) == s[..|PieceText(piece)|]
  {
    var escaped := s[0] == '\\';
    var n := if escaped then 2 else 1;
    Piece(Atom(escaped, s[n - 1]), if n < |s| && IsRepeat(s[n]) then Some(s[n]) else None)
  }

  function ReadTail(s: string): Option<(seq<Piece>, bool)>
    decreases |s|
  {
    if s == "" then Some(([], false))
    else if s == "$" then Some(([], true))
    else if s == "\\" || !LegalPiece(ReadPiece(s)) then None
    else
      var rest := ReadTail(s[|PieceText(ReadPiece(s))|..]);
      if rest.None? then None else Some(([ReadPiece(s)] + rest.value.0, rest.value.1))
  }

  function ReadRegex(s: string): Option<Regex> {
    var caret := s != "" && s[0] == '^';
    var tail := ReadTail(if caret then s[1..] else s);
    if tail.None? then None else Some(Regex(caret, tail.value.0, tail.value.1))
  }

  /** No piece and no anchor begins with a repetition or a caret. */
  lemma TailBegin(pieces: seq<Piece>, dollar: bool)
    requires Legal(pieces)
    ensures TailText(pieces, dollar) == "" <==> pieces == [] && !dollar
    ensures TailText(pieces, dollar) != "" ==>
      !IsRepeat(TailText(pieces, dollar)[0]) && TailText(pieces, dollar)[0] != '^'
    ensures TailText(pieces, dollar) == "$" <==> pieces == [] && dollar
  {
    if pieces != [] {
      assert LegalPiece(pieces[0]);
      assert TailText(pieces, dollar)[0] == PieceText(pieces[0])[0];
    }
  }

  /** Texts of regular expressions read back. */
  lemma {:induction false} TailReads(pieces: seq<Piece>, dollar: bool)
    requires Legal(pieces)
    ensures ReadTail(TailText(pieces, dollar)) == Some((pieces, dollar))
    decreases |pieces|
  {
    TailBegin(pieces, dollar);
    if pieces != [] {
      var p, rest := pieces[0], TailText(pieces[1..], dollar);
      var s := PieceText(p) + rest;
      assert LegalPiece(p);
      TailBegin(pieces[1..], dollar);
      TailReads(pieces[1..], dollar);
      assert s[|PieceText(p)|..] == rest;
      assert p.repeat.None? && rest != "" ==> s[|PieceText(p)|] == rest[0];
      assert pieces == [p] + pieces[1..];
    }
  }

  /** And nothing else reads. */
  lemma {:induction false} ReadIsText(s: string)
    requires ReadTail(s).Some?
    ensures Legal(ReadTail(s).value.0) && TailText(ReadTail(s).value.0, ReadTail(s).value.1) == s
    decreases |s|
  {
    hide ReadTail, TailText, LegalPiece, Legal, ReadPiece, PieceText;
    if s == "" || s == "$" {
      TailOfNothing(s);
    } else {
      ReadTailStep(s);
      var m := |PieceText(ReadPiece(s))|;
      ReadIsText(s[m..]);
      TailCons(ReadPiece(s), ReadTail(s[m..]).value.0, ReadTail(s[m..]).value.1);
      assert s == s[..m] + s[m..];
    }
  }

  lemma TailOfNothing(s: string)
    requires s == "" || s == "$"
    ensures ReadTail(s) == Some(([], s == "$")) && TailText([], s == "$") == s && Legal([])
  {
  }

  lemma TailCons(piece: Piece, pieces: seq<Piece>, dollar: bool)
    ensures TailText([piece] + pieces, dollar) == PieceText(piece) + TailText(pieces, dollar)
    ensures LegalPiece(piece) && Legal(pieces) ==> Legal([piece] + pieces)
  {
    assert ([piece] + pieces)[1..] == pieces;
  }

  lemma ReadTailStep(s: string)
    requires s != "" && s != "$"
    ensures ReadTail(s).Some? <==>
      s != "\\" && LegalPiece(ReadPiece(s)) && ReadTail(s[|PieceText(ReadPiece(s))|..]).Some?
    ensures ReadTail(s).Some? ==>
      ReadTail(s).value ==
      ([ReadPiece(s)] + ReadTail(s[|PieceText(ReadPiece(s))|..]).value.0,
       ReadTail(s[|PieceText(ReadPiece(s))|..]).value.1)
  {
    hide LegalPiece, ReadPiece, PieceText;
  }

  /** The regular expressions are exactly the texts that read, each in one way. */
  lemma ReadIff(s: string, re: Regex)
    ensures ReadRegex(s) == Some(re) <==> Legal(re.pieces) && RegexText(re) == s
  {
    if Legal(re.pieces) && RegexText(re) == s {
      TailReads(re.pieces, re.dollar);
      TailBegin(re.pieces, re.dollar);
      var tail := TailText(re.pieces, re.dollar);
      assert re.caret ==> ("^" + tail)[1..] == tail;
      assert "" + tail == tail;
    }
    if ReadRegex(s) == Some(re) {
      ReadIsText(if re.caret then s[1..] else s);
      assert re.caret ==> s == "^" + s[1..];
    }
  }

  // ----- Validation -----

  /** What the loop still has to see behind position `i`: `prev` says whether a repetition may stand there. */
  predicate ValidFrom(s: string, i: nat, prev: bool)
    requires i <= |s|
    decreases |s| - i
  {
    if i == |s| then true
    else if s[i] == '\\' then i + 1 < |s| && IsValidEscape(s[i + 1]) && ValidFrom(s, i + 2, true)
    else
      (s[i] == '^' ==> i == 0) && (s[i] == '$' ==> i + 1 == |s|) && !IsInSet(s[i], "()[]{}|") &&
      (IsRepeat(s[i]) ==> prev) && ValidFrom(s, i + 1, !IsInSet(s[i], "^$?*+"))
  }

  /** Behind a repeatable token the loop may see a repetition, and otherwise goes on as from a fresh start. */
  lemma RepeatOrNot(s: string, i: nat)
    requires i <= |s|
    ensures ValidFrom(s, i, true) <==>
      if i < |s| && IsRepeat(s[i]) then ValidFrom(s, i + 1, false) else ValidFrom(s, i, false)
  {
  }

  /** Behind a possible caret, the loop accepts what reads. */
  lemma {:induction false} TailValid(s: string, i: nat)
    requires i <= |s| && (i == 0 ==> s == "" || s[0] != '^')
    ensures ValidFrom(s, i, false) <==> ReadTail(s[i..]).Some?
    decreases |s| - i
  {
    hide ReadTail, PieceText, LegalPiece, ReadPiece, ValidFrom;
    var t := s[i..];
    if t == "" || t == "$" || t == "\\" {
      LastValid(s, i);
    } else {
      ReadTailStep(t);
      var m := |PieceText(ReadPiece(t))|;
      assert t[m..] == s[i + m..];
      TailValid(s, i + m);
      PieceValid(s, i);
    }
  }

  lemma LastValid(s: string, i: nat)
    requires i <= |s| && (s[i..] == "" || s[i..] == "$" || s[i..] == "\\")
    ensures ValidFrom(s, i, false) <==> ReadTail(s[i..]).Some?
  {
    assert s[i..] != "" ==> s[i] == s[i..][0];
    assert i + 1 == |s| ==> ValidFrom(s, i + 1, false);
  }

  /** One piece of the text is one or two turns of the loop. */
  lemma PieceValid(s: string, i: nat)
    requires i < |s| && (i == 0 ==> s[0] != '^') && s[i..] != "$" && s[i..] != "\\"
    ensures var piece := ReadPiece(s[i..]);
      ValidFrom(s, i, false) <==> LegalPiece(piece) && ValidFrom(s, i + |PieceText(piece)|, false)
  {
    var t := s[i..];
    var n := if t[0] == '\\' then 2 else 1;
    assert s[i] == t[0];
    assert |t| > 1 || (t == [t[0]] && t[0] != '$' && t[0] != '\\');
    assert n == 2 ==> s[i + 1] == t[1];
    assert n < |t| ==> s[i + n] == t[n];
    RepeatOrNot(s, i + n);
  }

  /** The whole loop accepts exactly the regular expressions. */
  lemma ValidIsReadable(s: string)
    ensures ValidFrom(s, 0, false) <==> ReadRegex(s).Some?
  {
    assert s[0..] == s;
    if s != "" && s[0] == '^' {
      TailValid(s, 1);
    } else {
      TailValid(s, 0);
    }
  }

  /** Checks a regular expression; none stands for a null pointer. */
  method ValidateRegex(regex: Option<string>) returns (isValid: bool)
    ensures isValid <==> regex.Some? && ReadRegex(regex.value).Some?
  {
    if regex.None? {
      return false;
    }
    hide IsValidEscape, IsRepeat, ReadRegex;
    var s := regex.value;
    ValidIsReadable(s);
    isValid := true;
    var prevRepeatable := false;
    var i := 0;
    while i < |s|
      invariant 0 <= i <= |s|
      invariant ValidFrom(s, 0, false) <==> isValid && ValidFrom(s, i, prevRepeatable)
    {
      if s[i] == '\\' {
        i := i + 1;
        if i == |s| {
          return false;
        }
        if !IsValidEscape(s[i]) {
          isValid := false;
        }
        prevRepeatable := true;
      } else {
        var ch := s[i];
        if ch == '^' && i > 0 {
          isValid := false;
        } else if ch == '$' && i + 1 < |s| {
          isValid := false;
        } else if IsInSet(ch, "()[]{}|") {
          isValid := false;
        } else if IsRepeat(ch) && !prevRepeatable {
          isValid := false;
        }
        prevRepeatable := !IsInSet(ch, "^$?*+");
      }
      i := i + 1;
    }
  }

  // ----- Matching -----

  // The largest value of size_t.
  const SIZE_MAX := 0xFFFF_FFFF_FFFF_FFFF

  /** The first `n` characters match the atom, and the rest of the pieces what follows. */
  ghost predicate Splits(piece: Piece, rest: seq<Piece>, dollar: bool, s: string, n: nat) {
    n <= |s| && CountFits(piece.repeat, n) && AllMatch(piece.atom, s[..n]) && AtHead(rest, dollar, s[n..])
  }

  lemma HeadSplits(piece: Piece, rest: seq<Piece>, dollar: bool, s: string)
    ensures AtHead([piece] + rest, dollar, s) <==> exists n: nat :: Splits(piece, rest, dollar, s, n)
  {
    var pieces := [piece] + rest;
    assert pieces[1..] == rest;
    if AtHead(pieces, dollar, s) {
      var k: nat :| k <= |s| && (dollar ==> k == |s|) && InLanguage(pieces, s[..k]);
      var n: nat :|
        n <= k && CountFits(piece.repeat, n) && AllMatch(piece.atom, s[..k][..n]) && InLanguage(rest, s[..k][n..]);
      assert s[..k][..n] == s[..n] && s[..k][n..] == s[n..][..k - n];
      assert Splits(piece, rest, dollar, s, n);
    }
    if n: nat :| Splits(piece, rest, dollar, s, n) {
      var k: nat :| k <= |s[n..]| && (dollar ==> k == |s[n..]|) && InLanguage(rest, s[n..][..k]);
      assert s[..n + k][..n] == s[..n] && s[..n + k][n..] == s[n..][..k];
      assert InLanguage(pieces, s[..n + k]);
    }
  }

  lemma CountsFit(repeat: char)
    requires repeat in ['?', '*', '+']
    ensures forall n: nat :: CountFits(Some(repeat), n) && n < SIZE_MAX <==>
      (if repeat == '+' then 1 else 0) <= n <= if repeat == '?' then 1 else SIZE_MAX - 1
  {
  }

  method MatchRepetitionAndRegexAtHead(escaped: bool, c: char, repeat: char, regex: string, str: string,
                                       ghost pieces: seq<Piece>, ghost dollar: bool)
    returns (matches: bool)
    requires Legal(pieces) && regex == TailText(pieces, dollar) && repeat in ['?', '*', '+'] && |str| < SIZE_MAX
    ensures matches <==> AtHead([Piece(Atom(escaped, c), Some(repeat))] + pieces, dollar, str)
    decreases |regex| + 1, 0
  {
    hide Legal, TailText, AtHead, AtomMatchesChar, CountFits;
    ghost var piece := Piece(Atom(escaped, c), Some(repeat));
    HeadSplits(piece, pieces, dollar, str);
    var minCount := if repeat == '+' then 1 else 0;
    var maxCount := if repeat == '?' then 1 else SIZE_MAX - 1;
    CountsFit(repeat);
    var i := 0;
    while i <= maxCount
      invariant 0 <= i <= |str| && i <= maxCount + 1 && AllMatch(piece.atom, str[..i])
      invariant forall n: nat :: n < i ==> !Splits(piece, pieces, dollar, str, n)
      decreases |str| - i
    {
      if i >= minCount {
        var rest := MatchRegexAtHead(regex, str[i..], pieces, dollar);
        if rest {
          assert Splits(piece, pieces, dollar, str, i);
          return true;
        }
      }
      assert !Splits(piece, pieces, dollar, str, i);
      if i == |str| || !AtomMatchesChar(escaped, c, str[i]) {
        forall n: nat ensures !Splits(piece, pieces, dollar, str, n) {
          assert i < n <= |str| ==> str[..n][i] == str[i];
        }
        return false;
      }
      assert str[..i + 1] == str[..i] + [str[i]];
      i := i + 1;
    }
    return false;
  }

  /** Whether the regular expression, which has no caret, matches a prefix of the string. */
  method MatchRegexAtHead(regex: string, str: string, ghost pieces: seq<Piece>, ghost dollar: bool)
    returns (matches: bool)
    requires Legal(pieces) && regex == TailText(pieces, dollar) && |str| < SIZE_MAX
    ensures matches <==> AtHead(pieces, dollar, str)
    decreases |regex|, 1
  {
    hide Legal, AtHead, InLanguage, AtomMatchesChar;
    HeadOfNothing(dollar, str);
    TailBegin(pieces, dollar);
    if regex == "" {
      return true;
    }
    if regex[0] == '$' {
      TailFront(pieces, dollar);
      return str == "";
    }
    TailFront(pieces, dollar);
    ghost var rest := pieces[1..];
    assert pieces == [pieces[0]] + rest;
    var escaped := regex[0] == '\\';
    var at := if escaped then 1 else 0;
    if at + 1 < |regex| && IsRepeat(regex[at + 1]) {
      matches := MatchRepetitionAndRegexAtHead(escaped, regex[at], regex[at + 1], regex[at + 2..], str, rest, dollar);
    } else {
      HeadSplits(pieces[0], rest, dollar, str);
      OneSplits(pieces[0], rest, dollar, str);
      if str == "" || !AtomMatchesChar(escaped, regex[at], str[0]) {
        return false;
      }
      matches := MatchRegexAtHead(regex[at + 1..], str[1..], rest, dollar);
    }
  }

  /** No pieces match the empty prefix, which is all of the string only if that is empty. */
  lemma HeadOfNothing(dollar: bool, s: string)
    ensures AtHead([], dollar, s) <==> !dollar || s == ""
  {
    assert s[..0] == "";
    assert InLanguage([], s[..0]);
  }

  /** What the first characters of a text say about its first piece. */
  lemma TailFront(pieces: seq<Piece>, dollar: bool)
    requires Legal(pieces) && TailText(pieces, dollar) != ""
    ensures pieces == [] <==> TailText(pieces, dollar)[0] == '$'
    ensures pieces != [] ==>
      var s, p := TailText(pieces, dollar), pieces[0];
      var n := if s[0] == '\\' then 2 else 1;
      |s| >= n && p.atom == Atom(s[0] == '\\', s[n - 1]) && Legal(pieces[1..]) &&
      (p.repeat.Some? <==> |s| > n && IsRepeat(s[n])) && (p.repeat.Some? ==> p.repeat.value == s[n]) &&
      s[if p.repeat.Some? then n + 1 else n..] == TailText(pieces[1..], dollar)
  {
    if pieces != [] {
      var p, rest := pieces[0], TailText(pieces[1..], dollar);
      assert LegalPiece(p);
      TailBegin(pieces[1..], dollar);
      var m := |PieceText(p)|;
      assert TailText(pieces, dollar)[m..] == rest;
      assert p.repeat.None? && rest != "" ==> TailText(pieces, dollar)[m] == rest[0];
    }
  }

  lemma OneSplits(piece: Piece, rest: seq<Piece>, dollar: bool, s: string)
    requires piece.repeat.None?
    ensures (exists n: nat :: Splits(piece, rest, dollar, s, n)) <==>
      s != "" && AtomMatchesChar(piece.atom.escaped, piece.atom.c, s[0]) && AtHead(rest, dollar, s[1..])
  {
    hide AtHead, AtomMatchesChar;
    if n: nat :| Splits(piece, rest, dollar, s, n) {
      assert n == 1 && s[..1][0] == s[0];
    }
    if s != "" && AtomMatchesChar(piece.atom.escaped, piece.atom.c, s[0]) && AtHead(rest, dollar, s[1..]) {
      assert Splits(piece, rest, dollar, s, 1);
    }
  }

  /** Whether the regular expression matches somewhere; none stands for a null pointer. */
  method MatchRegexAnywhere(regex: Option<string>, str: Option<string>) returns (matches: bool)
    requires regex.Some? ==> ReadRegex(regex.value).Some?
    requires str.Some? ==> |str.value| < SIZE_MAX
    ensures matches <==> regex.Some? && str.Some? && Anywhere(ReadRegex(regex.value).value, str.value)
  {
    if regex.None? || str.None? {
      return false;
    }
    var r, s := regex.value, str.value;
    ghost var re := ReadRegex(r).value;
    ReadIff(r, re);
    hide ReadRegex, TailText, Legal, AtHead, Anywhere;
    CaretIff(re);
    if r != "" && r[0] == '^' {
      assert r[1..] == TailText(re.pieces, re.dollar);
      AnywhereIff(re, s);
      matches := MatchRegexAtHead(r[1..], s, re.pieces, re.dollar);
      assert s[0..] == s;
      return;
    }
    AnywhereIff(re, s);
    var at := 0;
    while true
      invariant 0 <= at <= |s|
      invariant forall i: nat :: i < at ==> !AtHead(re.pieces, re.dollar, s[i..])
      decreases |s| - at
    {
      var here := MatchRegexAtHead(r, s[at..], re.pieces, re.dollar);
      if here {
        return true;
      }
      if at == |s| {
        break;
      }
      at := at + 1;
    }
    return false;
  }

  lemma CaretIff(re: Regex)
    requires Legal(re.pieces)
    ensures re.caret <==> RegexText(re) != "" && RegexText(re)[0] == '^'
    ensures RegexText(re)[if re.caret then 1 else 0..] == TailText(re.pieces, re.dollar)
  {
    TailBegin(re.pieces, re.dollar);
  }

  lemma AnywhereIff(re: Regex, s: string)
    ensures Anywhere(re, s) <==>
      exists i: nat :: i <= |s| && (re.caret ==> i == 0) && AtHead(re.pieces, re.dollar, s[i..])
  {
    if Anywhere(re, s) {
      var i: nat, j: nat :|
        i <= j <= |s| && (re.caret ==> i == 0) && (re.dollar ==> j == |s|) && InLanguage(re.pieces, s[i..j]);
      assert s[i..][..j - i] == s[i..j];
      assert AtHead(re.pieces, re.dollar, s[i..]);
    }
    if i: nat :| i <= |s| && (re.caret ==> i == 0) && AtHead(re.pieces, re.dollar, s[i..]) {
      var k: nat :| k <= |s[i..]| && (re.dollar ==> k == |s[i..]|) && InLanguage(re.pieces, s[i..][..k]);
      assert s[i..][..k] == s[i..i + k];
    }
  }
}
