/** The `RE` class on simple regular expressions: partial and full matches. */
module RegexMatch {
  import opened Options
  import opened SimpleRegex

  predicate EndsInDollar(s: string) {
    s != "" && s[|s| - 1] == '$'
  }

  /** The text of a regular expression, made to begin with a caret and to end in a dollar sign. */
  function FullText(s: string): string {
    (if s != "" && s[0] == '^' then "" else "^") + s + if EndsInDollar(s) then "" else "$"
  }

  /** A dollar sign at the end of the text that does not anchor: it belongs to an escape sequence. */
  predicate EscapedDollar(s: string, re: Regex) {
    EndsInDollar(s) && !re.dollar
  }

  lemma {:induction false} TailDollar(pieces: seq<Piece>)
    ensures TailText(pieces, true) == TailText(pieces, false) + "$"
  {
    if pieces != [] {
      TailDollar(pieces[1..]);
    }
  }

  /** The full pattern has the same pieces, and both anchors unless the text ends in an escaped dollar sign. */
  lemma FullReads(s: string, re: Regex)
    requires ReadRegex(s) == Some(re)
    ensures ReadRegex(FullText(s)) == Some(Regex(true, re.pieces, !EscapedDollar(s, re)))
  {
    hide ReadRegex, TailText, Legal;
    ReadIff(s, re);
    CaretIff(re);
    TailDollar(re.pieces);
    var front, tail := if re.caret then "^" else "", TailText(re.pieces, false);
    if re.dollar {
      assert s == front + tail + "$";
      assert FullText(s) == "^" + (tail + "$");
    } else {
      assert s == front + tail;
      assert FullText(s) == "^" + (tail + if EndsInDollar(s) then "" else "$");
      assert tail + "" == tail;
    }
    ReadIff(FullText(s), Regex(true, re.pieces, !EscapedDollar(s, re)));
  }

  /** With both anchors, the whole string has to be in the language. */
  lemma BothAnchors(pieces: seq<Piece>, s: string)
    ensures Anywhere(Regex(true, pieces, true), s) <==> InLanguage(pieces, s)
  {
    hide InLanguage;
    assert s[0..|s|] == s;
  }

  class RE {
    var isValid: bool
    var pattern: Option<string>
    var fullPattern: Option<string>

    ghost predicate Valid()
      reads this
    {
      (isValid <==> pattern.Some? && ReadRegex(pattern.value).Some?) &&
      (isValid ==> fullPattern == Some(FullText(pattern.value)))
    }

    constructor Init(regex: Option<string>)
      ensures Valid() && pattern == regex
    {
      pattern, fullPattern, isValid := regex, None, false;
      new;
      isValid := ValidateRegex(regex);
      if !isValid {
        return;
      }
      var text := BuildFull(regex.value);
      fullPattern := Some(text);
    }

    /** Whether the regular expression matches a substring. */
    method PartialMatch(str: Option<string>) returns (matches: bool)
      requires Valid() && (str.Some? ==> |str.value| < SIZE_MAX)
      ensures matches <==> isValid && str.Some? && Anywhere(ReadRegex(pattern.value).value, str.value)
    {
      hide Anywhere, ReadRegex;
      if !isValid {
        return false;
      }
      matches := MatchRegexAnywhere(pattern, str);
    }

    /** Whether it matches the whole string; after an escaped dollar sign at its end, anything may follow. */
    method FullMatch(str: Option<string>) returns (matches: bool)
      requires Valid() && (str.Some? ==> |str.value| < SIZE_MAX)
      ensures matches <==> isValid && str.Some? && Accepts(pattern.value, ReadRegex(pattern.value).value, str.value)
    {
      hide Anywhere, ReadRegex, InLanguage, FullText;
      if !isValid {
        return false;
      }
      ghost var re := ReadRegex(pattern.value).value;
      FullReads(pattern.value, re);
      matches := MatchRegexAnywhere(fullPattern, str);
      if str.Some? {
        BothAnchors(re.pieces, str.value);
        PrefixOnly(re.pieces, str.value);
      }
    }
  }

  /** What a full match accepts. */
  ghost predicate Accepts(text: string, re: Regex, s: string) {
    if EscapedDollar(text, re) then AtHead(re.pieces, false, s) else InLanguage(re.pieces, s)
  }

  lemma PrefixOnly(pieces: seq<Piece>, s: string)
    ensures Anywhere(Regex(true, pieces, false), s) <==> AtHead(pieces, false, s)
  {
    hide InLanguage;
    AnywhereIff(Regex(true, pieces, false), s);
    assert s[0..] == s;
  }

  /** Writes the full pattern into a buffer with room for two more characters and the terminator. */
  method BuildFull(regex: string) returns (text: string)
    ensures text == FullText(regex)
  {
    var len := |regex|;
    var buffer := new char[len + 3];
    var at := 0;
    if regex == "" || regex[0] != '^' {
      buffer[at] := '^';
      at := at + 1;
    }
    assert buffer[..at] == if regex != "" && regex[0] == '^' then "" else "^";
    ghost var begin := buffer[..at];
    for i := 0 to len
      invariant at == |begin| + i
      invariant buffer[..at] == begin + regex[..i]
    {
      buffer[at] := regex[i];
      at := at + 1;
      assert regex[..i + 1] == regex[..i] + [regex[i]];
    }
    assert regex[..len] == regex;
    ghost var middle := buffer[..at];
    if len == 0 || regex[len - 1] != '$' {
      buffer[at] := '$';
      at := at + 1;
    }
    assert buffer[..at] == middle + if EndsInDollar(regex) then "" else "$";
    buffer[at] := '\0';
    text := buffer[..at];
  }

  // ----- When a full match is one -----

  lemma AtomInhabited(atom: Atom) returns (ch: char)
    requires LegalPiece(Piece(atom, None))
    ensures AtomMatchesChar(atom.escaped, atom.c, ch)
  {
    if !atom.escaped {
      ch := atom.c;
    } else {
      ch := match atom.c
        case 'd' => '0'
        case 'D' => 'a'
        case 'f' => '\U{0C}'
        case 'n' => '\n'
        case 'r' => '\r'
        case 's' => ' '
        case 'S' => 'a'
        case 't' => '\t'
        case 'v' => '\U{0B}'
        case 'w' => 'a'
        case 'W' => ' '
        case _ => atom.c;
    }
  }

  /** Every language has a member. */
  lemma {:induction false} Sample(pieces: seq<Piece>) returns (s: string)
    requires Legal(pieces)
    ensures InLanguage(pieces, s)
  {
    if pieces == [] {
      s := "";
    } else {
      hide AtomMatchesChar, IsValidEscape, IsPlain;
      var atom := pieces[0].atom;
      assert LegalPiece(Piece(atom, None)) by { assert LegalPiece(pieces[0]); }
      var ch := AtomInhabited(atom);
      var rest := Sample(pieces[1..]);
      s := [ch] + rest;
      assert s[..1] == [ch] && s[1..] == rest;
      assert AllMatch(atom, s[..1]);
    }
  }

  /** The last piece, if it is a plain dollar sign, ends every member. */
  lemma {:induction false} EndsLanguage(pieces: seq<Piece>, s: string)
    requires pieces != [] && pieces[|pieces| - 1] == Piece(Atom(true, '$'), None) && InLanguage(pieces, s)
    ensures EndsInDollar(s)
  {
    var k: nat :| k <= |s| && CountFits(pieces[0].repeat, k) && AllMatch(pieces[0].atom, s[..k]) &&
      InLanguage(pieces[1..], s[k..]);
    if |pieces| == 1 {
      assert InLanguage([], s[k..]);
      assert s[..k][0] == s[0];
    } else {
      EndsLanguage(pieces[1..], s[k..]);
    }
  }

  /** An escaped dollar sign at the end of the text is the last piece. */
  lemma {:induction false} EscapedDollarIsLast(pieces: seq<Piece>)
    requires Legal(pieces) && EndsInDollar(TailText(pieces, false))
    ensures pieces != [] && pieces[|pieces| - 1] == Piece(Atom(true, '$'), None)
  {
    hide LegalPiece, PieceText;
    assert pieces != [];
    var p, rest := pieces[0], TailText(pieces[1..], false);
    assert LegalPiece(p);
    TailBegin(pieces[1..], false);
    if rest != "" {
      assert TailText(pieces, false)[|TailText(pieces, false)| - 1] == rest[|rest| - 1];
      EscapedDollarIsLast(pieces[1..]);
    } else {
      assert TailText(pieces, false) == PieceText(p) + "" == PieceText(p);
      DollarPiece(p);
    }
  }

  lemma DollarPiece(piece: Piece)
    requires LegalPiece(piece) && EndsInDollar(PieceText(piece))
    ensures piece == Piece(Atom(true, '$'), None)
  {
  }

  /** Full matching means membership in the language exactly for the texts that do not end in an escaped dollar sign. */
  lemma FullMatchIff(text: string, re: Regex)
    requires ReadRegex(text) == Some(re)
    ensures (forall s :: Accepts(text, re, s) <==> InLanguage(re.pieces, s)) <==> !EscapedDollar(text, re)
  {
    if EscapedDollar(text, re) {
      var s := Overmatch(text, re);
      assert Accepts(text, re, s) && !InLanguage(re.pieces, s);
    }
  }

  /** Behind an escaped dollar sign at the end, a full match lets anything follow. */
  lemma Overmatch(text: string, re: Regex) returns (s: string)
    requires ReadRegex(text) == Some(re) && EscapedDollar(text, re)
    ensures AtHead(re.pieces, false, s) && !InLanguage(re.pieces, s)
  {
    hide InLanguage, TailText, ReadRegex, Legal, RegexText;
    ReadIff(text, re);
    TailEnds(re);
    EscapedDollarIsLast(re.pieces);
    var w := Sample(re.pieces);
    s := w + "x";
    assert s[..|w|] == w && !EndsInDollar(s);
    NotAMember(re.pieces, s);
  }

  lemma TailEnds(re: Regex)
    requires EndsInDollar(RegexText(re)) && !re.dollar
    ensures EndsInDollar(TailText(re.pieces, false))
  {
    hide TailText;
  }

  lemma NotAMember(pieces: seq<Piece>, s: string)
    requires pieces != [] && pieces[|pieces| - 1] == Piece(Atom(true, '$'), None) && !EndsInDollar(s)
    ensures !InLanguage(pieces, s)
  {
    if InLanguage(pieces, s) {
      EndsLanguage(pieces, s);
    }
  }

  /** The shortest such text: behind the dollar sign that it asks for, a full match accepts a letter. */
  lemma OvermatchExample()
    ensures var text, re := "\\$", Regex(false, [Piece(Atom(true, '$'), None)], false);
      ReadRegex(text) == Some(re) && EscapedDollar(text, re) && Accepts(text, re, "$x") && !InLanguage(re.pieces, "$x")
  {
    hide ReadRegex;
    var text, piece := "\\$", Piece(Atom(true, '$'), None);
    var re := Regex(false, [piece], false);
    assert PieceText(piece) == text && TailText([piece][1..], false) == "";
    assert TailText([piece], false) == text + "" == text && RegexText(re) == "" + text;
    ReadIff(text, re);
    assert "$x"[..1] == "$" && "$"[..1] == "$" && "$"[1..] == "";
    assert InLanguage([], "") && InLanguage([piece], "$");
    NotAMember([piece], "$x");
  }
}
