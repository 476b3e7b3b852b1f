/** The simple regular expressions by the codes of their characters, without the tables of the matcher. */
module RegexClasses {
  import opened Options
  import opened SimpleRegex

  /** The codes from 33 to 126 that are no digits and no letters. */
  predicate PunctCode(c: int) {
    33 <= c <= 47 || 58 <= c <= 64 || 91 <= c <= 96 || 123 <= c <= 126
  }

  predicate WordCode(c: int) {
    48 <= c <= 57 || 65 <= c <= 90 || c == 95 || 97 <= c <= 122
  }

  predicate SpaceCode(c: int) {
    9 <= c <= 13 || c == 32
  }

  /** The character of code `c`, behind a backslash or not, stands for the one of code `n`. */
  predicate StandsFor(escaped: bool, c: int, n: int) {
    if !escaped then if c == 46 then n != 10 else n == c
    else if c == 100 then 48 <= n <= 57
    else if c == 68 then !(48 <= n <= 57)
    else if c == 119 then WordCode(n)
    else if c == 87 then !WordCode(n)
    else if c == 115 then SpaceCode(n)
    else if c == 83 then !SpaceCode(n)
    else if c == 116 then n == 9
    else if c == 110 then n == 10
    else if c == 118 then n == 11
    else if c == 102 then n == 12
    else if c == 114 then n == 13
    else n == c
  }

  /** Behind a backslash: punctuation, and the letters of the classes and control characters. */
  predicate EscapeCode(c: int) {
    PunctCode(c) || c in {68, 83, 87, 100, 102, 110, 114, 115, 116, 118, 119}
  }

  /** Without a backslash: anything but the backslash and what has another meaning in other regular expressions. */
  predicate PlainCode(c: int) {
    c !in {36, 40, 41, 42, 43, 63, 91, 92, 93, 94, 123, 124, 125}
  }

  /** Question mark, asterisk and plus sign. */
  predicate CountAllowed(repeat: Option<char>, n: nat) {
    match repeat
    case None => n == 1
    case Some(op) => (op as int == 63 && n <= 1) || op as int == 42 || (op as int == 43 && n >= 1)
  }

  lemma SetCodes(c: char)
    ensures IsAsciiPunct(c) <==> PunctCode(c as int)
    ensures IsAsciiWhiteSpace(c) <==> SpaceCode(c as int)
    ensures IsRepeat(c) <==> c as int in {42, 43, 63}
  {
  }

  /** The legal pieces, by their codes. */
  lemma LegalIff(piece: Piece)
    ensures LegalPiece(piece) <==>
      (if piece.atom.escaped then EscapeCode(piece.atom.c as int) else PlainCode(piece.atom.c as int)) &&
      (piece.repeat.Some? ==> piece.repeat.value as int in {42, 43, 63})
  {
    hide IsAsciiPunct, IsRepeat;
    SetCodes(piece.atom.c);
    if piece.repeat.Some? {
      SetCodes(piece.repeat.value);
    }
  }

  /** What a legal atom matches. */
  lemma ClassIff(atom: Atom, ch: char)
    requires LegalPiece(Piece(atom, None))
    ensures AtomMatchesChar(atom.escaped, atom.c, ch) <==> StandsFor(atom.escaped, atom.c as int, ch as int)
  {
    hide IsAsciiPunct, IsAsciiWhiteSpace;
    SetCodes(ch);
    SetCodes(atom.c);
    LegalIff(Piece(atom, None));
  }

  lemma CountIff(piece: Piece, n: nat)
    requires LegalPiece(piece)
    ensures CountFits(piece.repeat, n) <==> CountAllowed(piece.repeat, n)
  {
  }

  // ----- languages -----

  /** The string falls into one part for each piece, each with an allowed number of characters of its class. */
  ghost predicate Spells(pieces: seq<Piece>, s: string) {
    if pieces == [] then s == ""
    else
      exists k: nat {:trigger s[..k]} :: k <= |s| && CountAllowed(pieces[0].repeat, k) &&
        (forall i :: 0 <= i < k ==> StandsFor(pieces[0].atom.escaped, pieces[0].atom.c as int, s[i] as int)) &&
        Spells(pieces[1..], s[k..])
  }

  lemma PartIff(piece: Piece, s: string, k: nat)
    requires LegalPiece(piece) && k <= |s|
    ensures CountFits(piece.repeat, k) && AllMatch(piece.atom, s[..k]) <==>
      CountAllowed(piece.repeat, k) &&
      forall i :: 0 <= i < k ==> StandsFor(piece.atom.escaped, piece.atom.c as int, s[i] as int)
  {
    hide AtomMatchesChar, StandsFor, CountFits, CountAllowed;
    CountIff(piece, k);
    forall i | 0 <= i < k
      ensures AtomMatchesChar(piece.atom.escaped, piece.atom.c, s[..k][i]) <==>
        StandsFor(piece.atom.escaped, piece.atom.c as int, s[i] as int)
    {
      ClassIff(piece.atom, s[i]);
    }
  }

  /** The language of some pieces, by the codes of the characters. */
  lemma {:induction false} LanguageIff(pieces: seq<Piece>, s: string)
    requires Legal(pieces)
    ensures InLanguage(pieces, s) <==> Spells(pieces, s)
    decreases |pieces|
  {
    hide CountFits, CountAllowed, AllMatch, StandsFor, LegalPiece;
    if pieces != [] {
      assert LegalPiece(pieces[0]);
      forall k: nat | k <= |s|
        ensures CountFits(pieces[0].repeat, k) && AllMatch(pieces[0].atom, s[..k]) <==>
          CountAllowed(pieces[0].repeat, k) &&
          forall i :: 0 <= i < k ==> StandsFor(pieces[0].atom.escaped, pieces[0].atom.c as int, s[i] as int)
        ensures InLanguage(pieces[1..], s[k..]) <==> Spells(pieces[1..], s[k..])
      {
        PartIff(pieces[0], s, k);
        LanguageIff(pieces[1..], s[k..]);
      }
    }
  }

  /** A match anywhere: some part of the string that the pieces spell, at the beginning or end if that is asked for. */
  lemma AnywhereIff(re: Regex, s: string)
    requires Legal(re.pieces)
    ensures Anywhere(re, s) <==>
      exists i: nat, j: nat {:trigger s[i..j]} :: i <= j <= |s| && (re.caret ==> i == 0) && (re.dollar ==> j == |s|) &&
        Spells(re.pieces, s[i..j])
  {
    hide InLanguage, Spells, Legal;
    forall i: nat, j: nat | i <= j <= |s| ensures InLanguage(re.pieces, s[i..j]) <==> Spells(re.pieces, s[i..j]) {
      LanguageIff(re.pieces, s[i..j]);
    }
  }

  // ----- examples -----

  lemma TailCons(piece: Piece, pieces: seq<Piece>)
    ensures TailText([], true) == "$"
    ensures TailText([piece] + pieces, true) == PieceText(piece) + TailText(pieces, true)
  {
    assert ([piece] + pieces)[1..] == pieces;
  }

  /** Anchors, a character, an escape sequence and a repetition. */
  lemma ReadExample()
    ensures ReadRegex("^a\\d+$") ==
      Some(Regex(true, [Piece(Atom(false, 'a'), None), Piece(Atom(true, 'd'), Some('+'))], true))
  {
    hide ReadRegex, LegalPiece, TailText;
    var a, d := Piece(Atom(false, 'a'), None), Piece(Atom(true, 'd'), Some('+'));
    LegalIff(a);
    LegalIff(d);
    TailCons(d, []);
    TailCons(a, [d]);
    assert [d] + [] == [d] && [a] + [d] == [a, d];
    ReadIff("^a\\d+$", Regex(true, [a, d], true));
  }

  /** A caret binds a match to the beginning, and a dollar sign to the end. */
  lemma AnchorExample()
    ensures var a := Piece(Atom(false, 'a'), None);
      Anywhere(Regex(true, [a], false), "ab") && !Anywhere(Regex(true, [a], false), "ba") &&
      Anywhere(Regex(false, [a], true), "ba") && !Anywhere(Regex(false, [a], true), "ab")
  {
    hide Anywhere, InLanguage, Spells;
    var a := Piece(Atom(false, 'a'), None);
    LegalIff(a);
    AnywhereIff(Regex(true, [a], false), "ab");
    AnywhereIff(Regex(true, [a], false), "ba");
    AnywhereIff(Regex(false, [a], true), "ba");
    AnywhereIff(Regex(false, [a], true), "ab");
    forall s ensures Spells([a], s) <==> s == "a" {
      OnlyA(a, s);
    }
    assert "ab"[0..1] == "a" && "ba"[1..2] == "a";
    forall j: nat | j <= 2 ensures "ba"[0..j] != "a" {
      assert j == 1 ==> "ba"[0..1] == "b";
    }
    forall i: nat | i <= 2 ensures "ab"[i..2] != "a" {
      assert i == 1 ==> "ab"[1..2] == "b";
    }
  }

  lemma OnlyA(a: Piece, s: string)
    requires a == Piece(Atom(false, 'a'), None)
    ensures Spells([a], s) <==> s == "a"
  {
    hide Spells;
    assert [a] + [] == [a];
    SpellsFirst(a, [], s);
    if s != "" {
      SpellsNothing(s[1..]);
    }
  }

  /** A digit is found where there is one, and not in a letter. */
  lemma DigitExample()
    ensures ReadRegex("\\d") == Some(Regex(false, [Piece(Atom(true, 'd'), None)], false))
    ensures var re := Regex(false, [Piece(Atom(true, 'd'), None)], false); Anywhere(re, "5") && !Anywhere(re, "a")
  {
    hide ReadRegex, Anywhere;
    var d := Piece(Atom(true, 'd'), None);
    var re := Regex(false, [d], false);
    LegalIff(d);
    assert [d][1..] == [];
    assert TailText([], false) == "" && TailText([d], false) == "\\d";
    ReadIff("\\d", re);
    AnywhereIff(re, "5");
    AnywhereIff(re, "a");
    OneDigit(d, "5");
    assert "5"[0..1] == "5";
    forall i: nat, j: nat | i <= j <= 1 ensures !Spells([d], "a"[i..j]) {
      OneDigit(d, "a"[i..j]);
    }
  }

  lemma OneDigit(d: Piece, s: string)
    requires d == Piece(Atom(true, 'd'), None)
    ensures Spells([d], s) <==> |s| == 1 && 48 <= s[0] as int <= 57
  {
    hide Spells;
    assert [d] + [] == [d];
    SpellsFirst(d, [], s);
    if s != "" {
      SpellsNothing(s[1..]);
    }
  }

  lemma SpellsNothing(s: string)
    ensures Spells([], s) <==> s == ""
  {
  }

  /** Without a repetition, a piece stands for one character. */
  lemma SpellsFirst(piece: Piece, others: seq<Piece>, s: string)
    requires piece.repeat.None?
    ensures Spells([piece] + others, s) <==>
      s != "" && StandsFor(piece.atom.escaped, piece.atom.c as int, s[0] as int) && Spells(others, s[1..])
  {
    hide StandsFor;
    var all := [piece] + others;
    assert all[1..] == others && all[0] == piece;
    assert s != "" ==> |s[..1]| == 1;
    if Spells(all, s) {
      var k: nat :| k <= |s| && CountAllowed(piece.repeat, k) &&
        (forall i :: 0 <= i < k ==> StandsFor(piece.atom.escaped, piece.atom.c as int, s[i] as int)) &&
        Spells(others, s[k..]);
      OnlyOnce(piece.repeat, k);
    }
  }

  lemma OnlyOnce(repeat: Option<char>, k: nat)
    requires repeat.None? && CountAllowed(repeat, k)
    ensures k == 1
  {
  }
}
