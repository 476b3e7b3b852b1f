/** Which numeric references are well formed, judged by their bytes alone, and on which spans the
decoder therefore loses its read cursor. */
module References {
  import opened Options
  import opened Text
  import opened Entities

  predicate DigitByte(c: char, hex: bool) {
    '0' <= c <= '9' || (hex && ('a' <= c <= 'f' || 'A' <= c <= 'F'))
  }

  /** The first `;` behind the `&#` (or `&#x`) at `i` stands at `semi`, and nothing but digits stands
  between it and the `#` (or `x`) at `mark`. */
  predicate Spelled(s: string, i: nat, mark: nat, semi: nat) {
    var hex := At(s, i + 2) == 'x';
    var from := if hex then i + 2 else i + 1;
    from <= mark < semi < |s| && s[mark] == (if hex then 'x' else '#') && s[semi] == ';' &&
    (forall k :: from < k < semi ==> s[k] != ';') &&
    forall k :: mark < k < semi ==> DigitByte(s[k], hex)
  }

  /** The reference at `i` can be read; a `&#` at the very end is taken for an empty one. */
  ghost predicate WellFormed(s: string, i: nat) {
    i + 2 == |s| || exists mark: nat, semi: nat :: Spelled(s, i, mark, semi)
  }

  predicate ReferenceAt(s: string, i: nat) {
    i + 1 < |s| && s[i] == '&' && s[i + 1] == '#'
  }

  ghost predicate Malformed(s: string, i: nat, f: Flags) {
    f.entities && ReferenceAt(s, i) && !WellFormed(s, i)
  }

  lemma DigitByteIs(c: char, hex: bool)
    ensures DigitByte(c, hex) <==> Digit(c, hex).Some?
  {
  }

  lemma FirstSemicolon(s: string, p: nat, semi: nat)
    requires p <= semi < |s| && s[semi] == ';' && forall k :: p <= k < semi ==> s[k] != ';'
    ensures Find(s, p, ";") == Some(semi)
  {
    assert s[semi..semi + 1] == ";";
    forall k | p <= k < semi ensures !HasAt(s, k, ";") {
      if HasAt(s, k, ";") {
        HasAtChar(s, k, ";", 0);
      }
    }
    FindIs(s, p, semi, ";");
  }

  lemma SpelledDigits(s: string, i: nat, mark: nat, semi: nat)
    requires Spelled(s, i, mark, semi)
    ensures AllDigits(s[mark + 1..semi], At(s, i + 2) == 'x')
  {
    var hex, digits := At(s, i + 2) == 'x', s[mark + 1..semi];
    forall k | 0 <= k < |digits| ensures Digit(digits[k], hex).Some? {
      assert digits[k] == s[mark + 1 + k];
      DigitByteIs(s[mark + 1 + k], hex);
    }
  }

  /** A reference that can be read: where it ends, and the digits it is made of. */
  datatype Numeric = Numeric(end: nat, digits: string, hex: bool)

  ghost function Denoted(s: string, i: nat): (r: Option<Numeric>)
    ensures r.Some? <==> exists mark: nat, semi: nat :: Spelled(s, i, mark, semi)
    ensures r.Some? ==> i + 2 + |r.value.digits| < r.value.end <= |s| && AllDigits(r.value.digits, r.value.hex)
  {
    if exists mark: nat, semi: nat :: Spelled(s, i, mark, semi) then
      var mark: nat, semi: nat :| Spelled(s, i, mark, semi);
      SpelledDigits(s, i, mark, semi);
      Some(Numeric(semi + 1, s[mark + 1..semi], At(s, i + 2) == 'x'))
    else None
  }

  /** A reference is spelled in one way. */
  lemma DenotedIs(s: string, i: nat, mark: nat, semi: nat)
    requires Spelled(s, i, mark, semi)
    ensures Denoted(s, i) == Some(Numeric(semi + 1, s[mark + 1..semi], At(s, i + 2) == 'x'))
  {
    forall m: nat, e: nat | Spelled(s, i, m, e) ensures m == mark && e == semi {
      var hex := At(s, i + 2) == 'x';
      assert !(semi < e) && !(e < semi);
      assert !DigitByte(if hex then 'x' else '#', hex);
    }
  }

  /** What a reference that is spelled as it should be reads as. */
  lemma SpelledIsRead(s: string, i: nat, mark: nat, semi: nat)
    requires ReferenceAt(s, i) && i + 2 < |s| && Spelled(s, i, mark, semi)
    ensures var hex, digits := s[i + 2] == 'x', s[mark + 1..semi];
      AllDigits(digits, hex) &&
      CharacterRef(s, i) == Reference(semi + 1, Utf8(WrappedSum(digits, hex, 1) % U64))
  {
    hide Find, LastOf, WrappedSum, Utf8, Digit;
    var hex := s[i + 2] == 'x';
    var from := if hex then i + 2 else i + 1;
    FirstSemicolon(s, from + 1, semi);
    assert LastOf(s, from, semi, s[mark]) == mark by {
      NoMarkBehind(s, i, mark, semi);
    }
    SpelledDigits(s, i, mark, semi);
  }

  lemma NoMarkBehind(s: string, i: nat, mark: nat, semi: nat)
    requires Spelled(s, i, mark, semi)
    ensures forall k :: mark < k < semi ==> s[k] != s[mark]
  {
  }

  lemma ReadIsSpelled(s: string, i: nat) returns (mark: nat, semi: nat)
    requires ReferenceAt(s, i) && i + 2 < |s| && CharacterRef(s, i).Reference?
    ensures Spelled(s, i, mark, semi)
  {
    var hex := s[i + 2] == 'x';
    var from := if hex then i + 2 else i + 1;
    semi := Find(s, from + 1, ";").value;
    HasAtChar(s, semi, ";", 0);
    mark := LastOf(s, from, semi, s[from]);
    forall k | from < k < semi ensures s[k] != ';' {
      assert s[k] == ';' ==> s[k..k + 1] == ";" && HasAt(s, k, ";");
    }
    forall k | mark < k < semi ensures DigitByte(s[k], hex) {
      assert s[k] == s[mark + 1..semi][k - mark - 1];
      DigitByteIs(s[k], hex);
    }
  }

  /** `GetCharacterRef` gives the null pointer exactly for the malformed references. */
  lemma ReferenceIff(s: string, i: nat)
    requires ReferenceAt(s, i)
    ensures CharacterRef(s, i).Null? <==> !WellFormed(s, i)
  {
    hide CharacterRef, Spelled;
    if i + 2 == |s| {
      EndOfSpan(s, i);
    } else {
      if CharacterRef(s, i).Reference? {
        var mark, semi := ReadIsSpelled(s, i);
      }
      if mark: nat, semi: nat :| Spelled(s, i, mark, semi) {
        SpelledIsRead(s, i, mark, semi);
      }
    }
  }

  lemma EndOfSpan(s: string, i: nat)
    requires ReferenceAt(s, i) && i + 2 == |s|
    ensures CharacterRef(s, i).Reference?
  {
  }

  lemma TurnBreaksIff(s: string, i: nat, f: Flags)
    requires i < |s|
    ensures TurnAt(s, i, f).Crash? <==> Malformed(s, i, f)
  {
    hide CharacterRef, WellFormed, EntityAt;
    if ReferenceAt(s, i) {
      ReferenceIff(s, i);
    }
  }

  // ----- spans -----

  /** The read cursor comes from `i` to `j`. */
  predicate Visits(s: string, i: nat, j: nat, f: Flags)
    requires i <= |s|
    decreases |s| - i
  {
    i == j || (i < |s| && !TurnAt(s, i, f).Crash? && Visits(s, TurnAt(s, i, f).next, j, f))
  }

  /** On its way from `i` on, the read cursor comes to a malformed reference. */
  ghost predicate Breaks(s: string, i: nat, f: Flags)
    requires i <= |s|
  {
    exists j: nat :: Visits(s, i, j, f) && Malformed(s, j, f)
  }

  lemma BreaksStep(s: string, i: nat, f: Flags)
    requires i < |s|
    ensures Breaks(s, i, f) <==> Malformed(s, i, f) || (!TurnAt(s, i, f).Crash? && Breaks(s, TurnAt(s, i, f).next, f))
  {
    hide TurnAt, Malformed;
    if Malformed(s, i, f) {
      assert Visits(s, i, i, f);
    }
    if !TurnAt(s, i, f).Crash? && Breaks(s, TurnAt(s, i, f).next, f) {
      var j: nat :| Visits(s, TurnAt(s, i, f).next, j, f) && Malformed(s, j, f);
      assert Visits(s, i, j, f);
    }
  }

  lemma NothingBreaks(s: string, f: Flags)
    ensures !Breaks(s, |s|, f)
  {
  }

  /** The decoder's cursor becomes null exactly when it comes to a malformed reference. */
  lemma {:induction false} DecodeBreaksIff(s: string, i: nat, q: nat, f: Flags)
    requires q <= i <= |s|
    ensures Decode(s, i, q, f).None? <==> Breaks(s, i, f)
    decreases |s| - i
  {
    hide TurnAt, Written, Malformed, Breaks;
    if i == |s| {
      NothingBreaks(s, f);
    } else {
      TurnBreaksIff(s, i, f);
      BreaksStep(s, i, f);
      if !TurnAt(s, i, f).Crash? {
        DecodeBreaksIff(s, TurnAt(s, i, f).next, q + |Written(s, i, q, f)|, f);
      }
    }
  }

  /** A span whose numeric references are all well formed, or that holds none, can be read. */
  lemma WellFormedReads(s: string, f: Flags)
    requires f.entities ==> forall i :: 0 <= i < |s| && ReferenceAt(s, i) ==> WellFormed(s, i)
    ensures Reading(s, f).Some?
  {
    hide WellFormed, Visits, Decode;
    DecodeBreaksIff(s, 0, 0, f);
  }

  /** A letter that is no digit breaks the reading. */
  lemma MalformedExample()
    ensures Reading("&#z;", BOTH).None?
  {
    hide CharacterRef, Decode;
    var s := "&#z;";
    forall mark: nat, semi: nat ensures !Spelled(s, 0, mark, semi) {
      assert s[2] == 'z' && s[1] == '#' && s[3] == ';';
    }
    assert Visits(s, 0, 0, BOTH) && Malformed(s, 0, BOTH);
    DecodeBreaksIff(s, 0, 0, BOTH);
  }
}
