/** Line breaks as section 2.11 of XML 1.0 normalises them, and as the decoder does. */
module LineBreaks {
  import opened Options
  import opened Text
  import opened Entities
  import opened References
  import opened IdealReading

  /** Each CR LF becomes one LF, and so does each CR alone; everything else stays. */
  function Lines(s: string, i: nat): string
    requires i <= |s|
    decreases |s| - i
  {
    if i == |s| then ""
    else if s[i] == CR then [LF] + Lines(s, if At(s, i + 1) == LF then i + 2 else i + 1)
    else [s[i]] + Lines(s, i + 1)
  }

  /** The intended reading with line breaks as in that section: a LF never takes a CR behind it along. */
  ghost function Standard(s: string, i: nat, f: Flags): string
    requires i <= |s|
    decreases |s| - i
  {
    if i == |s| then ""
    else if f.newlines && s[i] == LF then [LF] + Standard(s, i + 1, f)
    else IdealStep(s, i, f).bytes + Standard(s, IdealStep(s, i, f).next, f)
  }

  /** Each pair LF CR that is taken for one break is followed at once by another LF. */
  ghost predicate PairsFollowed(s: string, i: nat, f: Flags)
    requires i <= |s|
    decreases |s| - i
  {
    i == |s| ||
    ((f.newlines && s[i] == LF && At(s, i + 1) == CR ==> At(s, i + 2) == LF) &&
     PairsFollowed(s, IdealStep(s, i, f).next, f))
  }

  lemma PairStep(s: string, i: nat, f: Flags)
    requires i < |s| && f.newlines && s[i] == LF && At(s, i + 1) == CR
    ensures IdealStep(s, i, f) == Step(i + 2, [LF])
    ensures At(s, i + 2) == LF ==> Standard(s, i + 1, f) == Standard(s, i + 2, f)
    ensures At(s, i + 2) != LF ==> Standard(s, i + 1, f) == [LF] + Standard(s, i + 2, f)
  {
    hide EntityAt, Denoted;
  }

  lemma OtherBreak(s: string, i: nat, f: Flags)
    requires i < |s| && f.newlines && s[i] == LF && At(s, i + 1) != CR
    ensures IdealStep(s, i, f) == Step(i + 1, [LF])
  {
    hide EntityAt, Denoted;
  }

  /** The intended reading, with its one break for LF CR, follows the section exactly when each such pair
  is followed by another LF; otherwise it loses breaks. */
  lemma {:induction false} StandardIff(s: string, i: nat, f: Flags)
    requires i <= |s|
    ensures |Ideal(s, i, f)| <= |Standard(s, i, f)|
    ensures Ideal(s, i, f) == Standard(s, i, f) <==> PairsFollowed(s, i, f)
    decreases |s| - i
  {
    hide IdealStep;
    if i < |s| {
      var t := IdealStep(s, i, f);
      StandardIff(s, t.next, f);
      PrefixedInjective(t.bytes, t.bytes, Ideal(s, t.next, f), Standard(s, t.next, f));
      if f.newlines && s[i] == LF {
        if At(s, i + 1) == CR {
          PairStep(s, i, f);
        } else {
          OtherBreak(s, i, f);
        }
      }
    }
  }

  lemma {:induction false} StandardIsLines(s: string, i: nat)
    requires i <= |s|
    ensures Standard(s, i, NEWLINES) == Lines(s, i)
    decreases |s| - i
  {
    hide EntityAt, Denoted;
    if i < |s| {
      StandardIsLines(s, if s[i] == CR && At(s, i + 1) == LF then i + 2 else i + 1);
    }
  }

  /** Where only line breaks are looked at, decoding never fails, is what it is meant to be, and leaves no CR. */
  lemma {:induction false} NewlinesOnly(s: string, i: nat, q: nat)
    requires q <= i <= |s|
    ensures Decode(s, i, q, NEWLINES) == Some(Ideal(s, i, NEWLINES)) && CR !in Ideal(s, i, NEWLINES)
    decreases |s| - i
  {
    hide Decode, Ideal, TurnAt, IdealStep, Written;
    if i == |s| {
      Nothing(s, q, NEWLINES);
    } else {
      var t := IdealStep(s, i, NEWLINES);
      NewlineStep(s, i);
      TurnAndStep(s, i, q, NEWLINES);
      Unfolded(s, i, q, NEWLINES);
      NewlinesOnly(s, t.next, q + |t.bytes|);
      NotInConcat(t.bytes, Ideal(s, t.next, NEWLINES));
    }
  }

  lemma NewlineStep(s: string, i: nat)
    requires i < |s|
    ensures CR !in IdealStep(s, i, NEWLINES).bytes
  {
    hide EntityAt, Denoted;
  }

  /** Where only line breaks are normalised, the decoder agrees with the section exactly when each pair
  LF CR that it takes is followed at once by another LF. */
  lemma LinesIff(s: string)
    ensures Reading(s, NEWLINES) == Some(Lines(s, 0)) <==> PairsFollowed(s, 0, NEWLINES)
  {
    hide Decode, Ideal, Standard, PairsFollowed, Lines;
    NewlinesOnly(s, 0, 0);
    StandardIff(s, 0, NEWLINES);
    StandardIsLines(s, 0);
  }

  /** One break is lost. */
  lemma LostBreak()
    ensures Reading("\n\r", NEWLINES) == Some("\n") && Lines("\n\r", 0) == "\n\n"
  {
    var s, f := "\n\r", NEWLINES;
    assert TurnAt(s, 0, f) == Put(2, [LF]);
    assert Decode(s, 2, 1, f) == Some([]) && [LF] + [] == [LF];
    assert Lines(s, 2) == "" && Lines(s, 1) == [LF] + "";
  }
}
