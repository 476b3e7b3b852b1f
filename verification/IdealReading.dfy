/** How a span is meant to be read, judged by its bytes, and exactly when the decoder reads it so. */
module IdealReading {
  import opened Options
  import opened Text
  import opened Entities
  import opened References

  // ----- the number that the code makes of a reference -----

  function Power(b: nat, k: nat): nat {
    if k == 0 then 1 else Power(b, k - 1) * b
  }

  /** Each digit times the power of its place, modulo 2^32; the last digit stands at place `k`. */
  function Products(d: string, hex: bool, k: nat): nat
    requires AllDigits(d, hex)
  {
    if d == [] then 0
    else Digit(d[|d| - 1], hex).value * Power(Base(hex), k) % U32 + Products(d[..|d| - 1], hex, k + 1)
  }

  lemma ModPlus(q: nat, x: nat)
    ensures (q * U32 + x) % U32 == x % U32
  {
  }

  lemma ModProduct(a: nat, b: nat)
    ensures a % U32 * b % U32 == a * b % U32
  {
    var q, r := a / U32, a % U32;
    assert a * b == (q * U32 + r) * b == (q * b) * U32 + r * b;
    ModPlus(q * b, r * b);
  }

  /** The running multiplier is the power of the place, so the sum of the code is that of the products. */
  lemma {:induction false} SumIsProducts(d: string, hex: bool, k: nat)
    requires AllDigits(d, hex)
    ensures WrappedSum(d, hex, Power(Base(hex), k) % U32) == Products(d, hex, k)
  {
    if d != [] {
      var p, digit := Power(Base(hex), k), Digit(d[|d| - 1], hex).value;
      ModProduct(p, digit);
      ModProduct(p, Base(hex));
      SumIsProducts(d[..|d| - 1], hex, k + 1);
    }
  }

  lemma {:induction false} HighPower(k: nat)
    requires 8 <= k
    ensures Power(16, k) == Power(16, k - 8) * U32
  {
    if k == 8 {
      LowPower(8);
    } else {
      HighPower(k - 1);
      assert Power(16, k - 9) * U32 * 16 == Power(16, k - 9) * 16 * U32;
    }
  }

  lemma {:induction false} LowPower(k: nat)
    requires k <= 8
    ensures k < 8 ==> exists n: nat :: 16 * Power(16, k) * n == U32
    ensures k == 8 ==> Power(16, k) == U32
  {
    assert Power(16, 0) == 1 && Power(16, 1) == 16 && Power(16, 2) == 0x100 && Power(16, 3) == 0x1000;
    assert Power(16, 4) == 0x1_0000 && Power(16, 5) == 0x10_0000 && Power(16, 6) == 0x100_0000;
    assert Power(16, 7) == 0x1000_0000 && Power(16, 8) == U32;
    var n := if k == 0 then 0x1000_0000 else if k == 1 then 0x100_0000 else if k == 2 then 0x10_0000
      else if k == 3 then 0x1_0000 else if k == 4 then 0x1000 else if k == 5 then 0x100 else if k == 6 then 16 else 1;
    assert k < 8 ==> 16 * Power(16, k) * n == U32;
  }

  lemma Scaled(high: nat, n: nat, r: nat, a: nat, p: nat)
    requires high == a * n + r && 16 * p * n == U32
    ensures high * (p * 16) == a * U32 + 16 * p * r
  {
    assert (a * n + r) * (16 * p) == a * (16 * p * n) + 16 * p * r;
  }

  lemma Room(x: nat, r: nat, n: nat, p: nat)
    requires x < 16 && r < n && 16 * p * n == U32
    ensures 16 * p * r + x * p < U32
  {
    assert x * p <= 15 * p && 0 < p;
    assert 16 * p * r <= 16 * p * (n - 1) == 16 * p * n - 16 * p;
  }

  lemma AddParts(low: nat, rest: nat, a: nat, u: nat)
    requires u == a * U32 + rest && rest + low < U32
    ensures low % U32 + u % U32 == (u + low) % U32
  {
  }

  lemma Quotient(high: nat, n: nat) returns (a: nat, r: nat)
    requires 0 < n
    ensures high == a * n + r && r < n
  {
    a, r := high / n, high % n;
  }

  lemma Distribute(x: nat, high: nat, p: nat)
    ensures (high * 16 + x) * p == high * (p * 16) + x * p
  {
  }

  /** A hexadecimal digit and the digits in front of it do not carry into each other. */
  lemma NoCarry(x: nat, high: nat, p: nat, n: nat)
    requires x < 16 && 16 * p * n == U32
    ensures x * p % U32 + high * (p * 16) % U32 == (high * 16 + x) * p % U32
  {
    assert n == 0 ==> 16 * p * n == 0;
    var a, r := Quotient(high, n);
    Scaled(high, n, r, a, p);
    Room(x, r, n, p);
    Distribute(x, high, p);
    AddParts(x * p, 16 * p * r, a, high * (p * 16));
  }

  /** In hexadecimal the code keeps the last 32 bits of the number. */
  lemma {:induction false} HexProducts(d: string, k: nat)
    requires AllDigits(d, true)
    ensures Products(d, true, k) == Positional(d, true) * Power(16, k) % U32
  {
    if d != [] {
      var rest, x, p := d[..|d| - 1], Digit(d[|d| - 1], true).value, Power(16, k);
      var high := Positional(rest, true);
      HexProducts(rest, k + 1);
      if k < 8 {
        LowPower(k);
        var n: nat :| 16 * p * n == U32;
        NoCarry(x, high, p, n);
      } else {
        HighPower(k);
        HighPower(k + 1);
        MultipleOf(x, Power(16, k - 8));
        MultipleOf(high, Power(16, k - 7));
        MultipleOf(high * 16 + x, Power(16, k - 8));
      }
    }
  }

  lemma MultipleOf(x: nat, y: nat)
    ensures x * (y * U32) % U32 == 0
  {
    assert x * (y * U32) == (x * y) * U32 + 0;
    ModPlus(x * y, 0);
  }

  /** The number does not fit into 32 bits, and what is left of it is one that is written. */
  predicate Wraps(d: string, hex: bool)
    requires AllDigits(d, hex)
  {
    U32 <= Positional(d, hex) && Products(d, hex, 0) % U64 < 0x20_0000
  }

  lemma WrapsHex(d: string)
    requires AllDigits(d, true)
    ensures Wraps(d, true) <==> U32 <= Positional(d, true) && Positional(d, true) % U32 < 0x20_0000
  {
    HexProducts(d, 0);
    assert Products(d, true, 0) < U64;
  }

  lemma WrittenIff(c: nat)
    ensures Utf8(c) == "" <==> 0x20_0000 <= c
  {
  }

  /** Unless the number wraps, its bytes are written; if it does, bytes are written in place of none. */
  lemma BytesIff(d: string, hex: bool)
    requires AllDigits(d, hex)
    ensures Utf8(WrappedSum(d, hex, 1) % U64) == Utf8(Positional(d, hex)) <==> !Wraps(d, hex)
    ensures WrappedSum(d, hex, 1) == Products(d, hex, 0)
    ensures Wraps(d, hex) ==> Utf8(Positional(d, hex)) == "" && Utf8(Products(d, hex, 0) % U64) != ""
  {
    hide WrappedSum, Products, Positional, Utf8, AllDigits;
    assert Power(Base(hex), 0) % U32 == 1;
    SumIsProducts(d, hex, 0);
    WrittenIff(WrappedSum(d, hex, 1) % U64);
    WrittenIff(Positional(d, hex));
    if Positional(d, hex) < U32 {
      SumIsPositional(d, hex, 1);
    }
  }

  // ----- how a span is meant to be read -----

  /** Where the reading goes on, and what it has read. */
  datatype Step = Step(next: nat, bytes: string)

  /** A known entity stands for its character, a numeric reference for the number that its digits denote,
  and any other ampersand for itself. */
  ghost function IdealStep(s: string, i: nat, f: Flags): (t: Step)
    requires i < |s|
    ensures i < t.next <= |s| && |t.bytes| <= t.next - i
  {
    if f.newlines && s[i] == CR then Step(if At(s, i + 1) == LF then i + 2 else i + 1, [LF])
    else if f.newlines && s[i] == LF then Step(if At(s, i + 1) == CR then i + 2 else i + 1, [LF])
    else if f.entities && s[i] == '&' then
      match EntityAt(s, i, 0)
      case Some(e) => Step(i + |e.pattern| + 2, [e.value])
      case None =>
        if ReferenceAt(s, i) && Denoted(s, i).Some? then
          var n := Denoted(s, i).value;
          Step(n.end, Utf8(Positional(n.digits, n.hex)))
        else Step(i + 1, "&")
    else Step(i + 1, [s[i]])
  }

  ghost function Ideal(s: string, i: nat, f: Flags): string
    requires i <= |s|
    decreases |s| - i
  {
    if i == |s| then "" else IdealStep(s, i, f).bytes + Ideal(s, IdealStep(s, i, f).next, f)
  }

  // ----- the ways to fail -----

  /** An unknown entity whose ampersand is not written, while another byte lies at the write position. */
  predicate MeetsStaleByte(s: string, i: nat, q: nat, f: Flags)
    requires q <= i < |s|
  {
    f.entities && s[i] == '&' && At(s, i + 1) != '#' && EntityAt(s, i, 0).None? && s[q] != '&'
  }

  /** A `&#` at the very end, whose ampersand is dropped. */
  predicate EndsTheSpan(s: string, i: nat, f: Flags) {
    f.entities && ReferenceAt(s, i) && i + 2 == |s|
  }

  /** A reference to a number that wraps. */
  ghost predicate ReadsWrapped(s: string, i: nat, f: Flags) {
    f.entities && ReferenceAt(s, i) && Denoted(s, i).Some? &&
    Wraps(Denoted(s, i).value.digits, Denoted(s, i).value.hex)
  }

  /** What is written in place of a number that wraps. */
  ghost function Remainder(s: string, i: nat): string
    requires Denoted(s, i).Some?
  {
    Utf8(Products(Denoted(s, i).value.digits, Denoted(s, i).value.hex, 0) % U64)
  }

  /** None of these, and no malformed reference either. */
  ghost predicate Succeeds(s: string, i: nat, q: nat, f: Flags)
    requires q <= i < |s|
  {
    !Malformed(s, i, f) && !MeetsStaleByte(s, i, q, f) && !EndsTheSpan(s, i, f) && !ReadsWrapped(s, i, f)
  }

  /** What `CharacterRef` makes of a reference, in terms of its digits. */
  lemma ReferenceReads(s: string, i: nat)
    requires ReferenceAt(s, i)
    ensures i + 2 == |s| ==> Denoted(s, i).None? && CharacterRef(s, i) == Reference(i + 1, "")
    ensures i + 2 < |s| && Denoted(s, i).None? ==> CharacterRef(s, i).Null?
    ensures i + 2 < |s| && Denoted(s, i).Some? ==>
      var n := Denoted(s, i).value;
      CharacterRef(s, i) == Reference(n.end, Utf8(WrappedSum(n.digits, n.hex, 1) % U64))
  {
    hide CharacterRef, Spelled, WrappedSum, Utf8;
    ReferenceIff(s, i);
    if mark: nat, semi: nat :| Spelled(s, i, mark, semi) {
      SpelledInside(s, i, mark, semi);
      DenotedIs(s, i, mark, semi);
      SpelledIsRead(s, i, mark, semi);
    }
    EmptyReference(s, i);
  }

  lemma SpelledInside(s: string, i: nat, mark: nat, semi: nat)
    requires Spelled(s, i, mark, semi)
    ensures i + 2 < |s|
  {
  }

  lemma EmptyReference(s: string, i: nat)
    requires ReferenceAt(s, i)
    ensures i + 2 == |s| ==> CharacterRef(s, i) == Reference(i + 1, "")
  {
  }

  lemma NoEntityAtReference(s: string, i: nat)
    requires ReferenceAt(s, i)
    ensures EntityAt(s, i, 0).None?
  {
    hide HasAt;
    if EntityAt(s, i, 0).Some? {
      var e := EntityAt(s, i, 0).value;
      HasAtChar(s, i + 1, e.pattern, 0);
    }
  }

  /** A turn of the code and the step it should be: they go on at one place, and differ in one of three ways. */
  lemma TurnAndStep(s: string, i: nat, q: nat, f: Flags)
    requires q <= i < |s| && !Malformed(s, i, f)
    ensures !TurnAt(s, i, f).Crash? && TurnAt(s, i, f).next == IdealStep(s, i, f).next
    ensures Succeeds(s, i, q, f) ==> Written(s, i, q, f) == IdealStep(s, i, f).bytes
    ensures MeetsStaleByte(s, i, q, f) ==>
      Written(s, i, q, f) == [s[q]] && s[q] != '&' && IdealStep(s, i, f).bytes == "&"
    ensures EndsTheSpan(s, i, f) ==> Written(s, i, q, f) == "" && IdealStep(s, i, f) == Step(i + 1, "&")
    ensures ReadsWrapped(s, i, f) ==>
      Written(s, i, q, f) == Remainder(s, i) != "" && IdealStep(s, i, f).bytes == "" && !EndsTheSpan(s, i, f)
  {
    hide CharacterRef, EntityAt, WellFormed, Wraps, Utf8, WrappedSum, Positional, Products;
    if ReferenceAt(s, i) {
      ReferenceReads(s, i);
      NoEntityAtReference(s, i);
      ReferenceIff(s, i);
      if Denoted(s, i).Some? {
        BytesIff(Denoted(s, i).value.digits, Denoted(s, i).value.hex);
      }
    }
    TurnBreaksIff(s, i, f);
  }

  // ----- exactly when the decoder reads as it is meant -----

  /** No step fails on the way from `i` on, with `q` bytes written before. */
  ghost predicate NoneFails(s: string, i: nat, q: nat, f: Flags)
    requires q <= i <= |s|
    decreases |s| - i
  {
    i == |s| ||
    (Succeeds(s, i, q, f) && NoneFails(s, IdealStep(s, i, f).next, q + |IdealStep(s, i, f).bytes|, f))
  }

  /** From `i` on nothing but ampersands is read, up to a `&#` that ends the span. */
  ghost predicate Ampersands(s: string, i: nat, q: nat, f: Flags)
    requires q <= i <= |s|
    decreases |s| - i
  {
    i < |s| &&
    (EndsTheSpan(s, i, f) ||
     (Succeeds(s, i, q, f) && AllAre(IdealStep(s, i, f).bytes, '&') &&
      Ampersands(s, IdealStep(s, i, f).next, q + |IdealStep(s, i, f).bytes|, f)))
  }

  predicate AllAre(u: string, c: char) {
    forall k :: 0 <= k < |u| ==> u[k] == c
  }

  /** Two failures make up for each other: a number that wraps to an ampersand, where nothing should be
  read, and the ampersand dropped at the end, with only ampersands between them. */
  ghost predicate Cancels(s: string, i: nat, q: nat, f: Flags)
    requires q <= i <= |s|
    decreases |s| - i
  {
    i < |s| &&
    ((ReadsWrapped(s, i, f) && Remainder(s, i) == "&" && Ampersands(s, IdealStep(s, i, f).next, q + 1, f)) ||
     (Succeeds(s, i, q, f) && Cancels(s, IdealStep(s, i, f).next, q + |IdealStep(s, i, f).bytes|, f)))
  }

  /** One turn and one step, with what follows them. */
  lemma Unfolded(s: string, i: nat, q: nat, f: Flags)
    requires q <= i < |s|
    ensures Malformed(s, i, f) ==> Decode(s, i, q, f).None?
    ensures !Malformed(s, i, f) ==>
      var t := IdealStep(s, i, f);
      !TurnAt(s, i, f).Crash? && q + |Written(s, i, q, f)| <= t.next &&
      Decode(s, i, q, f) == Prefixed(Written(s, i, q, f), Decode(s, t.next, q + |Written(s, i, q, f)|, f))
    ensures Ideal(s, i, f) == IdealStep(s, i, f).bytes + Ideal(s, IdealStep(s, i, f).next, f)
  {
    hide TurnAt, Written, Malformed, IdealStep;
    TurnBreaksIff(s, i, f);
    if !Malformed(s, i, f) {
      TurnAndStep(s, i, q, f);
    }
  }

  /** Behind the ampersand of a final `&#`, only the `#` is left. */
  lemma LastHash(s: string, q: nat, f: Flags)
    requires 2 <= |s| && q <= |s| - 1 && s[|s| - 1] == '#'
    ensures Decode(s, |s| - 1, q, f) == Some("#") && Ideal(s, |s| - 1, f) == "#"
  {
    hide CharacterRef, EntityAt;
    assert Decode(s, |s|, q + 1, f) == Some("") && Ideal(s, |s|, f) == "";
    assert "#" + "" == "#";
  }

  /** At most the one ampersand of a final `&#` is lost; all other failures keep or add bytes. */
  lemma {:induction false} Lengths(s: string, i: nat, q: nat, f: Flags)
    requires q <= i <= |s|
    ensures Decode(s, i, q, f).Some? ==> |Ideal(s, i, f)| <= |Decode(s, i, q, f).value| + 1
    decreases |s| - i
  {
    hide TurnAt, Written, IdealStep, Decode, Ideal, Succeeds, Malformed, MeetsStaleByte, EndsTheSpan, ReadsWrapped;
    if i == |s| {
      Nothing(s, q, f);
    } else {
      Unfolded(s, i, q, f);
      if !Malformed(s, i, f) {
        TurnAndStep(s, i, q, f);
        OneOfThem(s, i, q, f);
        if EndsTheSpan(s, i, f) {
          EndIs(s, i, f);
          LastHash(s, q, f);
        } else {
          Lengths(s, IdealStep(s, i, f).next, q + |Written(s, i, q, f)|, f);
        }
      }
    }
  }

  lemma Nothing(s: string, q: nat, f: Flags)
    requires q <= |s|
    ensures Decode(s, |s|, q, f) == Some("") && Ideal(s, |s|, f) == ""
  {
  }

  lemma OneOfThem(s: string, i: nat, q: nat, f: Flags)
    requires q <= i < |s| && !Malformed(s, i, f)
    ensures Succeeds(s, i, q, f) || MeetsStaleByte(s, i, q, f) || EndsTheSpan(s, i, f) || ReadsWrapped(s, i, f)
    ensures Succeeds(s, i, q, f) ==> !MeetsStaleByte(s, i, q, f) && !EndsTheSpan(s, i, f) && !ReadsWrapped(s, i, f)
    ensures MeetsStaleByte(s, i, q, f) ==> !EndsTheSpan(s, i, f) && !ReadsWrapped(s, i, f)
  {
    hide Denoted, EntityAt;
  }

  lemma EndIs(s: string, i: nat, f: Flags)
    requires EndsTheSpan(s, i, f)
    ensures i + 2 == |s| && s[|s| - 1] == '#'
  {
  }

  /** A letter in front moves along a text exactly if the text repeats it. */
  lemma {:induction false} Slide(b: char, p: string, d: string, w: string)
    ensures [b] + (p + d) == p + w <==> AllAre(p, b) && [b] + d == w
    decreases |p|
  {
    if p == "" {
      assert p + d == d && p + w == w;
    } else {
      var c, rest := p[0], p[1..];
      Slide(c, rest, d, w);
      assert p == [c] + rest;
      assert [b] + (p + d) == [b] + ([c] + (rest + d)) && p + w == [c] + (rest + w);
      PrefixedInjective([b], [c], [c] + (rest + d), rest + w);
      assert [b] == [c] <==> b == c;
    }
  }

  /** A byte too many in front is made up for exactly if it is an ampersand, and so is everything read up
  to a final `&#`. */
  lemma {:induction false} Shifted(s: string, i: nat, q: nat, f: Flags, b: char)
    requires q <= i <= |s|
    ensures Prefixed([b], Decode(s, i, q, f)) == Some(Ideal(s, i, f)) <==> b == '&' && Ampersands(s, i, q, f)
    decreases |s| - i
  {
    hide TurnAt, Written, IdealStep, Decode, Ideal, Succeeds, Malformed, MeetsStaleByte, EndsTheSpan, ReadsWrapped,
      Remainder;
    if i == |s| {
      Nothing(s, q, f);
    } else {
      Unfolded(s, i, q, f);
      if Malformed(s, i, f) {
        MalformedFails(s, i, q, f);
      } else {
        var t, c := IdealStep(s, i, f), Written(s, i, q, f);
        TurnAndStep(s, i, q, f);
        OneOfThem(s, i, q, f);
        if EndsTheSpan(s, i, f) {
          EndIs(s, i, f);
          LastHash(s, q, f);
          HashBehind(b);
        } else if Decode(s, t.next, q + |c|, f).None? {
          Shifted(s, t.next, q + |c|, f, '&');
        } else {
          var d, w := Decode(s, t.next, q + |c|, f).value, Ideal(s, t.next, f);
          if Succeeds(s, i, q, f) {
            Slide(b, c, d, w);
            Shifted(s, t.next, q + |c|, f, b);
          } else if MeetsStaleByte(s, i, q, f) {
            PrefixedInjective([b], "&", [s[q]] + d, w);
            Shifted(s, t.next, q + |c|, f, s[q]);
          } else {
            Lengths(s, t.next, q + |c|, f);
            assert |[b] + (c + d)| > |"" + w|;
          }
        }
      }
    }
  }

  lemma MalformedFails(s: string, i: nat, q: nat, f: Flags)
    requires q <= i < |s| && Malformed(s, i, f)
    ensures !Succeeds(s, i, q, f) && !ReadsWrapped(s, i, f) && !EndsTheSpan(s, i, f)
  {
    hide Spelled;
  }

  /** Only a single byte can make up for a lost one. */
  lemma OneByte(c: string, d: string, w: string)
    requires c != "" && |w| <= |d| + 1
    ensures c + d == "" + w <==> |c| == 1 && [c[0]] + d == w
    ensures c == "&" <==> |c| == 1 && c[0] == '&'
  {
    assert "" + w == w;
    assert |c| == 1 ==> c == [c[0]];
  }

  lemma HashBehind(b: char)
    ensures [b] + ("" + "#") == "&" + "#" <==> b == '&'
  {
    assert ([b] + ("" + "#"))[0] == b && ("&" + "#")[0] == '&';
    assert b == '&' ==> [b] + ("" + "#") == "&" + "#";
  }

  /** The decoder reads a span as it is meant exactly if no step fails, or if two failures cancel out. */
  lemma {:induction false} DecodeIsIdealIff(s: string, i: nat, q: nat, f: Flags)
    requires q <= i <= |s|
    ensures Decode(s, i, q, f) == Some(Ideal(s, i, f)) <==> NoneFails(s, i, q, f) || Cancels(s, i, q, f)
    decreases |s| - i
  {
    hide TurnAt, Written, IdealStep, Decode, Ideal, Succeeds, Malformed, MeetsStaleByte, EndsTheSpan, ReadsWrapped,
      Remainder, Ampersands;
    if i == |s| {
      Nothing(s, q, f);
    } else {
      Unfolded(s, i, q, f);
      if Malformed(s, i, f) {
        MalformedFails(s, i, q, f);
      } else {
        var t, c := IdealStep(s, i, f), Written(s, i, q, f);
        TurnAndStep(s, i, q, f);
        OneOfThem(s, i, q, f);
        if EndsTheSpan(s, i, f) {
          EndIs(s, i, f);
          LastHash(s, q, f);
        } else if Decode(s, t.next, q + |c|, f).None? {
          DecodeIsIdealIff(s, t.next, q + |c|, f);
          Shifted(s, t.next, q + |c|, f, '&');
        } else {
          var d, w := Decode(s, t.next, q + |c|, f).value, Ideal(s, t.next, f);
          if Succeeds(s, i, q, f) {
            PrefixedInjective(c, c, d, w);
            DecodeIsIdealIff(s, t.next, q + |c|, f);
          } else if MeetsStaleByte(s, i, q, f) {
            PrefixedInjective(c, "&", d, w);
          } else {
            Lengths(s, t.next, q + |c|, f);
            Shifted(s, t.next, q + |c|, f, c[0]);
            OneByte(c, d, w);
          }
        }
      }
    }
  }

  /** Unless a `&#` ends the span, there is nothing to cancel a failure out with. */
  lemma {:induction false} NothingCancels(s: string, i: nat, q: nat, f: Flags)
    requires q <= i <= |s| && !(2 <= |s| && EndsTheSpan(s, |s| - 2, f))
    ensures !Ampersands(s, i, q, f) && !Cancels(s, i, q, f)
    decreases |s| - i
  {
    hide IdealStep, Succeeds, ReadsWrapped, Remainder, EndsTheSpan;
    if i < |s| {
      if EndsTheSpan(s, i, f) {
        EndIs(s, i, f);
      }
      var t := IdealStep(s, i, f);
      NothingCancels(s, t.next, q + |t.bytes|, f);
      if q + 1 <= t.next {
        NothingCancels(s, t.next, q + 1, f);
      }
    }
  }

  // ----- references one by one -----

  function Lead(hex: bool): string {
    if hex then "&#x" else "&#"
  }

  lemma LeadBytes(s: string, i: nat, d: string, hex: bool)
    requires HasAt(s, i, Lead(hex) + (d + ";"))
    ensures var from := i + |Lead(hex)|;
      from + |d| < |s| && s[from..from + |d|] == d && s[from + |d|] == ';' &&
      s[i] == '&' && s[i + 1] == '#' && s[from - 1] == if hex then 'x' else '#'
  {
    var from := i + |Lead(hex)|;
    HasAtConcat(s, i, Lead(hex), d + ";");
    HasAtConcat(s, from, d, ";");
    HasAtChar(s, from + |d|, ";", 0);
    HasAtChar(s, i, Lead(hex), 0);
    HasAtChar(s, i, Lead(hex), 1);
    HasAtChar(s, i, Lead(hex), |Lead(hex)| - 1);
  }

  lemma SpelledOut(s: string, i: nat, d: string, hex: bool)
    requires AllDigits(d, hex) && HasAt(s, i, Lead(hex) + (d + ";"))
    ensures ReferenceAt(s, i) && Denoted(s, i) == Some(Numeric(i + |Lead(hex)| + |d| + 1, d, hex))
  {
    hide Digit, Denoted, HasAt;
    var from := i + |Lead(hex)|;
    LeadBytes(s, i, d, hex);
    forall k | from <= k < from + |d| ensures DigitByte(s[k], hex) {
      assert s[k] == s[from..from + |d|][k - from];
      DigitByteIs(s[k], hex);
    }
    assert hex == (s[i + 2] == 'x') by {
      assert !hex && d != "" ==> DigitByte(s[from], false);
    }
    assert Spelled(s, i, from - 1, from + |d|);
    DenotedIs(s, i, from - 1, from + |d|);
  }

  /** A reference as section 4.1 of XML 1.0 has it: at least one digit, and nothing but digits behind the mark. */
  ghost predicate Grammatical(s: string, i: nat) {
    exists d: string, hex: bool :: d != "" && AllDigits(d, hex) && HasAt(s, i, Lead(hex) + (d + ";"))
  }

  /** A reference that is read is one of that grammar exactly if it has a digit, and no other byte. */
  lemma GrammaticalIff(s: string, i: nat)
    requires ReferenceAt(s, i)
    ensures Grammatical(s, i) <==>
      Denoted(s, i).Some? && var n := Denoted(s, i).value;
      n.digits != "" && n.end == i + |Lead(n.hex)| + |n.digits| + 1
  {
    hide Denoted, AllDigits;
    if d: string, hex: bool :| d != "" && AllDigits(d, hex) && HasAt(s, i, Lead(hex) + (d + ";")) {
      SpelledOut(s, i, d, hex);
    }
    if Denoted(s, i).Some? {
      var n := Denoted(s, i).value;
      if n.digits != "" && n.end == i + |Lead(n.hex)| + |n.digits| + 1 {
        DenotedBytes(s, i);
        assert HasAt(s, i, Lead(n.hex) + (n.digits + ";"));
      }
    }
  }

  lemma DenotedBytes(s: string, i: nat)
    requires ReferenceAt(s, i) && Denoted(s, i).Some?
    requires var n := Denoted(s, i).value; n.end == i + |Lead(n.hex)| + |n.digits| + 1
    ensures var n := Denoted(s, i).value; HasAt(s, i, Lead(n.hex) + (n.digits + ";"))
  {
    hide Denoted;
    var n := Denoted(s, i).value;
    var mark: nat, semi: nat :| Spelled(s, i, mark, semi);
    DenotedIs(s, i, mark, semi);
    assert mark + 1 == i + |Lead(n.hex)|;
    assert s[i..mark + 1] == Lead(n.hex);
    assert s[i..semi + 1] == s[i..mark + 1] + (s[mark + 1..semi] + [s[semi]]);
  }

  lemma ReferenceTurn(s: string, n: Numeric)
    requires ReferenceAt(s, 0) && Denoted(s, 0) == Some(n)
    ensures !Malformed(s, 0, BOTH)
    ensures TurnAt(s, 0, BOTH) == Put(n.end, Utf8(WrappedSum(n.digits, n.hex, 1) % U64))
    ensures IdealStep(s, 0, BOTH) == Step(n.end, Utf8(Positional(n.digits, n.hex)))
  {
    hide WrappedSum, Utf8, Positional, CharacterRef, Denoted, AllDigits, EntityAt, Spelled;
    ReferenceReads(s, 0);
    NoEntityAtReference(s, 0);
  }

  /** What one reference with nothing behind it reads as, and what it is meant to read as. */
  lemma ReferenceAlone(d: string, hex: bool)
    requires AllDigits(d, hex)
    ensures var s := Lead(hex) + (d + ";");
      Reading(s, BOTH) == Some(Utf8(WrappedSum(d, hex, 1) % U64)) && Ideal(s, 0, BOTH) == Utf8(Positional(d, hex))
  {
    hide WrappedSum, Utf8, Positional, CharacterRef, Denoted, AllDigits, Decode, Ideal, TurnAt, IdealStep, Malformed,
      ReferenceAt;
    var s := Lead(hex) + (d + ";");
    assert HasAt(s, 0, s) by { assert s[0..|s|] == s; }
    SpelledOut(s, 0, d, hex);
    ReferenceTurn(s, Numeric(|s|, d, hex));
    Unfolded(s, 0, 0, BOTH);
    var u, w := Utf8(WrappedSum(d, hex, 1) % U64), Utf8(Positional(d, hex));
    Nothing(s, |u|, BOTH);
    assert u + "" == u && w + "" == w;
  }

  /** A numeric reference reads as the UTF-8 of the number it denotes exactly if the number does not wrap:
  for hexadecimal digits, if it is below 2^32 or its last 32 bits are not below 0x200000. */
  lemma NumericReferenceIff(d: string, hex: bool)
    requires AllDigits(d, hex)
    ensures Reading(Lead(hex) + (d + ";"), BOTH) == Some(Utf8(Positional(d, hex))) <==> !Wraps(d, hex)
    ensures hex ==> (Wraps(d, hex) <==> U32 <= Positional(d, hex) && Positional(d, hex) % U32 < 0x20_0000)
  {
    hide WrappedSum, Utf8, Positional, AllDigits, Decode, Wraps, Products;
    ReferenceAlone(d, hex);
    BytesIff(d, hex);
    if hex {
      WrapsHex(d);
    }
  }

  // ----- examples -----

  /** Behind an entity that shrank, an unknown entity loses its ampersand. */
  lemma StaleByteExample()
    ensures Reading("&lt;&x", BOTH) == Some("<lx") && Ideal("&lt;&x", 0, BOTH) == "<&x"
  {
    var s := "&lt;&x";
    assert EntityMatches(s, 0, ENTITIES[3]) by { assert s[1..3] == "lt"; }
    EntityUnique(s, 0, ENTITIES[3]);
    assert TurnAt(s, 0, BOTH) == Put(4, "<") && IdealStep(s, 0, BOTH) == Step(4, "<");
    assert TurnAt(s, 4, BOTH) == Stale(5) && IdealStep(s, 4, BOTH) == Step(5, "&");
    assert TurnAt(s, 5, BOTH) == Put(6, "x") && IdealStep(s, 5, BOTH) == Step(6, "x");
    assert Decode(s, 6, 3, BOTH) == Some([]) && Ideal(s, 6, BOTH) == "";
    assert "x" + [] == "x" && [s[1]] + "x" == "lx" && "&" + "x" == "&x";
    assert "<" + "lx" == "<lx" && "<" + "&x" == "<&x";
    assert Decode(s, 5, 2, BOTH) == Some("x") && Ideal(s, 5, BOTH) == "x";
    assert Decode(s, 4, 1, BOTH) == Some("lx") && Ideal(s, 4, BOTH) == "&x";
  }

  /** The ampersand of a `&#` at the end is dropped. */
  lemma FinalExample()
    ensures Reading("&#", BOTH) == Some("#") && Ideal("&#", 0, BOTH) == "&#"
  {
    hide Decode, Ideal;
    var s := "&#";
    assert EndsTheSpan(s, 0, BOTH) && WellFormed(s, 0);
    TurnAndStep(s, 0, 0, BOTH);
    Unfolded(s, 0, 0, BOTH);
    LastHash(s, 0, BOTH);
    assert "" + "#" == "#" && "&" + "#" == "&#";
  }

  lemma PositionalMore(d: string, c: char, e: string)
    requires AllDigits(d, true) && Digit(c, true).Some? && e == d + [c]
    ensures AllDigits(e, true) && Positional(e, true) == Positional(d, true) * 16 + Digit(c, true).value
  {
    assert e[..|d|] == d;
  }

  lemma TwoTo24()
    ensures AllDigits("1000000", true) && Positional("1000000", true) == 0x100_0000
  {
    hide Positional;
    assert Positional("", true) == 0 by { NoDigits(); }
    PositionalMore("", '1', "1");
    PositionalMore("1", '0', "10");
    PositionalMore("10", '0', "100");
    PositionalMore("100", '0', "1000");
    PositionalMore("1000", '0', "10000");
    PositionalMore("10000", '0', "100000");
    PositionalMore("100000", '0', "1000000");
  }

  lemma NoDigits()
    ensures Positional("", true) == 0
  {
  }

  lemma WrappedNumber(d: string, n: nat)
    requires AllDigits(d, true) && Positional(d, true) == U32 + n && n < 0x80
    ensures Reading(Lead(true) + (d + ";"), BOTH) == Some([n as char])
    ensures Ideal(Lead(true) + (d + ";"), 0, BOTH) == ""
  {
    hide WrappedSum, Positional, Products, Decode, Ideal, AllDigits;
    ReferenceAlone(d, true);
    BytesIff(d, true);
    HexProducts(d, 0);
    assert Power(16, 0) == 1;
  }

  /** The reference to 2^32 + 0x41 reads as the letter of code point 0x41. */
  lemma WrappedExample()
    ensures Reading("&#x100000041;", BOTH) == Some("A") && Ideal("&#x100000041;", 0, BOTH) == ""
  {
    hide Positional, Decode, Ideal;
    TwoTo24();
    PositionalMore("1000000", '4', "10000004");
    PositionalMore("10000004", '1', "100000041");
    WrappedNumber("100000041", 0x41);
    assert Lead(true) + ("100000041" + ";") == "&#x100000041;";
  }

  /** Bytes in front of the last mark are passed over, although no reference may hold them. */
  lemma LooseExample()
    ensures Reading("&#z#65;", BOTH) == Some("A") && !Grammatical("&#z#65;", 0)
  {
    hide Decode, Ideal, Denoted, TurnAt, IdealStep, Malformed, WrappedSum, Positional;
    var s, n := "&#z#65;", Numeric(7, "65", false);
    assert Spelled(s, 0, 3, 6) && s[4..6] == "65";
    DenotedIs(s, 0, 3, 6);
    ReferenceTurn(s, n);
    SixtyFive();
    BytesIff("65", false);
    Unfolded(s, 0, 0, BOTH);
    Nothing(s, 1, BOTH);
    assert "A" + "" == "A" && Utf8(65) == "A";
    GrammaticalIff(s, 0);
  }

  lemma SixtyFive()
    ensures AllDigits("65", false) && Positional("65", false) == 65
  {
    assert "65"[..1] == "6" && "6"[..0] == "";
  }

  /** Both failures in one text: it reads as it is meant all the same. */
  lemma CancelExample()
    ensures var s := "&#x100000026;&#";
      Reading(s, BOTH) == Some("&#") && Ideal(s, 0, BOTH) == "&#" &&
      ReadsWrapped(s, 0, BOTH) && EndsTheSpan(s, 13, BOTH)
  {
    hide Positional, Decode, Ideal, TurnAt, IdealStep, WrappedSum, Products, Denoted, AllDigits, Malformed;
    var s, d := "&#x100000026;&#", "100000026";
    TwoTo24();
    PositionalMore("1000000", '2', "10000002");
    PositionalMore("10000002", '6', d);
    assert s[0..13] == Lead(true) + (d + ";");
    SpelledOut(s, 0, d, true);
    WrappedTurn(s, d, 0x26);
    Unfolded(s, 0, 0, BOTH);
    assert !Malformed(s, 13, BOTH) by { MalformedInside(s, 13); }
    TurnAndStep(s, 13, 1, BOTH);
    Unfolded(s, 13, 1, BOTH);
    LastHash(s, 1, BOTH);
    assert "" + "#" == "#" && "&" + "#" == "&#" && "" + "&#" == "&#";
  }

  lemma MalformedInside(s: string, i: nat)
    requires i + 2 == |s|
    ensures !Malformed(s, i, BOTH)
  {
  }

  lemma WrappedTurn(s: string, d: string, n: nat)
    requires AllDigits(d, true) && Positional(d, true) == U32 + n && n < 0x80
    requires ReferenceAt(s, 0) && Denoted(s, 0) == Some(Numeric(4 + |d|, d, true))
    ensures !Malformed(s, 0, BOTH) && ReadsWrapped(s, 0, BOTH)
    ensures TurnAt(s, 0, BOTH) == Put(4 + |d|, [n as char]) && IdealStep(s, 0, BOTH) == Step(4 + |d|, "")
  {
    hide Positional, WrappedSum, Products, Denoted, AllDigits, Malformed, TurnAt, IdealStep;
    ReferenceTurn(s, Numeric(4 + |d|, d, true));
    BytesIff(d, true);
    HexProducts(d, 0);
    assert Power(16, 0) == 1;
    WrapsHex(d);
  }
}
