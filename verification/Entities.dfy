/** Entities, character references and newline normalisation: the pure reading of a span of the
buffer, and the escaping that a printer applies. */
module Entities {
  import opened Options
  import opened Text

  // ----- the entity table -----

  datatype Entity = Entity(pattern: string, value: char)

  const ENTITIES: seq<Entity> := [
    Entity("quot", '\"'), Entity("amp", '&'), Entity("apos", '\''), Entity("lt", '<'), Entity("gt", '>')
  ]

  predicate EntityMatches(s: string, i: nat, e: Entity) {
    HasAt(s, i + 1, e.pattern) && At(s, i + 1 + |e.pattern|) == ';'
  }

  /** The first table entry whose pattern and `;` follow the ampersand at `i`, searching from entry `n`. */
  function EntityAt(s: string, i: nat, n: nat): (r: Option<Entity>)
    requires n <= |ENTITIES|
    ensures r.Some? ==> r.value in ENTITIES && EntityMatches(s, i, r.value)
    ensures r.None? ==> forall m :: n <= m < |ENTITIES| ==> !EntityMatches(s, i, ENTITIES[m])
    decreases |ENTITIES| - n
  {
    if n == |ENTITIES| then None
    else if EntityMatches(s, i, ENTITIES[n]) then Some(ENTITIES[n])
    else EntityAt(s, i, n + 1)
  }

  /** No two entries of the table match at one place. */
  lemma EntityUnique(s: string, i: nat, e: Entity)
    requires e in ENTITIES && EntityMatches(s, i, e)
    ensures EntityAt(s, i, 0) == Some(e)
  {
    var d := EntityAt(s, i, 0).value;
    HasAtChar(s, i + 1, e.pattern, 0);
    HasAtChar(s, i + 1, e.pattern, 1);
    HasAtChar(s, i + 1, d.pattern, 0);
    HasAtChar(s, i + 1, d.pattern, 1);
  }

  // ----- numeric character references -----

  const U32: nat := 0x1_0000_0000
  const U64: nat := 0x1_0000_0000_0000_0000

  /** The value of a digit character, if `c` is one in that base. */
  function Digit(c: char, hex: bool): (d: Option<nat>)
    ensures d.Some? ==> d.value < if hex then 16 else 10
  {
    if '0' <= c <= '9' then Some(c as nat - '0' as nat)
    else if hex && 'a' <= c <= 'f' then Some(c as nat - 'a' as nat + 10)
    else if hex && 'A' <= c <= 'F' then Some(c as nat - 'A' as nat + 10)
    else None
  }

  predicate AllDigits(d: string, hex: bool) {
    forall k :: 0 <= k < |d| ==> Digit(d[k], hex).Some?
  }

  function Base(hex: bool): nat {
    if hex then 16 else 10
  }

  /** The number that a digit string denotes. */
  function Positional(d: string, hex: bool): nat
    requires AllDigits(d, hex)
  {
    if d == [] then 0
    else Positional(d[..|d| - 1], hex) * Base(hex) + Digit(d[|d| - 1], hex).value
  }

  /** One product of the sum, and the next multiplier, in `unsigned` arithmetic. */
  function Term(mult: nat, digit: nat): nat {
    mult * digit % U32
  }

  function NextMult(mult: nat, hex: bool): nat {
    mult * Base(hex) % U32
  }

  /** What the code adds up from the last digit to the first, in 32-bit products. */
  function WrappedSum(d: string, hex: bool, mult: nat): nat
    requires AllDigits(d, hex)
  {
    if d == [] then 0
    else Term(mult, Digit(d[|d| - 1], hex).value) + WrappedSum(d[..|d| - 1], hex, NextMult(mult, hex))
  }

  lemma {:induction false} ZeroSum(d: string, hex: bool, mult: nat)
    requires AllDigits(d, hex) && Positional(d, hex) == 0
    ensures WrappedSum(d, hex, mult) == 0
  {
    if d != [] {
      ZeroSum(d[..|d| - 1], hex, NextMult(mult, hex));
    }
  }

  /** Below 2^32 the wrapping sum is the number itself, whatever the count of leading zeros. */
  lemma {:induction false} SumIsPositional(d: string, hex: bool, mult: nat)
    requires AllDigits(d, hex) && 0 < mult
    requires mult * Positional(d, hex) < U32
    ensures WrappedSum(d, hex, mult) == mult * Positional(d, hex)
  {
    hide WrappedSum, Positional, Digit, Term, Base, AllDigits;
    SumAndPosition(d, hex, mult);
    if d != [] {
      var rest, last := d[..|d| - 1], Digit(d[|d| - 1], hex).value;
      var high := Positional(rest, hex);
      ProductBounds(mult, high, Base(hex), last);
      SmallMod(mult * last);
      if high == 0 {
        ZeroSum(rest, hex, NextMult(mult, hex));
      } else {
        SmallMod(mult * Base(hex));
        SumIsPositional(rest, hex, NextMult(mult, hex));
      }
    }
  }

  /** Both sums, digit by digit from the right. */
  lemma SumAndPosition(d: string, hex: bool, mult: nat)
    requires AllDigits(d, hex)
    ensures d == [] ==> WrappedSum(d, hex, mult) == 0 && Positional(d, hex) == 0
    ensures 0 < Base(hex)
    ensures d != [] ==>
      AllDigits(d[..|d| - 1], hex) && Digit(d[|d| - 1], hex).Some? &&
      var rest, last := d[..|d| - 1], Digit(d[|d| - 1], hex).value;
      Positional(d, hex) == Positional(rest, hex) * Base(hex) + last &&
      WrappedSum(d, hex, mult) == mult * last % U32 + WrappedSum(rest, hex, NextMult(mult, hex))
  {
  }

  lemma ProductBounds(m: nat, h: nat, b: nat, x: nat)
    requires m * (h * b + x) < U32 && 0 < m && 0 < b
    ensures m * (h * b + x) == (m * b) * h + m * x
    ensures 0 <= m * x < U32 && 0 <= (m * b) * h < U32
    ensures 0 < h ==> 0 < m * b < U32
  {
    assert m * (h * b + x) == (m * b) * h + m * x;
    if 0 < h {
      assert m * b <= (m * b) * h;
    }
  }

  lemma SmallMod(x: nat)
    requires x < U32
    ensures x % U32 == x
  {
  }

  /** UTF-8 of a code point; nothing at all from 0x200000 up. */
  function Utf8(c: nat): (r: string)
    ensures |r| <= 4
    ensures c < 0x200000 ==> 1 <= |r|
  {
    if c < 0x80 then [c as char]
    else if c < 0x800 then [(0xC0 + c / 64) as char, Continuation(c)]
    else if c < 0x10000 then [(0xE0 + c / 4096) as char, Continuation(c / 64), Continuation(c)]
    else if c < 0x200000 then
      [(0xF0 + c / 262144) as char, Continuation(c / 4096), Continuation(c / 64), Continuation(c)]
    else []
  }

  function Continuation(c: nat): char {
    (0x80 + c % 64) as char
  }

  /** The code point that a UTF-8 sequence denotes. */
  function FromUtf8(u: string): nat
    requires 1 <= |u| <= 4
  {
    var low := (k: nat) requires k < |u| => u[k] as nat % 64;
    if |u| == 1 then u[0] as nat
    else if |u| == 2 then u[0] as nat % 32 * 64 + low(1)
    else if |u| == 3 then u[0] as nat % 16 * 4096 + low(1) * 64 + low(2)
    else u[0] as nat % 8 * 262144 + low(1) * 4096 + low(2) * 64 + low(3)
  }

  lemma Utf8RoundTrip(c: nat)
    requires c < 0x200000
    ensures FromUtf8(Utf8(c)) == c
    ensures |Utf8(c)| > 1 ==> forall k :: 0 <= k < |Utf8(c)| ==> 0x80 <= Utf8(c)[k] as nat < 0x100
  {
    Groups(c);
    var c1, c2, c3 := c / 64, c / 4096, c / 262144;
    ContinuationByte(c);
    ContinuationByte(c1);
    ContinuationByte(c2);
    if 0x80 <= c < 0x800 {
      LeadByte(0xC0, 32, c1);
    } else if 0x800 <= c < 0x10000 {
      LeadByte(0xE0, 16, c2);
    } else if 0x10000 <= c {
      LeadByte(0xF0, 8, c3);
    }
  }

  lemma Groups(c: nat)
    ensures c == c / 64 * 64 + c % 64
    ensures c / 64 == c / 4096 * 64 + c / 64 % 64
    ensures c / 4096 == c / 262144 * 64 + c / 4096 % 64
  {
    assert c / 4096 == c / 64 / 64;
    assert c / 262144 == c / 4096 / 64;
  }

  lemma ContinuationByte(c: nat)
    ensures 0x80 <= Continuation(c) as nat < 0xC0 && Continuation(c) as nat % 64 == c % 64
  {
  }

  lemma LeadByte(mark: nat, room: nat, c: nat)
    requires (mark == 0xC0 && room == 32) || (mark == 0xE0 && room == 16) || (mark == 0xF0 && room == 8)
    requires c < room
    ensures (mark + c) as char as nat % room == c && mark + c < 0x100
  {
  }

  /** The last position of `c` in `s[lo..hi]`. */
  function LastOf(s: string, lo: nat, hi: nat, c: char): (r: nat)
    requires lo < hi <= |s| && s[lo] == c
    ensures lo <= r < hi && s[r] == c
    ensures forall k :: r < k < hi ==> s[k] != c
    decreases hi
  {
    if s[hi - 1] == c then hi - 1 else LastOf(s, lo, hi - 1, c)
  }

  /** The outcome of `GetCharacterRef`: the null pointer, or the next position and the bytes. */
  datatype Reference = Null | Reference(next: nat, bytes: string)

  /** The reference whose `&#` stands at `i`. The digits are those behind the last `x` (or `#`)
  before the first `;`. */
  function CharacterRef(s: string, i: nat): (r: Reference)
    requires i + 1 < |s| && s[i + 1] == '#'
    ensures r.Reference? ==> i < r.next <= |s| && |r.bytes| <= r.next - i
  {
    if i + 2 == |s| then Reference(i + 1, [])
    else
      var hex := s[i + 2] == 'x';
      if hex && i + 3 == |s| then Null
      else
        match Find(s, if hex then i + 3 else i + 2, ";")
        case None => Null
        case Some(semi) =>
          var mark := if hex then LastOf(s, i + 2, semi, 'x') else LastOf(s, i + 1, semi, '#');
          var digits := s[mark + 1..semi];
          if AllDigits(digits, hex) then Reference(semi + 1, Utf8(WrappedSum(digits, hex, 1) % U64)) else Null
  }

  // ----- reading a span -----

  /** The flags `StrPair::Set` records. */
  datatype Flags = Flags(entities: bool, newlines: bool)

  const BOTH: Flags := Flags(true, true)
  const NEWLINES: Flags := Flags(false, true)

  /** One turn of the loop of `StrPair::GetStr`: `Stale` advances both pointers without writing. */
  datatype Turn = Crash | Put(next: nat, bytes: string) | Stale(next: nat)

  function TurnAt(s: string, i: nat, f: Flags): (t: Turn)
    requires i < |s|
    ensures !t.Crash? ==> i < t.next <= |s|
    ensures t.Put? ==> |t.bytes| <= t.next - i
  {
    if f.newlines && s[i] == CR then
      Put(if At(s, i + 1) == LF then i + 2 else i + 1, [LF])
    else if f.newlines && s[i] == LF then
      Put(if At(s, i + 1) == CR then i + 2 else i + 1, [LF])
    else if f.entities && s[i] == '&' then
      if At(s, i + 1) == '#' then
        match CharacterRef(s, i)
        case Null => Crash
        case Reference(next, bytes) => Put(next, bytes)
      else
        match EntityAt(s, i, 0)
        case Some(e) => Put(i + |e.pattern| + 2, [e.value])
        case None => Stale(i + 1)
    else Put(i + 1, [s[i]])
  }

  /** The bytes a turn leaves at write position `q`: at an unknown entity, the byte already lying there. */
  function Written(s: string, i: nat, q: nat, f: Flags): (r: string)
    requires q <= i < |s| && !TurnAt(s, i, f).Crash?
    ensures q + |r| <= TurnAt(s, i, f).next
  {
    match TurnAt(s, i, f)
    case Put(next, bytes) => bytes
    case Stale(next) => [s[q]]
  }

  /** What the code leaves in the span from write position `q` on, reading from `i`. `None` is a null
  read pointer. */
  function Decode(s: string, i: nat, q: nat, f: Flags): (r: Option<string>)
    requires q <= i <= |s|
    ensures r.Some? ==> q + |r.value| <= |s|
    decreases |s| - i
  {
    if i == |s| then Some([])
    else if TurnAt(s, i, f).Crash? then None
    else
      var bytes := Written(s, i, q, f);
      Prefixed(bytes, Decode(s, TurnAt(s, i, f).next, q + |bytes|, f))
  }

  function Prefixed(u: string, r: Option<string>): Option<string> {
    match r
    case None => None
    case Some(v) => Some(u + v)
  }

  /** The text a span with these bytes and flags is read as. */
  function Reading(s: string, f: Flags): Option<string> {
    Decode(s, 0, 0, f)
  }

  lemma PrefixedInjective(u: string, v: string, x: string, y: string)
    requires |u| == |v|
    ensures u + x == v + y <==> u == v && x == y
  {
    if u + x == v + y {
      assert u == (u + x)[..|u|] && v == (v + y)[..|v|];
      assert x == (u + x)[|u|..] && y == (v + y)[|v|..];
    }
  }

  // ----- escaping -----

  /** `PrintString` on one character: the restricted set leaves quotes alone. */
  function EscapeChar(c: char, restricted: bool): (r: string)
    ensures 1 <= |r|
  {
    if c == '&' then "&amp;"
    else if c == '<' then "&lt;"
    else if c == '>' then "&gt;"
    else if c == '\"' && !restricted then "&quot;"
    else if c == '\'' && !restricted then "&apos;"
    else [c]
  }

  function Escape(v: string, restricted: bool): (r: string)
    ensures |v| <= |r|
  {
    if v == [] then [] else EscapeChar(v[0], restricted) + Escape(v[1..], restricted)
  }

  lemma DecodePut(s: string, i: nat, q: nat, f: Flags, next: nat, bytes: string)
    requires q <= i < |s| && TurnAt(s, i, f) == Put(next, bytes)
    ensures Decode(s, i, q, f) == Prefixed(bytes, Decode(s, next, q + |bytes|, f))
  {
  }

  lemma EscapedParts(s: string, i: nat, v: string, restricted: bool)
    requires i <= |s| && s[i..] == Escape(v, restricted) && v != []
    ensures HasAt(s, i, EscapeChar(v[0], restricted))
    ensures s[i + |EscapeChar(v[0], restricted)|..] == Escape(v[1..], restricted)
  {
    var e, rest := EscapeChar(v[0], restricted), Escape(v[1..], restricted);
    assert s[i..] == e + rest;
    assert s[i..i + |e|] == s[i..][..|e|] && s[i + |e|..] == s[i..][|e|..];
  }

  lemma NothingEscaped(s: string, i: nat, q: nat, restricted: bool)
    requires q <= i <= |s| && s[i..] == Escape("", restricted)
    ensures Decode(s, i, q, BOTH) == Some("")
  {
    assert i == |s|;
  }

  /** Escaping is undone by reading, wherever the escaped text lies in a span. */
  lemma {:induction false} EscapeUndone(s: string, i: nat, q: nat, v: string, restricted: bool)
    requires q <= i <= |s| && s[i..] == Escape(v, restricted)
    requires CR !in v
    ensures Decode(s, i, q, BOTH) == Some(v)
    decreases |v|
  {
    hide TurnAt, EscapeChar, Decode, Escape, HasAt;
    if v == [] {
      NothingEscaped(s, i, q, restricted);
    } else {
      EscapedParts(s, i, v, restricted);
      var next := i + |EscapeChar(v[0], restricted)|;
      EscapeSafe(v[1..], restricted);
      assert next < |s| ==> s[next] == s[next..][0];
      EscapedTurn(s, i, v[0], restricted);
      DecodePut(s, i, q, BOTH, next, [v[0]]);
      EscapeUndone(s, next, q + 1, v[1..], restricted);
      assert v == [v[0]] + v[1..];
    }
  }

  /** One turn of the reader consumes exactly one escaped character. */
  lemma EscapedTurn(s: string, i: nat, c: char, restricted: bool)
    requires c != CR && HasAt(s, i, EscapeChar(c, restricted))
    requires At(s, i + |EscapeChar(c, restricted)|) != CR
    ensures i < |s| && TurnAt(s, i, BOTH) == Put(i + |EscapeChar(c, restricted)|, [c])
  {
    var e := EscapeChar(c, restricted);
    HasAtChar(s, i, e, 0);
    if e != [c] {
      var k := if c == '\"' then 0 else if c == '&' then 1 else if c == '\'' then 2 else if c == '<' then 3 else 4;
      EscapedEntity(s, i, c, restricted, ENTITIES[k]);
    }
  }

  lemma EscapedEntity(s: string, i: nat, c: char, restricted: bool, d: Entity)
    requires d in ENTITIES && d.value == c && EscapeChar(c, restricted) == "&" + d.pattern + ";"
    requires HasAt(s, i, EscapeChar(c, restricted))
    ensures i < |s| && TurnAt(s, i, BOTH) == Put(i + |d.pattern| + 2, [c])
  {
    HasAtConcat(s, i, "&" + d.pattern, ";");
    HasAtConcat(s, i, "&", d.pattern);
    HasAtChar(s, i, "&", 0);
    HasAtChar(s, i + 1, d.pattern, 0);
    HasAtChar(s, i + 1 + |d.pattern|, ";", 0);
    EntityUnique(s, i, d);
  }

  /** Escaped text holds no terminator of its own, and no carriage return it did not hold before. */
  lemma {:induction false} EscapeSafe(v: string, restricted: bool)
    ensures '<' !in Escape(v, restricted) && (!restricted ==> '\"' !in Escape(v, restricted))
    ensures CR !in v ==> CR !in Escape(v, restricted)
    ensures NUL !in v ==> NUL !in Escape(v, restricted)
  {
    if v != [] {
      EscapeSafe(v[1..], restricted);
      EscapeCharSafe(v[0], restricted);
      NotInConcat(EscapeChar(v[0], restricted), Escape(v[1..], restricted));
    }
  }

  lemma EscapeCharSafe(c: char, restricted: bool)
    ensures '<' !in EscapeChar(c, restricted) && (!restricted ==> '\"' !in EscapeChar(c, restricted))
    ensures c != CR ==> CR !in EscapeChar(c, restricted)
    ensures c != NUL ==> NUL !in EscapeChar(c, restricted)
  {
  }

  lemma NotInConcat(u: string, v: string)
    ensures forall c: char {:trigger c in u} {:trigger c in v} :: c in u + v <==> c in u || c in v
  {
  }
}
