/** `StrPair`: a span of the parse buffer that is normalised and decoded in place, when first read. */
module StrPairs {
  import opened Options
  import opened Text
  import opened Entities

  lemma FirstByte(s: string, q: nat, w: string)
    requires q < |s| && w != []
    ensures s[q] != w[0] ==> !HasAt(s, q, w)
  {
    if q + |w| <= |s| {
      assert s[q..q + |w|][0] == s[q];
    }
  }

  /** A turn of the decoding loop that reads from `i` and writes at `q`: where it goes on, if the read
  cursor is not null, and what it writes. */
  ghost predicate IsTurn(s: string, i: nat, q: nat, f: Flags, next: Option<nat>, bytes: string) {
    q <= i < |s| &&
    if TurnAt(s, i, f).Crash? then next.None? && bytes == ""
    else next == Some(TurnAt(s, i, f).next) && bytes == Written(s, i, q, f)
  }

  /** What `Set` records: the half-open range of the span and how it is to be read. */
  datatype Span = Span(start: nat, end: nat, flags: Flags)

  const PLAIN: Flags := Flags(false, false)

  /** The bytes `b[base..]` that have not been consumed still hold `s[i..]` and its terminator. */
  ghost predicate Unread(b: string, base: nat, s: string, i: nat) {
    i <= |s| && base + |s| < |b| && b[base + |s|] == NUL && NUL !in s &&
    forall k :: i <= k < |s| ==> b[base + k] == s[k]
  }

  lemma NoTerminator(b: string, p: nat, w: string)
    requires HasAt(b, p, w) && NUL !in w
    ensures forall m :: p <= m < p + |w| ==> b[m] != NUL
  {
    forall m | p <= m < p + |w| ensures b[m] != NUL { HasAtChar(b, p, w, m - p); }
  }

  lemma UnreadHasAt(b: string, base: nat, s: string, i: nat, j: nat, w: string)
    requires Unread(b, base, s, i) && i <= j <= |s| && NUL !in w
    ensures HasAt(b, base + j, w) <==> HasAt(s, j, w)
  {
    if HasAt(b, base + j, w) {
      NoTerminator(b, base + j, w);
      assert b[base + |s|] == NUL;
      forall k | 0 <= k < |w| ensures s[j + k] == w[k] { HasAtChar(b, base + j, w, k); }
      assert s[j..j + |w|] == w;
    }
    if HasAt(s, j, w) {
      forall k | 0 <= k < |w| ensures b[base + j + k] == w[k] { HasAtChar(s, j, w, k); }
      assert b[base + j..base + j + |w|] == w;
    }
  }

  /** A span without flags is read as it is. */
  lemma {:induction false} PlainReading(s: string, i: nat)
    requires i <= |s|
    ensures Decode(s, i, i, PLAIN) == Some(s[i..])
    decreases |s| - i
  {
    if i < |s| {
      PlainReading(s, i + 1);
      assert s[i..] == [s[i]] + s[i + 1..];
    } else {
      assert s[i..] == [];
    }
  }

  /** `ConvertUTF32ToUTF8`: fills the output from its last byte to its first. */
  method ConvertUTF32ToUTF8(input: nat, output: array<char>) returns (length: nat)
    requires 4 <= output.Length
    modifies output
    ensures length == |Utf8(input)| && output[..length] == Utf8(input)
  {
    if input < 0x80 { length := 1; }
    else if input < 0x800 { length := 2; }
    else if input < 0x10000 { length := 3; }
    else if input < 0x200000 { length := 4; }
    else { length := 0; return; }
    var FIRST_BYTE_MARK := [0x00, 0x00, 0xC0, 0xE0, 0xF0];
    var o, rest := length, input;
    if length >= 4 { o := o - 1; output[o] := Continuation(rest); rest := rest / 64; }
    if length >= 3 { o := o - 1; output[o] := Continuation(rest); rest := rest / 64; }
    if length >= 2 { o := o - 1; output[o] := Continuation(rest); rest := rest / 64; }
    Groups(input);
    assert input / 64 / 64 == input / 4096 && input / 4096 / 64 == input / 262144;
    o := o - 1;
    output[o] := (FIRST_BYTE_MARK[length] + rest) as char;
  }

  lemma UnreadFrom(b: string, base: nat, s: string, i: nat, j: nat)
    requires Unread(b, base, s, i) && i <= j <= |s|
    ensures Unread(b, base, s, j) && base + |s| < |b| && b[base + j] == At(s, j) && (At(s, j) == NUL <==> j == |s|)
    ensures forall k :: base + j <= k < base + |s| ==> b[k] == s[k - base]
  {
    assert j < |s| ==> s[j] != NUL;
    forall k | base + j <= k < base + |s| ensures b[k] == s[k - base] {
      assert b[base + (k - base)] == s[k - base];
    }
  }

  /** What the reference at `i` is, by the `;` behind it and the digits in front of that. */
  lemma ReferenceIs(s: string, i: nat, hex: bool, low: nat)
    requires i + 2 < |s| && s[i] == '&' && s[i + 1] == '#' && hex == (s[i + 2] == 'x')
    requires low == (if hex then i + 2 else i + 1) && low + 1 < |s|
    ensures Find(s, low + 1, ";").None? ==> CharacterRef(s, i) == Null
    ensures Find(s, low + 1, ";").Some? ==>
      var semi := Find(s, low + 1, ";").value;
      low < semi < |s| && s[low] == (if hex then 'x' else '#') &&
      var digits := s[LastOf(s, low, semi, if hex then 'x' else '#') + 1..semi];
      CharacterRef(s, i) ==
        if AllDigits(digits, hex) then Reference(semi + 1, Utf8(WrappedSum(digits, hex, 1) % U64)) else Null
  {
    hide WrappedSum, AllDigits, LastOf, Utf8, Find;
  }

  lemma ReferenceAtEnd(s: string, i: nat)
    requires i + 1 < |s| && s[i] == '&' && s[i + 1] == '#'
    ensures i + 2 == |s| ==> CharacterRef(s, i) == Reference(i + 1, [])
    ensures i + 3 == |s| && s[i + 2] == 'x' ==> CharacterRef(s, i) == Null
  {
  }

  /** `GetCharacterRef` on the reference at `p`. */
  method GetCharacterRef(buf: array<char>, p: nat, value: array<char>, ghost base: nat, ghost s: string)
    returns (next: Option<nat>, length: nat)
    requires base <= p && Unread(buf[..], base, s, p - base) && value != buf && 4 <= value.Length
    requires p - base + 1 < |s| && s[p - base] == '&' && s[p - base + 1] == '#'
    modifies value
    ensures next.None? <==> CharacterRef(s, p - base).Null?
    ensures next.Some? ==> next.value == base + CharacterRef(s, p - base).next
    ensures next.Some? ==> length <= value.Length && value[..length] == CharacterRef(s, p - base).bytes
  {
    hide WrappedSum, AllDigits, Find, LastOf, Utf8, CharacterRef, Unread;
    length := 0;
    ghost var i := p - base;
    ReferenceAtEnd(s, i);
    UnreadFrom(buf[..], base, s, i, i + 2);
    if buf[p + 2] == NUL {
      assert value[..0] == [];
      return Some(p + 1), 0;
    }
    var hex := buf[p + 2] == 'x';
    UnreadFrom(buf[..], base, s, i, i + 3);
    if hex && buf[p + 3] == NUL {
      return None, 0;
    }
    UnreadFrom(buf[..], base, s, i, i + 1);
    ReferenceIs(s, i, hex, if hex then i + 2 else i + 1);
    var semi := FindByte(buf, if hex then p + 3 else p + 2, ';', base, s);
    assert [';'] == ";";
    if semi.None? {
      return None, 0;
    }
    var ucs := SumDigits(buf, if hex then p + 2 else p + 1, semi.value, hex, base, s);
    if ucs.None? {
      return None, 0;
    }
    assert CharacterRef(s, i) == Reference(semi.value - base + 1, Utf8(ucs.value));
    length := ConvertUTF32ToUTF8(ucs.value, value);
    next := Some(semi.value + 1);
  }

  /** Adds up the digits from the `;` back to the last `x` or `#` behind `low`. */
  method SumDigits(buf: array<char>, ghost low: nat, semi: nat, hex: bool, ghost base: nat, ghost s: string)
    returns (r: Option<nat>)
    requires base <= low < semi < base + |s| < buf.Length && s[low - base] == if hex then 'x' else '#'
    requires forall k :: low <= k < semi ==> buf[k] == s[k - base]
    ensures var digits := s[LastOf(s, low - base, semi - base, if hex then 'x' else '#') + 1..semi - base];
      if AllDigits(digits, hex) then r == Some(WrappedSum(digits, hex, 1) % U64) else r.None?
  {
    hide LastOf, Digit, WrappedSum, Term, NextMult;
    var mark := if hex then 'x' else '#';
    var q, ucs: nat, mult: nat := semi - 1, 0, 1;
    ghost var last := LastOf(s, low - base, semi - base, mark);
    ghost var digits := s[last + 1..semi - base];
    assert digits[..|digits|] == digits;
    while buf[q] != mark
      invariant base + last <= q < semi && buf[q] == s[q - base]
      invariant forall k :: q - base - last <= k < |digits| ==> Digit(digits[k], hex).Some?
      invariant AllDigits(digits, hex) ==>
        (ucs + WrappedSum(digits[..q - base - last], hex, mult)) % U64 == WrappedSum(digits, hex, 1) % U64
      invariant ucs < U64
      decreases q
    {
      var d := Digit(buf[q], hex);
      ghost var m := q - base - last;
      assert digits[m - 1] == s[q - base];
      if d.None? {
        return None;
      }
      if AllDigits(digits, hex) {
        SumStep(digits, hex, m, ucs, mult);
      }
      ucs := (ucs + Term(mult, d.value)) % U64;
      mult := NextMult(mult, hex);
      q := q - 1;
    }
    assert q == base + last && digits[..0] == [];
    if AllDigits(digits, hex) { NoDigits(hex, mult); }
    r := Some(ucs);
  }

  lemma NoDigits(hex: bool, mult: nat)
    ensures WrappedSum([], hex, mult) == 0
  {
  }

  lemma SumStep(digits: string, hex: bool, m: nat, ucs: nat, mult: nat)
    requires 0 < m <= |digits| && AllDigits(digits, hex)
    ensures ((ucs + Term(mult, Digit(digits[m - 1], hex).value)) % U64
      + WrappedSum(digits[..m - 1], hex, NextMult(mult, hex))) % U64
      == (ucs + WrappedSum(digits[..m], hex, mult)) % U64
  {
    assert digits[..m][..m - 1] == digits[..m - 1] && digits[..m][m - 1] == digits[m - 1];
    AddTerm(ucs, Term(mult, Digit(digits[m - 1], hex).value), WrappedSum(digits[..m - 1], hex, NextMult(mult, hex)));
  }

  lemma AddTerm(ucs: nat, term: nat, rest: nat)
    ensures ((ucs + term) % U64 + rest) % U64 == (ucs + (term + rest)) % U64
  {
  }

  /** `strchr` from `p`. */
  method FindByte(buf: array<char>, p: nat, c: char, ghost base: nat, ghost s: string) returns (r: Option<nat>)
    requires base <= p && p - base <= |s| && Unread(buf[..], base, s, p - base) && c != NUL
    ensures r.None? <==> Find(s, p - base, [c]).None?
    ensures r.Some? ==> Find(s, p - base, [c]) == Some(r.value - base)
  {
    var q := p;
    assert q - base < |s| ==> s[q - base] != NUL;
    while buf[q] != NUL
      invariant p <= q <= base + |s|
      invariant buf[q] == NUL ==> q == base + |s|
      invariant forall k :: p - base <= k < q - base ==> !HasAt(s, k, [c])
      decreases base + |s| - q
    {
      if buf[q] == c {
        assert s[q - base..q - base + 1] == [c];
        FindIs(s, p - base, q - base, [c]);
        return Some(q);
      }
      if HasAt(s, q - base, [c]) { HasAtChar(s, q - base, [c], 0); }
      q := q + 1;
      assert q - base < |s| ==> s[q - base] != NUL;
    }
    r := None;
  }

  lemma Terminated(b: string, start: nat, q: nat, v: string)
    requires start <= q < |b| && b[start..q] == v && b[q] == NUL
    ensures HasAt(b, start, v + [NUL])
  {
    assert b[start..q + 1] == v + [NUL];
  }

  class StrPair {
    var needsFlush: bool
    var flags: Flags
    var start: nat
    var end: nat

    constructor ()
      ensures !needsFlush && flags == PLAIN && start == end == 0
    {
      needsFlush, flags, start, end := false, PLAIN, 0, 0;
    }

    predicate Empty()
      reads this
    {
      start == end
    }

    method Set(start: nat, end: nat, flags: Flags)
      modifies this
      ensures this.start == start && this.end == end && this.flags == flags && needsFlush
    {
      this.start, this.end, this.flags, this.needsFlush := start, end, flags, true;
    }

    /** The text up to the terminator becomes the span; the cursor behind the terminator comes back. */
    method ParseText(buf: array<char>, p: nat, endTag: string, flags: Flags, ghost s: string)
      returns (next: Option<nat>)
      requires p <= |s| && buf.Length == |s| + 1 && Unread(buf[..], 0, s, p) && endTag != "" && NUL !in endTag
      modifies this
      ensures next.None? <==> Find(s, p, endTag).None?
      ensures next.Some? ==> Find(s, p, endTag) == Some(end) && next.value == end + |endTag| <= |s|
      ensures next.Some? ==> start == p && this.flags == flags && needsFlush
      ensures next.None? ==> start == old(start) && end == old(end)
      ensures next.None? ==> this.flags == old(this.flags) && needsFlush == old(needsFlush)
    {
      var q := p;
      assert q < |s| ==> s[q] != NUL;
      while buf[q] != NUL
        invariant p <= q <= |s| && (buf[q] == NUL ==> q == |s|)
        invariant forall k :: p <= k < q ==> !HasAt(s, k, endTag)
        invariant start == old(start) && end == old(end)
        invariant this.flags == old(this.flags) && needsFlush == old(needsFlush)
        decreases |s| - q
      {
        UnreadHasAt(buf[..], 0, s, p, q, endTag);
        if buf[q] == endTag[0] && HasAt(buf[..], q, endTag) {
          FindIs(s, p, q, endTag);
          Set(p, q, flags);
          return Some(q + |endTag|);
        }
        FirstByte(s, q, endTag);
        q := q + 1;
        assert q < |s| ==> s[q] != NUL;
      }
      next := None;
    }

    /** The longest name at `p` becomes the span. */
    method ParseName(buf: array<char>, p: nat, ghost s: string) returns (next: Option<nat>)
      requires p <= |s| && buf.Length == |s| + 1 && Unread(buf[..], 0, s, p)
      modifies this
      ensures next.Some? <==> IsAlpha(At(s, p))
      ensures next.Some? ==> next.value == end == NameEnd(s, p) && start == p && flags == PLAIN && needsFlush
      ensures next.None? ==> start == old(start) && end == old(end)
      ensures next.None? ==> flags == old(flags) && needsFlush == old(needsFlush)
    {
      if !IsAlpha(buf[p]) {
        return None;
      }
      var q := p;
      while IsNameChar(buf[q])
        invariant p <= q <= |s| && (p == q ==> IsAlpha(buf[q]))
        invariant NameEnd(s, p) == NameEnd(s, q)
        decreases |s| - q
      {
        q := q + 1;
      }
      Set(p, q, PLAIN);
      next := Some(q);
    }

    /** The first read decodes the span in place and terminates it; later reads change nothing. On a
    malformed reference the read cursor becomes null, and there is no string. */
    method GetStr(buf: array<char>) returns (str: Option<nat>)
      requires start <= end < buf.Length
      requires needsFlush ==> NUL !in buf[start..end]
      modifies this, buf
      ensures str.None? <==> old(needsFlush) && Reading(old(buf[start..end]), old(flags)).None?
      ensures str.Some? ==> str.value == start
      ensures start == old(start) && end == old(end) && !needsFlush
      ensures !old(needsFlush) ==> buf[..] == old(buf[..]) && flags == old(flags)
      ensures old(needsFlush) && str.Some? ==>
        HasAt(buf[..], start, Reading(old(buf[start..end]), old(flags)).value + [NUL]) && flags == PLAIN
      ensures buf[..start] == old(buf[..start]) && buf[end + 1..] == old(buf[end + 1..])
    {
      hide Decode, HasAt;
      ghost var b := buf[..];
      ghost var s, f := buf[start..end], flags;
      str := Some(start);
      if needsFlush {
        buf[end] := NUL;
        needsFlush := false;
        if flags != PLAIN {
          var q := DecodeInPlace(buf, s);
          if q.None? {
            str := None;
          } else {
            buf[q.value] := NUL;
            Terminated(buf[..], start, q.value, Reading(s, f).value);
          }
        } else {
          PlainReading(s, 0);
          assert s[0..] == s;
          Terminated(buf[..], start, end, s);
        }
        flags := PLAIN;
      }
      assert buf[..start] == b[..start] && buf[end + 1..] == b[end + 1..];
    }

    /** The loop of `GetStr`: read pointer `p`, write pointer `q`, never ahead of it. */
    method DecodeInPlace(buf: array<char>, ghost s: string) returns (r: Option<nat>)
      requires start <= end < buf.Length && buf[start..end] == s && Unread(buf[..], start, s, 0)
      modifies buf
      ensures r.None? <==> Reading(s, flags).None?
      ensures r.Some? ==> start <= r.value <= end && buf[start..r.value] == Reading(s, flags).value
      ensures forall k :: 0 <= k < start || end <= k < buf.Length ==> buf[k] == old(buf[k])
    {
      hide TurnAt, Written, Decode, Reading, Unread, IsTurn, Decoding;
      var p, q := start, start;
      var value := new char[10];
      DecodingStart(buf[..], start, s, flags);
      while p < end
        invariant start <= q <= p <= end && fresh(value)
        invariant Decoding(buf[..], start, s, flags, p - start, q - start)
        invariant forall k :: 0 <= k < start || end <= k < buf.Length ==> buf[k] == old(buf[k])
        decreases end - p
      {
        ghost var b := buf[..];
        ghost var next, bytes := DecodingTurn(b, start, s, flags, p - start, q - start);
        var after, q' := TakeTurn(buf, p, q, value, s, next, bytes);
        if after.None? {
          return None;
        }
        DecodingStep(b, buf[..], start, s, flags, p - start, q - start, next.value, bytes);
        p, q := after.value, q';
      }
      DecodingEnd(buf[..], start, s, flags, q - start);
      r := Some(q);
    }

    /** One turn of that loop. */
    method TakeTurn(buf: array<char>, p: nat, q: nat, value: array<char>, ghost s: string,
      ghost next: Option<nat>, ghost bytes: string) returns (p': Option<nat>, q': nat)
      requires start <= q <= p < end == start + |s| < buf.Length && 4 <= value.Length && value != buf
      requires Unread(buf[..], start, s, q - start) && IsTurn(s, p - start, q - start, flags, next, bytes)
      modifies buf, value
      ensures p'.None? <==> next.None?
      ensures p'.Some? ==> p'.value == start + next.value && q' == q + |bytes| <= p'.value && buf[q..q'] == bytes
      ensures p'.Some? ==> forall k :: 0 <= k < q || q' <= k < buf.Length ==> buf[k] == old(buf[k])
      ensures p'.None? ==> buf[..] == old(buf[..])
    {
      hide CharacterRef, EntityAt;
      assert buf[p] == s[p - start] && buf[p + 1] == At(s, p - start + 1);
      if flags.newlines && buf[p] == CR {
        p' := Some(if buf[p + 1] == LF then p + 2 else p + 1);
        buf[q] := LF;
        q' := q + 1;
      } else if flags.newlines && buf[p] == LF {
        p' := Some(if buf[p + 1] == CR then p + 2 else p + 1);
        buf[q] := LF;
        q' := q + 1;
      } else if flags.entities && buf[p] == '&' {
        p', q' := TakeAmpersand(buf, p, q, value, s, next, bytes);
      } else {
        buf[q] := buf[p];
        p', q' := Some(p + 1), q + 1;
      }
    }

    /** The turn at an ampersand: a numeric reference, a known entity or an unknown one. */
    method TakeAmpersand(buf: array<char>, p: nat, q: nat, value: array<char>, ghost s: string,
      ghost next: Option<nat>, ghost bytes: string) returns (p': Option<nat>, q': nat)
      requires start <= q <= p < end == start + |s| < buf.Length && 4 <= value.Length && value != buf
      requires Unread(buf[..], start, s, q - start) && IsTurn(s, p - start, q - start, flags, next, bytes)
      requires flags.entities && s[p - start] == '&'
      modifies buf, value
      ensures p'.None? <==> next.None?
      ensures p'.Some? ==> p'.value == start + next.value && q' == q + |bytes| <= p'.value && buf[q..q'] == bytes
      ensures p'.Some? ==> forall k :: 0 <= k < q || q' <= k < buf.Length ==> buf[k] == old(buf[k])
      ensures p'.None? ==> buf[..] == old(buf[..])
    {
      hide CharacterRef, EntityAt, EntityMatches, Decode;
      assert buf[p + 1] == At(s, p - start + 1);
      if buf[p + 1] == '#' {
        var len: nat;
        p', len := GetCharacterRef(buf, p, value, start, s);
        if p'.None? {
          return None, q;
        }
        q' := CopyBytes(buf, q, value, len);
      } else {
        var e := FindEntity(buf, p, start, s);
        if e.Some? {
          buf[q] := e.value.value;
          p', q' := Some(p + |e.value.pattern| + 2), q + 1;
        } else {
          p', q' := Some(p + 1), q + 1;
        }
      }
    }
  }

  lemma DecodeStep(s: string, i: nat, q: nat, f: Flags) returns (next: Option<nat>, bytes: string)
    requires q <= i < |s|
    ensures IsTurn(s, i, q, f, next, bytes)
    ensures next.None? ==> Decode(s, i, q, f).None?
    ensures next.Some? ==> i < next.value <= |s| && q + |bytes| <= next.value
    ensures next.Some? ==> Decode(s, i, q, f) == Prefixed(bytes, Decode(s, next.value, q + |bytes|, f))
  {
    hide TurnAt, Written;
    if TurnAt(s, i, f).Crash? {
      return None, "";
    }
    next, bytes := Some(TurnAt(s, i, f).next), Written(s, i, q, f);
  }

  lemma NothingWritten(r: Option<string>)
    ensures Prefixed("", r) == r
  {
    assert r.Some? ==> "" + r.value == r.value;
  }

  /** What a turn writes is behind it. */
  lemma UnreadBehind(b: string, c: string, base: nat, s: string, i: nat, j: nat)
    requires Unread(b, base, s, i) && |c| == |b| && i <= j <= |s|
    requires forall k :: 0 <= k < base + i || base + j <= k < |b| ==> c[k] == b[k]
    ensures Unread(c, base, s, j)
  {
    assert c[base + |s|] == b[base + |s|];
  }

  lemma WrittenBehind(b: string, c: string, start: nat, q: nat, q': nat, bytes: string)
    requires start <= q <= q' <= |b| == |c| && c[q..q'] == bytes && forall k :: 0 <= k < q ==> c[k] == b[k]
    ensures c[start..q'] == b[start..q] + bytes
  {
    assert c[start..q'] == c[start..q] + c[q..q'];
  }

  /** The bytes `s[i..]` are still to be read, and what was written in front of `k` and what they decode
  to are together the reading. */
  ghost predicate Decoding(b: string, base: nat, s: string, f: Flags, i: nat, k: nat) {
    k <= i <= |s| && Unread(b, base, s, k) &&
    Reading(s, f) == Prefixed(b[base..base + k], Decode(s, i, k, f))
  }

  lemma DecodingStart(b: string, base: nat, s: string, f: Flags)
    requires Unread(b, base, s, 0)
    ensures Decoding(b, base, s, f, 0, 0)
  {
    NothingWritten(Reading(s, f));
    assert b[base..base + 0] == "";
  }

  lemma DecodingTurn(b: string, base: nat, s: string, f: Flags, i: nat, k: nat)
    returns (next: Option<nat>, bytes: string)
    requires Decoding(b, base, s, f, i, k) && i < |s|
    ensures Unread(b, base, s, k) && IsTurn(s, i, k, f, next, bytes)
    ensures next.Some? ==> i < next.value <= |s| && k + |bytes| <= next.value
    ensures next.None? ==> Reading(s, f).None?
  {
    hide Decode, Unread, IsTurn;
    next, bytes := DecodeStep(s, i, k, f);
  }

  lemma DecodingStep(b: string, c: string, base: nat, s: string, f: Flags, i: nat, k: nat, next: nat, bytes: string)
    requires Decoding(b, base, s, f, i, k) && i < |s| && IsTurn(s, i, k, f, Some(next), bytes)
    requires |c| == |b| && next <= |s| && k + |bytes| <= next && base + next <= |c|
    requires c[base + k..base + k + |bytes|] == bytes
    requires forall j :: 0 <= j < base + k || base + k + |bytes| <= j < |b| ==> c[j] == b[j]
    ensures Decoding(c, base, s, f, next, k + |bytes|)
  {
    hide Decode, Unread, TurnAt, Written;
    var next', bytes' := DecodeStep(s, i, k, f);
    UnreadBehind(b, c, base, s, k, k + |bytes|);
    UnreadBound(b, base, s, k);
    WrittenBehind(b, c, base, base + k, base + k + |bytes|, bytes);
    PrefixedTwice(b[base..base + k], bytes, Decode(s, next, k + |bytes|, f));
  }

  lemma UnreadBound(b: string, base: nat, s: string, i: nat)
    requires Unread(b, base, s, i)
    ensures base + |s| < |b|
  {
  }

  lemma DecodingEnd(b: string, base: nat, s: string, f: Flags, k: nat)
    requires Decoding(b, base, s, f, |s|, k)
    ensures base + k <= |b| && Reading(s, f) == Some(b[base..base + k])
  {
    DecodeEnd(s, k, f);
    assert b[base..base + k] + "" == b[base..base + k];
  }

  lemma DecodeEnd(s: string, q: nat, f: Flags)
    requires q <= |s|
    ensures Decode(s, |s|, q, f) == Some("")
  {
  }

  lemma PrefixedTwice(u: string, v: string, r: Option<string>)
    ensures Prefixed(u, Prefixed(v, r)) == Prefixed(u + v, r)
  {
    if r.Some? {
      assert u + (v + r.value) == (u + v) + r.value;
    }
  }

  method CopyBytes(buf: array<char>, q: nat, value: array<char>, len: nat) returns (r: nat)
    requires len <= value.Length && q + len <= buf.Length && buf != value
    modifies buf
    ensures r == q + len && buf[q..r] == value[..len]
    ensures forall k :: 0 <= k < q || r <= k < buf.Length ==> buf[k] == old(buf[k])
  {
    for i := 0 to len
      invariant forall k :: 0 <= k < i ==> buf[q + k] == value[k]
      invariant forall k :: 0 <= k < q || q + i <= k < buf.Length ==> buf[k] == old(buf[k])
    {
      buf[q + i] := value[i];
    }
    r := q + len;
  }

  /** The search through the entity table. */
  method FindEntity(buf: array<char>, p: nat, ghost base: nat, ghost s: string) returns (e: Option<Entity>)
    requires base <= p && p - base < |s| && Unread(buf[..], base, s, p - base)
    ensures e == EntityAt(s, p - base, 0)
  {
    hide HasAt, EntityMatches, Unread;
    var i := 0;
    while i < |ENTITIES|
      invariant 0 <= i <= |ENTITIES|
      invariant EntityAt(s, p - base, 0) == EntityAt(s, p - base, i)
    {
      EntityInBuffer(buf[..], base, s, p - base, ENTITIES[i]);
      if HasAt(buf[..], p + 1, ENTITIES[i].pattern) && buf[p + 1 + |ENTITIES[i].pattern|] == ';' {
        return Some(ENTITIES[i]);
      }
      i := i + 1;
    }
    e := None;
  }

  lemma EntityInBuffer(b: string, base: nat, s: string, i: nat, e: Entity)
    requires i < |s| && Unread(b, base, s, i) && e in ENTITIES
    ensures HasAt(b, base + i + 1, e.pattern) ==> base + i + 1 + |e.pattern| < |b|
    ensures HasAt(b, base + i + 1, e.pattern) && b[base + i + 1 + |e.pattern|] == ';' <==> EntityMatches(s, i, e)
  {
    assert NUL !in e.pattern;
    UnreadHasAt(b, base, s, i, i + 1, e.pattern);
  }

  // ----- reading the spans of a document in any order -----

  /** Spans in document order whose closed ranges are apart: no terminator falls into another span. */
  ghost predicate Apart(spans: seq<Span>, lo: nat, hi: nat) {
    (forall i :: 0 <= i < |spans| ==> lo <= spans[i].start <= spans[i].end < hi) &&
    forall i, j :: 0 <= i < j < |spans| ==> spans[i].end < spans[j].start
  }

  ghost function Meaning(text: string, span: Span): Option<string>
    requires span.start <= span.end <= |text|
  {
    Reading(text[span.start..span.end], span.flags)
  }

  /** The buffer of a parsed document and the pairs of its nodes, read lazily and in any order. */
  class LazyStrings {
    const buf: array<char>
    const pairs: seq<StrPair>
    ghost const text: string
    ghost const spans: seq<Span>

    constructor (buf: array<char>, pairs: seq<StrPair>, ghost text: string, ghost spans: seq<Span>)
      requires buf.Length == |text| + 1 && |pairs| == |spans| && Apart(spans, 0, |text| + 1) && NUL !in text
      requires forall i, j :: 0 <= i < j < |pairs| ==> pairs[i] != pairs[j]
      requires forall i :: 0 <= i < |spans| ==> pairs[i].start == spans[i].start && pairs[i].end == spans[i].end
      requires forall i :: 0 <= i < |spans| ==> pairs[i].needsFlush && pairs[i].flags == spans[i].flags
      requires forall i :: 0 <= i < |spans| ==> HasAt(buf[..], spans[i].start, text[spans[i].start..spans[i].end])
      ensures Valid() && this.pairs == pairs && this.spans == spans && this.text == text && this.buf == buf
    {
      this.buf, this.pairs, this.text, this.spans := buf, pairs, text, spans;
    }

    ghost predicate Valid()
      reads this, buf, pairs
    {
      buf.Length == |text| + 1 && |pairs| == |spans| && Apart(spans, 0, |text| + 1) && NUL !in text &&
      (forall i, j :: 0 <= i < j < |pairs| ==> pairs[i] != pairs[j]) &&
      (forall i :: 0 <= i < |spans| ==> pairs[i].start == spans[i].start && pairs[i].end == spans[i].end) &&
      forall i :: 0 <= i < |spans| ==> Holds(i)
    }

    /** A span not yet read holds its text; one already read holds its meaning and a terminator. */
    ghost predicate Holds(i: nat)
      requires i < |spans| && |pairs| == |spans| && spans[i].start <= spans[i].end <= |text|
      reads this, buf, pairs
    {
      if pairs[i].needsFlush then
        pairs[i].flags == spans[i].flags && HasAt(buf[..], spans[i].start, text[spans[i].start..spans[i].end])
      else
        Meaning(text, spans[i]).Some? && HasAt(buf[..], spans[i].start, Meaning(text, spans[i]).value + [NUL])
    }

    /** Reading one string leaves the meaning of every string, read or not, as it was; a string without
    meaning has none to give. */
    method Value(i: nat) returns (str: Option<nat>)
      requires Valid() && i < |pairs|
      modifies buf, pairs[i]
      ensures str.None? <==> Meaning(text, spans[i]).None?
      ensures str.Some? ==> Valid() && str.value == spans[i].start && !pairs[i].needsFlush
      ensures str.Some? ==> HasAt(buf[..], str.value, Meaning(text, spans[i]).value + [NUL])
    {
      hide Decode, Reading;
      var pair := pairs[i];
      ghost var sp, b := spans[i], buf[..];
      assert Holds(i);
      if pair.needsFlush {
        assert buf[sp.start..sp.end] == text[sp.start..sp.end];
      }
      str := pair.GetStr(buf);
      if str.None? {
        return;
      }
      forall j | 0 <= j < |spans| && j != i ensures Holds(j) {
        assert old(Holds(j)) && pairs[j] != pair;
        StillHeld(b, buf[..], text, sp, spans[j], pairs[j].needsFlush);
      }
      assert Holds(i);
    }

    /** Any sequence of reads, with repetitions, finds the meaning of every span at its start, and gets
    through exactly if every span has one. */
    method ReadAll(order: seq<nat>) returns (read: bool)
      requires Valid() && forall k :: 0 <= k < |order| ==> order[k] < |pairs|
      modifies buf, pairs
      ensures read <==> forall k :: 0 <= k < |order| ==> Meaning(text, spans[order[k]]).Some?
      ensures read ==> Valid()
      ensures read ==> forall k :: 0 <= k < |order| ==>
        HasAt(buf[..], spans[order[k]].start, Meaning(text, spans[order[k]]).value + [NUL])
    {
      hide Meaning;
      for n := 0 to |order|
        invariant Valid()
        invariant forall k :: 0 <= k < n ==> !pairs[order[k]].needsFlush && Meaning(text, spans[order[k]]).Some?
      {
        var str := Value(order[n]);
        if str.None? {
          return false;
        }
      }
      forall k | 0 <= k < |order|
        ensures HasAt(buf[..], spans[order[k]].start, Meaning(text, spans[order[k]]).value + [NUL])
      {
        assert Holds(order[k]);
      }
      read := true;
    }
  }

  /** What lies in another span than the one that was read is still there. */
  lemma StillHeld(b: string, c: string, text: string, read: Span, other: Span, needsFlush: bool)
    requires read.start <= read.end <= |text| && other.start <= other.end <= |text| && |b| == |c| == |text| + 1
    requires read.end < other.start || other.end < read.start
    requires b[..read.start] == c[..read.start] && b[read.end + 1..] == c[read.end + 1..]
    requires if needsFlush then HasAt(b, other.start, text[other.start..other.end])
      else Meaning(text, other).Some? && HasAt(b, other.start, Meaning(text, other).value + [NUL])
    ensures if needsFlush then HasAt(c, other.start, text[other.start..other.end])
      else HasAt(c, other.start, Meaning(text, other).value + [NUL])
  {
    hide Decode, Reading;
    if needsFlush {
      Elsewhere(b, c, read.start, read.end + 1, other.start, text[other.start..other.end]);
    } else {
      MeaningFits(text, other);
      Elsewhere(b, c, read.start, read.end + 1, other.start, Meaning(text, other).value + [NUL]);
    }
  }

  lemma Elsewhere(b: string, c: string, lo: nat, hi: nat, start: nat, w: string)
    requires |b| == |c| && lo <= hi <= |b| && b[..lo] == c[..lo] && b[hi..] == c[hi..]
    requires start + |w| <= lo || hi <= start
    ensures HasAt(b, start, w) <==> HasAt(c, start, w)
  {
    if start + |w| <= |b| {
      if start + |w| <= lo {
        assert b[start..start + |w|] == b[..lo][start..start + |w|];
        assert c[start..start + |w|] == c[..lo][start..start + |w|];
      } else {
        assert forall k :: start <= k < start + |w| ==> b[k] == b[hi..][k - hi] && c[k] == c[hi..][k - hi];
        assert b[start..start + |w|] == c[start..start + |w|];
      }
    }
  }

  lemma MeaningFits(text: string, span: Span)
    requires span.start <= span.end <= |text| && Meaning(text, span).Some?
    ensures span.start + |Meaning(text, span).value| <= span.end
  {
  }
}
