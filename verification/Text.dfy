/** Byte strings as tinyxml2 sees them.

A C `char` is a Dafny `char`, one per byte; a text is the content of a NUL-terminated buffer,
without the terminator, and `At` reads the terminator just behind the end. */
module Text {
  import opened Options

  const NUL: char := '\0'
  const LF: char := '\n'
  const CR: char := '\r'

  /** The byte at `p`, where every position behind the text holds the terminator. */
  function At(s: string, p: nat): char {
    if p < |s| then s[p] else NUL
  }

  /** The C comparison `strncmp(p, w, strlen(w)) == 0` at position `p` of `s`. */
  predicate HasAt(s: string, p: nat, w: string) {
    p + |w| <= |s| && s[p..p + |w|] == w
  }

  lemma HasAtConcat(s: string, p: nat, u: string, v: string)
    ensures HasAt(s, p, u + v) <==> HasAt(s, p, u) && HasAt(s, p + |u|, v)
  {
    if HasAt(s, p, u) && HasAt(s, p + |u|, v) {
      assert s[p..p + |u + v|] == s[p..p + |u|] + s[p + |u|..p + |u| + |v|];
    }
    if HasAt(s, p, u + v) {
      assert s[p..p + |u|] == s[p..p + |u + v|][..|u|];
      assert s[p + |u|..p + |u| + |v|] == s[p..p + |u + v|][|u|..];
    }
  }

  lemma HasAtBound(s: string, p: nat, w: string)
    requires HasAt(s, p, w)
    ensures p + |w| <= |s|
  {
  }

  lemma HasAtChar(s: string, p: nat, w: string, k: nat)
    requires HasAt(s, p, w) && k < |w|
    ensures p + k < |s| && s[p + k] == w[k]
  {
    assert s[p..p + |w|][k] == w[k];
  }

  /** A byte that differs rules an occurrence out. */
  lemma NotHasAt(s: string, p: nat, w: string, k: nat)
    requires k < |w| && At(s, p + k) != w[k] && w[k] != NUL
    ensures !HasAt(s, p, w)
  {
    assert p + |w| <= |s| ==> s[p..p + |w|][k] == s[p + k];
  }

  /** Inside an occurrence of `v` the text is `v`. */
  lemma HasAtInside(s: string, p: nat, v: string, k: nat, w: string)
    requires HasAt(s, p, v) && p <= k && k + |w| <= p + |v|
    ensures HasAt(s, k, w) <==> HasAt(v, k - p, w)
  {
    var a := k - p;
    assert forall m :: a <= m < a + |w| ==> v[m] == s[p..p + |v|][m] == s[p + m];
    assert v[a..a + |w|] == s[p + a..p + a + |w|];
  }

  /** `isspace` in the C locale; the bytes from 0x80 up are not white space. */
  predicate IsSpace(c: char) {
    c == ' ' || '\t' <= c <= '\r'
  }

  predicate IsAsciiAlpha(c: char) {
    'a' <= c <= 'z' || 'A' <= c <= 'Z'
  }

  predicate IsAlpha(c: char) {
    IsAsciiAlpha(c) || 0x80 <= c as int
  }

  predicate IsNameChar(c: char) {
    IsAlpha(c) || '0' <= c <= '9' || c == '_' || c == '-' || c == '.' || c == ':'
  }

  /** The position `XMLUtil::SkipWhiteSpace` stops at. */
  function SkipSpace(s: string, p: nat): (q: nat)
    requires p <= |s|
    ensures p <= q <= |s|
    ensures forall k :: p <= k < q ==> IsSpace(s[k])
    ensures q < |s| ==> !IsSpace(s[q])
    decreases |s| - p
  {
    if p < |s| && IsSpace(s[p]) then SkipSpace(s, p + 1) else p
  }

  lemma {:induction false} SkipSpaceIs(s: string, p: nat, q: nat)
    requires p <= q <= |s|
    requires forall k :: p <= k < q ==> IsSpace(s[k])
    requires q < |s| ==> !IsSpace(s[q])
    ensures SkipSpace(s, p) == q
    decreases q - p
  {
    if p < q {
      SkipSpaceIs(s, p + 1, q);
    }
  }

  /** The end of the run of name characters starting at `p`. */
  function NameEnd(s: string, p: nat): (q: nat)
    requires p <= |s|
    ensures p <= q <= |s|
    ensures forall k :: p <= k < q ==> IsNameChar(s[k])
    ensures q < |s| ==> !IsNameChar(s[q])
    decreases |s| - p
  {
    if p < |s| && IsNameChar(s[p]) then NameEnd(s, p + 1) else p
  }

  lemma {:induction false} NameEndIs(s: string, p: nat, q: nat)
    requires p <= q <= |s|
    requires forall k :: p <= k < q ==> IsNameChar(s[k])
    requires q < |s| ==> !IsNameChar(s[q])
    ensures NameEnd(s, p) == q
    decreases q - p
  {
    if p < q {
      NameEndIs(s, p + 1, q);
    }
  }

  /** The first occurrence of `w` in `s` at or behind `p`. */
  function Find(s: string, p: nat, w: string): (r: Option<nat>)
    requires p <= |s|
    ensures r.Some? ==> p <= r.value && HasAt(s, r.value, w) && forall k :: p <= k < r.value ==> !HasAt(s, k, w)
    ensures r.None? ==> forall k :: p <= k <= |s| ==> !HasAt(s, k, w)
    decreases |s| - p
  {
    if HasAt(s, p, w) then Some(p)
    else if p < |s| then Find(s, p + 1, w)
    else None
  }

  lemma {:induction false} FindIs(s: string, p: nat, q: nat, w: string)
    requires p <= q && HasAt(s, q, w)
    requires forall k :: p <= k < q ==> !HasAt(s, k, w)
    ensures Find(s, p, w) == Some(q)
    decreases q - p
  {
    if p < q {
      FindIs(s, p + 1, q, w);
    }
  }
}
