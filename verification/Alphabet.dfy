/** The characters, entities and encodings of tinyxml2, code by code. */
module Alphabet {
  import opened Options
  import opened Text
  import opened Entities
  import PrintSpec

  /** White space are the codes 9 to 13 and 32. */
  lemma SpaceCodes(c: char)
    ensures IsSpace(c) <==> c as int in {9, 10, 11, 12, 13, 32}
  {
  }

  /** A name begins with a letter or a byte of a longer UTF-8 sequence, and goes on with those, decimal digits, and the
  codes 45, 46, 58 and 95. */
  lemma NameCodes(c: char)
    ensures IsAlpha(c) <==> 65 <= c as int <= 90 || 97 <= c as int <= 122 || 128 <= c as int
    ensures IsNameChar(c) <==>
      65 <= c as int <= 90 || 97 <= c as int <= 122 || 128 <= c as int || 48 <= c as int <= 57 ||
      c as int in {45, 46, 58, 95}
  {
  }

  /** The value of a digit is its distance from the code of zero, or ten more than that from a letter `a` or `A`. */
  lemma DigitCodes(c: char)
    ensures Digit(c, false) == if 48 <= c as int <= 57 then Some(c as nat - 48) else None
    ensures Digit(c, true) ==
      if 48 <= c as int <= 57 then Some(c as nat - 48)
      else if 65 <= c as int <= 70 then Some(c as nat - 55)
      else if 97 <= c as int <= 102 then Some(c as nat - 87)
      else None
  {
  }

  /** The bytes of an encoding: the lead byte says how many there are, and each of the others carries six bits. */
  lemma Utf8Codes(c: nat)
    requires c < 0x20_0000
    ensures c < 128 ==> |Utf8(c)| == 1 && Utf8(c)[0] as nat == c
    ensures 128 <= c < 2048 ==> |Utf8(c)| == 2 && Utf8(c)[0] as nat == 192 + c / 64 && Utf8(c)[1] as nat == 128 + c % 64
    ensures 2048 <= c < 65536 ==>
      |Utf8(c)| == 3 && Utf8(c)[0] as nat == 224 + c / 4096 && Utf8(c)[1] as nat == 128 + c / 64 % 64 &&
      Utf8(c)[2] as nat == 128 + c % 64
    ensures 65536 <= c ==>
      |Utf8(c)| == 4 && Utf8(c)[0] as nat == 240 + c / 262144 && Utf8(c)[1] as nat == 128 + c / 4096 % 64 &&
      Utf8(c)[2] as nat == 128 + c / 64 % 64 && Utf8(c)[3] as nat == 128 + c % 64
  {
  }

  /** The mark in front of a document is the encoding of the code point 0xFEFF. */
  lemma ByteOrderMark()
    ensures PrintSpec.BOM == Utf8(0xFEFF) == [239 as char, 187 as char, 191 as char]
  {
  }

  lemma OneEntity(s: string, e: Entity)
    requires e in ENTITIES && s == "&" + e.pattern + ";"
    ensures Reading(s, BOTH) == Some([e.value])
  {
    assert s[1..1 + |e.pattern|] == e.pattern;
    EntityUnique(s, 0, e);
    assert TurnAt(s, 0, BOTH) == Put(|s|, [e.value]);
    assert Decode(s, |s|, 1, BOTH) == Some("") && [e.value] + "" == [e.value];
  }

  /** The five entities, and what is written for their characters. */
  lemma KnownEntities()
    ensures Reading("&quot;", BOTH) == Some("\"") && Reading("&amp;", BOTH) == Some("&")
    ensures Reading("&apos;", BOTH) == Some("'") && Reading("&lt;", BOTH) == Some("<")
    ensures Reading("&gt;", BOTH) == Some(">")
    ensures EscapeChar('\"', false) == "&quot;" && EscapeChar('&', false) == "&amp;"
    ensures EscapeChar('\'', false) == "&apos;"
    ensures EscapeChar('<', false) == "&lt;" && EscapeChar('>', false) == "&gt;"
  {
    hide Decode;
    OneEntity("&quot;", ENTITIES[0]);
    OneEntity("&amp;", ENTITIES[1]);
    OneEntity("&apos;", ENTITIES[2]);
    OneEntity("&lt;", ENTITIES[3]);
    OneEntity("&gt;", ENTITIES[4]);
  }

  /** In text and attributes five characters are escaped, in text the two quotes are not. */
  lemma EscapedCodes(c: char, restricted: bool)
    ensures EscapeChar(c, restricted) == [c] <==>
      !(c as int in {38, 60, 62}) && (restricted || !(c as int in {34, 39}))
  {
  }

  /** A word stands at a place if each of its bytes does. */
  lemma WordIff(s: string, p: nat, w: string)
    ensures HasAt(s, p, w) <==> p + |w| <= |s| && forall k :: 0 <= k < |w| ==> s[p + k] == w[k]
  {
    if p + |w| <= |s| && forall k :: 0 <= k < |w| ==> s[p + k] == w[k] {
      assert s[p..p + |w|] == w;
    }
    if HasAt(s, p, w) {
      forall k | 0 <= k < |w| ensures s[p + k] == w[k] {
        HasAtChar(s, p, w, k);
      }
    }
  }
}
