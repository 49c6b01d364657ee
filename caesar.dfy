/**
 * The Caesar codec of `Encryptor`: ASCII letters move cyclically within their
 * case, every other character is copied.  This module holds the specification
 * functions; the loops that compute them are `Engine.Encryptor.EncodeCaesar`
 * and `DecodeCaesar`.
 */
module Caesar {
  import opened JavaText
  import opened ModArith

  /** The first letter of c's case: 'A' for upper case, 'a' for lower case (lines 113-117). */
  function CaseBase(c: Char16): (b: Char16)
    requires IsLetter(c)
    ensures b <= c <= b + 25
    ensures IsUpper(c) <==> b == 'A' as int
    ensures IsLower(c) <==> b == 'a' as int
  {
    if IsUpper(c) then 'A' as int else 'a' as int
  }

  /** Both directions replace a negative shift by 12 (lines 106-108, 207-209). */
  function NormalizedShift(shift: int): (k: int)
    ensures k >= 0
    ensures shift >= 0 ==> k == shift
    ensures shift < 0 ==> k == 12
  {
    if shift < 0 then 12 else shift
  }

  /**
   * `decodeCaesar`'s complementary shift of a normalised shift (lines 219-223):
   * it lies in 0..26 and undoes the shift modulo 26.
   */
  function ComplementShift(shift: int): (k: int)
    requires shift >= 0
    ensures 0 <= k <= 26
    ensures (shift + k) % 26 == 0
  {
    ModAddMultiple(26, shift / 26, 26);
    if shift > 26 then 26 - shift % 26 else 26 - shift
  }

  /**
   * The shift `decodeCaesar` applies for a given parameter.  It never exceeds
   * 26, so decoding cannot overflow whatever the parameter.
   */
  function DecodeShift(shift: int): (k: int)
    ensures 0 <= k <= 26
  {
    ComplementShift(NormalizedShift(shift))
  }

  /**
   * The asymmetric edges of the complement: 0 decodes by 26 and 26 by 0, a
   * negative shift decodes as 12 does, and 27 decodes as 1 does.
   */
  lemma DecodeShiftEdges()
    ensures DecodeShift(0) == 26 && DecodeShift(26) == 0
    ensures DecodeShift(-5) == 14 && DecodeShift(27) == 25
    ensures DecodeShift(0x7FFF_FFFF) == 3
  {
  }

  /**
   * One letter, as lines 118-126 compute it: add the shift, and if that passes
   * the last letter of the case, take `position % (25 + base) - 1` as the offset
   * from the case base.  The `(char)` casts keep the low 16 bits.
   */
  function ShiftLetter(c: Char16, shift: int): Char16
    requires IsLetter(c) && 0 <= shift < ParamLimit
  {
    var base := CaseBase(c);
    var position := c + shift;
    if position > base + 25 then
      var finalPos := position % (25 + base) - 1;
      ToChar16(base + finalPos)
    else
      ToChar16(position)
  }

  /** Non-letters are copied unchanged (lines 110-111). */
  function ShiftChar(c: Char16, shift: int): Char16
    requires 0 <= shift < ParamLimit
  {
    if IsLetter(c) then ShiftLetter(c, shift) else c
  }

  function Shifted(s: Text, shift: int): Text
    requires 0 <= shift < ParamLimit
  {
    seq(|s|, i requires 0 <= i < |s| => ShiftChar(s[i], shift))
  }

  /** What `encodeCaesar(s, shift)` returns. */
  function CaesarEncoded(s: Text, shift: int): Text
    requires shift < ParamLimit
  {
    Shifted(s, NormalizedShift(shift))
  }

  /** What `decodeCaesar(s, shift)` returns. */
  function CaesarDecoded(s: Text, shift: int): Text {
    Shifted(s, DecodeShift(shift))
  }

  /** The textbook Caesar step: k places further in the 26 letters of c's case. */
  function Rotate26(c: Char16, k: int): Char16
    requires IsLetter(c)
  {
    CaseBase(c) + (c - CaseBase(c) + k) % 26
  }

  /**
   * For a shift in 0..26 the single-wrap arithmetic of lines 118-126 is the
   * textbook Caesar step; a sum landing exactly on the last letter does not wrap.
   * The result is a letter of the same case.
   */
  lemma ShiftLetterIsRotate26(c: Char16, shift: int)
    requires IsLetter(c) && 0 <= shift <= 26
    ensures ShiftLetter(c, shift) == Rotate26(c, shift)
    ensures IsLetter(Rotate26(c, shift)) && (IsUpper(Rotate26(c, shift)) <==> IsUpper(c))
    ensures CaseBase(Rotate26(c, shift)) == CaseBase(c)
  {
    var base := CaseBase(c);
    var position := c + shift;
    var offset := c - base + shift;
    if position > base + 25 {
      DivModUnique(position, 25 + base, 1, position - 25 - base);
      DivModUnique(offset, 26, 1, offset - 26);
    } else {
      ModSmall(offset, 26);
    }
  }

  /** Two textbook steps whose amounts cancel modulo 26 give the letter back. */
  lemma Rotate26Cancels(c: Char16, a: int, b: int)
    requires IsLetter(c) && 0 <= a && 0 <= b && (a + b) % 26 == 0
    ensures IsLetter(Rotate26(c, a)) && Rotate26(Rotate26(c, a), b) == c
  {
    var base, o := CaseBase(c), c - CaseBase(c);
    var e := Rotate26(c, a);
    ModSmall(o, 26);
    if IsUpper(c) {
      assert CaseBase(e) == base;
    } else {
      assert CaseBase(e) == base;
    }
    ModAddMod(o + a, b, 26);
    DivModUnique(a + b, 26, (a + b) / 26, 0);
    ModAddMultiple(o, (a + b) / 26, 26);
  }

  /**
   * Encoding (lines 106-126) keeps the length and every non-letter; for a shift
   * up to 26 (a negative one counting as 12) every letter takes the textbook
   * Caesar step within its case.
   */
  lemma CaesarEncodeSpec(s: Text, shift: int)
    requires IsAscii(s) && shift < ParamLimit
    ensures var r := CaesarEncoded(s, shift);
            && |r| == |s|
            && (forall i :: 0 <= i < |s| && !IsLetter(s[i]) ==> r[i] == s[i])
            && (shift <= 26 ==>
                  IsAscii(r) &&
                  forall i :: 0 <= i < |s| && IsLetter(s[i]) ==>
                    r[i] == Rotate26(s[i], NormalizedShift(shift)) && (IsUpper(r[i]) <==> IsUpper(s[i])))
  {
    var r, k := CaesarEncoded(s, shift), NormalizedShift(shift);
    if shift <= 26 {
      forall i | 0 <= i < |s| && IsLetter(s[i])
        ensures r[i] == Rotate26(s[i], k) && IsLetter(r[i]) && (IsUpper(r[i]) <==> IsUpper(s[i]))
      {
        ShiftLetterIsRotate26(s[i], k);
      }
    }
  }

  /**
   * Decoding (lines 207-232) is the textbook Caesar step by the complementary
   * shift, for every parameter: that shift always lies in 0..26.
   */
  lemma CaesarDecodeSpec(s: Text, shift: int)
    requires IsAscii(s)
    ensures var r := CaesarDecoded(s, shift);
            && |r| == |s| && IsAscii(r)
            && (forall i :: 0 <= i < |s| && !IsLetter(s[i]) ==> r[i] == s[i])
            && (forall i :: 0 <= i < |s| && IsLetter(s[i]) ==>
                  r[i] == Rotate26(s[i], DecodeShift(shift)) && (IsUpper(r[i]) <==> IsUpper(s[i])))
  {
    var r, k := CaesarDecoded(s, shift), DecodeShift(shift);
    forall i | 0 <= i < |s| && IsLetter(s[i])
      ensures r[i] == Rotate26(s[i], k) && IsLetter(r[i]) && (IsUpper(r[i]) <==> IsUpper(s[i]))
    {
      ShiftLetterIsRotate26(s[i], k);
    }
  }

  /**
   * Round trip: for ASCII text and every shift up to 26 (negative ones included),
   * decoding undoes encoding and encoding undoes decoding.
   */
  lemma CaesarRoundTrip(s: Text, shift: int)
    requires IsAscii(s) && shift <= 26
    ensures CaesarDecoded(CaesarEncoded(s, shift), shift) == s
    ensures CaesarEncoded(CaesarDecoded(s, shift), shift) == s
  {
    var a, b := NormalizedShift(shift), DecodeShift(shift);
    var e, d := CaesarEncoded(s, shift), CaesarDecoded(s, shift);
    CaesarEncodeSpec(s, shift);
    CaesarDecodeSpec(s, shift);
    CaesarEncodeSpec(d, shift);
    CaesarDecodeSpec(e, shift);
    forall i | 0 <= i < |s| && IsLetter(s[i])
      ensures CaesarDecoded(e, shift)[i] == s[i] && CaesarEncoded(d, shift)[i] == s[i]
    {
      Rotate26Cancels(s[i], a, b);
      Rotate26Cancels(s[i], b, a);
    }
  }

  /**
   * Past 26 the single wrap of line 121 no longer lands on a letter: 'z' shifted
   * by 27 becomes '{', which decoding then copies, so the round trip fails there.
   */
  lemma EncodeBeyond26LeavesAlphabet()
    ensures ShiftLetter('z' as int, 27) == '{' as int
    ensures CaesarDecoded(CaesarEncoded(['z' as int], 27), 27) == ['{' as int]
  {
    var e := CaesarEncoded(['z' as int], 27);
    assert e[0] == '{' as int;
  }
}
