/** Java's 16-bit `char`, the text built from it, and the bounds shared by the codecs. */
module JavaText {

  /** One UTF-16 code unit, the value of a Java `char`. */
  type Char16 = x: int | 0 <= x < 0x1_0000

  /** A Java `String`, as the code units `toCharArray` yields. */
  type Text = seq<Char16>

  /** Largest parameter + 1 for which `position += shift` and `k + rotation` cannot overflow a Java `int`. */
  const ParamLimit: int := 0x8000_0000 - 0x1_0000

  /** Java's narrowing cast `(char) x`: keeps the low 16 bits, so it is the identity on code units. */
  function ToChar16(x: int): (c: Char16)
    ensures 0 <= x < 0x1_0000 ==> c == x
    ensures (x - c) % 0x1_0000 == 0
  {
    x % 0x1_0000
  }

  /** Every code unit is below 128. */
  predicate IsAscii(s: Text) {
    forall i :: 0 <= i < |s| ==> s[i] < 128
  }

  /** `Character.isUpperCase` on ASCII: 'A'..'Z'. */
  predicate IsUpper(c: Char16) {
    'A' as int <= c <= 'Z' as int
  }

  /** `Character.isLowerCase` on ASCII: 'a'..'z'. */
  predicate IsLower(c: Char16) {
    'a' as int <= c <= 'z' as int
  }

  /** `Character.isAlphabetic` on ASCII: exactly the upper- and lower-case letters. */
  predicate IsLetter(c: Char16) {
    IsUpper(c) || IsLower(c)
  }
}
