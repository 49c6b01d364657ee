/**
 * The Base-N codec of `Encryptor`: every code unit becomes a fixed-width
 * group of binary or lower-case hexadecimal digits, and decoding reads the
 * groups back.  This module holds the specification functions; the loops
 * that compute them are `Engine.Encryptor.EncodeBaseN` and `DecodeBaseN`.
 */
module BaseN {
  import opened Outcomes
  import opened JavaText
  import opened ModArith

  /** The two radixes the codec renders in. */
  predicate IsRadix(radix: int) {
    radix == 2 || radix == 16
  }

  /** `encodeBaseN`'s normalisation: a base other than 2 or 16 is treated as 16. */
  function EncodeRadix(base: int): (radix: int)
    ensures IsRadix(radix)
    ensures radix == 2 <==> base == 2
  {
    if base != 2 && base != 16 then 16 else base
  }

  /** `decodeBaseN`'s choice: base 2 reads binary groups, any other base hexadecimal ones. */
  function DecodeRadix(base: int): (radix: int)
    ensures IsRadix(radix)
    ensures radix == EncodeRadix(base)
  {
    if base == 2 then 2 else 16
  }

  /** The group width: 8 binary or 2 hexadecimal digits, exactly enough for a value below 256. */
  function GroupWidth(radix: int): (w: nat)
    requires IsRadix(radix)
    ensures w >= 1
  {
    if radix == 2 then 8 else 2
  }

  /** `Character.digit(c, radix)` on ASCII: '0'..'9', then 'a'..'z' or 'A'..'Z' from 10 on. */
  function DigitValue(c: Char16, radix: int): (d: Option<nat>)
    ensures d.Some? ==> d.value < radix
  {
    var v :=
      if '0' as int <= c <= '9' as int then c - '0' as int
      else if 'a' as int <= c <= 'z' as int then c - 'a' as int + 10
      else if 'A' as int <= c <= 'Z' as int then c - 'A' as int + 10
      else -1;
    if 0 <= v < radix then Some(v) else None
  }

  /** The lower-case digit for d, as `Integer.toBinaryString` and `toHexString` write it. */
  function DigitChar(d: nat): (c: Char16)
    requires d < 16
    ensures forall radix :: d < radix <= 16 ==> DigitValue(c, radix) == Some(d)
  {
    if d < 10 then '0' as int + d else 'a' as int + (d - 10)
  }

  predicate AllDigits(s: Text, radix: int) {
    forall i :: 0 <= i < |s| ==> DigitValue(s[i], radix).Some?
  }

  /** The value of a digit string, most significant digit first; None if a character is not a digit. */
  function DigitsValue(s: Text, radix: int): (v: Option<nat>)
    requires IsRadix(radix)
    ensures v.Some? <==> AllDigits(s, radix)
  {
    if s == [] then Some(0)
    else
      var hi, d := DigitsValue(s[..|s| - 1], radix), DigitValue(s[|s| - 1], radix);
      if hi.Some? && d.Some? then Some(hi.value * radix + d.value) else None
  }

  /** The natural rendering of v (no leading zeros, "0" for zero) that the Java library produces. */
  function Digits(v: nat, radix: int): (s: Text)
    requires IsRadix(radix)
    ensures |s| >= 1 && AllDigits(s, radix)
    decreases v
  {
    if v < radix then [DigitChar(v)]
    else Digits(v / radix, radix) + [DigitChar(v % radix)]
  }

  /** `String.format("%ws", s).replace(' ', '0')`: left-pads with '0' up to width w and never truncates. */
  function Pad(s: Text, w: nat): (p: Text)
    ensures |p| == if |s| < w then w else |s|
    ensures p[|p| - |s|..] == s
    ensures forall i :: 0 <= i < |p| - |s| ==> p[i] == '0' as int
  {
    if |s| < w then seq(w - |s|, _ => '0' as int) + s else s
  }

  /** The group one code unit becomes (lines 78-87). */
  function Group(c: Char16, radix: int): Text
    requires IsRadix(radix)
  {
    Pad(Digits(c, radix), GroupWidth(radix))
  }

  /** The groups of all code units of s, concatenated in input order. */
  function Encoded(s: Text, radix: int): Text
    requires IsRadix(radix)
  {
    if s == [] then [] else Group(s[0], radix) + Encoded(s[1..], radix)
  }

  /** What `encodeBaseN(s, base)` returns. */
  function EncodeBaseN(s: Text, base: int): Text {
    Encoded(s, EncodeRadix(base))
  }

  /** The two exceptions `decodeBaseN` can throw. */
  datatype DecodeError =
    | GroupOutOfRange  // `substring(i, i + w)` past the end: a trailing partial group
    | BadDigit         // `Integer.parseInt` rejects a group: NumberFormatException

  /** `Integer.parseInt(g, radix)` on ASCII text: an optional '+' or '-', then at least one digit. */
  function ParseInt(g: Text, radix: int): Option<int>
    requires IsRadix(radix)
  {
    if g == [] then None
    else if g[0] == '-' as int || g[0] == '+' as int then
      if |g| == 1 then None
      else
        var v := DigitsValue(g[1..], radix);
        if v.None? then None
        else if g[0] == '-' as int then Some(0 - v.value) else Some(v.value)
    else
      var v := DigitsValue(g, radix);
      if v.None? then None else Some(v.value)
  }

  /** Reads t group by group, left to right; the first failing group decides the error. */
  function Decoded(t: Text, radix: int): Result<Text, DecodeError>
    requires IsRadix(radix)
    decreases |t|
  {
    var w := GroupWidth(radix);
    if t == [] then Ok([])
    else if |t| < w then Err(GroupOutOfRange)
    else
      var v := ParseInt(t[..w], radix);
      if v.None? then Err(BadDigit)
      else
        match Decoded(t[w..], radix)
        case Err(e) => Err(e)
        case Ok(rest) => Ok([ToChar16(v.value)] + rest)
  }

  /** What `decodeBaseN(t, base)` returns, or the exception it throws. */
  function DecodeBaseN(t: Text, base: int): Result<Text, DecodeError> {
    Decoded(t, DecodeRadix(base))
  }

  /** The text already decoded in front of the outcome of decoding the rest. */
  function Prefixed(done: Text, r: Result<Text, DecodeError>): Result<Text, DecodeError> {
    match r
    case Ok(rest) => Ok(done + rest)
    case Err(e) => Err(e)
  }

  /** Nothing in front changes no outcome. */
  lemma PrefixedNothing(r: Result<Text, DecodeError>)
    ensures Prefixed([], r) == r
  {
    if r.Ok? {
      assert [] + r.value == r.value;
    }
  }

  /** Two prefixes in turn are one prefix, the first in front. */
  lemma PrefixedTwice(a: Text, b: Text, r: Result<Text, DecodeError>)
    ensures Prefixed(a, Prefixed(b, r)) == Prefixed(a + b, r)
  {
    if r.Ok? {
      assert a + (b + r.value) == (a + b) + r.value;
    }
  }

  // ---------------------------------------------------------------------
  // Rendering a single code unit

  lemma {:induction false} DigitsValueOfDigits(v: nat, radix: int)
    requires IsRadix(radix)
    ensures DigitsValue(Digits(v, radix), radix) == Some(v)
    decreases v
  {
    var s := Digits(v, radix);
    if v < radix {
      assert s[..0] == [];
    } else {
      DigitsValueOfDigits(v / radix, radix);
      assert s[..|s| - 1] == Digits(v / radix, radix);
    }
  }

  lemma {:induction false} LeadingZerosKeepValue(n: nat, s: Text, radix: int)
    requires IsRadix(radix)
    ensures DigitsValue(seq(n, _ => '0' as int) + s, radix) == DigitsValue(s, radix)
    decreases |s|, n
  {
    var z := seq(n, _ => '0' as int);
    if s == [] {
      assert z + s == z;
      if n > 0 {
        assert z[..n - 1] == seq(n - 1, _ => '0' as int);
        LeadingZerosKeepValue(n - 1, [], radix);
        assert seq(n - 1, _ => '0' as int) + [] == seq(n - 1, _ => '0' as int);
      }
    } else {
      var s' := s[..|s| - 1];
      assert (z + s)[..|z + s| - 1] == z + s';
      LeadingZerosKeepValue(n, s', radix);
    }
  }

  /** The number of digits of v is at most k exactly when v < radix^k. */
  lemma {:induction false} DigitsLength(v: nat, radix: int, k: nat)
    requires IsRadix(radix) && k >= 1
    ensures |Digits(v, radix)| <= k <==> v < Pow(radix, k)
    decreases k
  {
    PowAtLeastBase(radix, k);
    if v >= radix {
      if k == 1 {
      } else {
        DigitsLength(v / radix, radix, k - 1);
        DivBelow(v, radix, Pow(radix, k - 1));
      }
    }
  }

  lemma {:induction false} PowAtLeastBase(b: nat, k: nat)
    requires b >= 1 && k >= 1
    ensures Pow(b, k) >= b
    decreases k
  {
    if k > 1 {
      PowAtLeastBase(b, k - 1);
      MulMonotone(1, Pow(b, k - 1), b);
    }
  }

  /**
   * A code unit below 256 becomes exactly `GroupWidth` digits; a larger one
   * (lines 80-81, 85-86) becomes a longer group that is not truncated.  Either
   * way the group holds digits only and reads back as the code unit.
   */
  lemma GroupShape(c: Char16, radix: int)
    requires IsRadix(radix)
    ensures c < 256 <==> |Group(c, radix)| == GroupWidth(radix)
    ensures c >= 256 <==> |Group(c, radix)| > GroupWidth(radix)
    ensures AllDigits(Group(c, radix), radix)
    ensures DigitsValue(Group(c, radix), radix) == Some(c)
  {
    var d, w := Digits(c, radix), GroupWidth(radix);
    if radix == 2 {
      assert Pow(2, 8) == 256;
    } else {
      assert Pow(16, 2) == 256;
    }
    DigitsLength(c, radix, w);
    DigitsValueOfDigits(c, radix);
    if |d| < w {
      LeadingZerosKeepValue(w - |d|, d, radix);
    }
  }

  /** A group of digits only parses to its value: no sign is involved. */
  lemma ParseGroup(c: Char16, radix: int)
    requires IsRadix(radix)
    ensures ParseInt(Group(c, radix), radix) == Some(c)
  {
    GroupShape(c, radix);
    var g := Group(c, radix);
    assert DigitValue(g[0], radix).Some?;
  }

  // ---------------------------------------------------------------------
  // Encoding a text

  lemma SliceOfConcat(a: Text, b: Text, lo: nat, hi: nat)
    requires |a| <= lo <= hi <= |a| + |b|
    ensures (a + b)[lo..hi] == b[lo - |a| .. hi - |a|]
  {
  }

  lemma {:induction false} EncodedAppend(s: Text, c: Char16, radix: int)
    requires IsRadix(radix)
    ensures Encoded(s + [c], radix) == Encoded(s, radix) + Group(c, radix)
    decreases |s|
  {
    if s == [] {
      assert [c][1..] == [];
    } else {
      assert (s + [c])[1..] == s[1..] + [c];
      EncodedAppend(s[1..], c, radix);
    }
  }

  /** The parts joined end to end. */
  function Concat(parts: seq<Text>): Text {
    if parts == [] then [] else parts[0] + Concat(parts[1..])
  }

  /** Parts of one width w sit at offsets 0, w, 2w, ... of their concatenation. */
  lemma {:induction false} ConcatFraming(parts: seq<Text>, w: nat)
    requires forall i :: 0 <= i < |parts| ==> |parts[i]| == w
    ensures |Concat(parts)| == w * |parts|
    ensures forall i :: 0 <= i < |parts| ==>
              w * i + w <= |Concat(parts)| && Concat(parts)[w * i .. w * i + w] == parts[i]
    decreases |parts|
  {
    if parts != [] {
      var e, rest := Concat(parts), Concat(parts[1..]);
      ConcatFraming(parts[1..], w);
      assert |e| == w + |rest|;
      assert w * |parts| == w + w * (|parts| - 1);
      forall i | 0 <= i < |parts|
        ensures w * i + w <= |e| && e[w * i .. w * i + w] == parts[i]
      {
        if i > 0 {
          assert parts[1..][i - 1] == parts[i];
          var k := w * (i - 1);
          MulMonotone(0, i - 1, w);
          assert w * i == w + k;
          SliceOfConcat(parts[0], rest, w + k, w + k + w);
        }
      }
    }
  }

  /** The groups of s, one per code unit. */
  function GroupsOf(s: Text, radix: int): (parts: seq<Text>)
    requires IsRadix(radix)
    ensures |parts| == |s| && forall i :: 0 <= i < |s| ==> parts[i] == Group(s[i], radix)
  {
    seq(|s|, i requires 0 <= i < |s| => Group(s[i], radix))
  }

  lemma {:induction false} EncodedIsConcat(s: Text, radix: int)
    requires IsRadix(radix)
    ensures Encoded(s, radix) == Concat(GroupsOf(s, radix))
    decreases |s|
  {
    if s != [] {
      EncodedIsConcat(s[1..], radix);
      assert GroupsOf(s, radix)[1..] == GroupsOf(s[1..], radix);
    }
  }

  /**
   * Framing (lines 74-89): a base other than 2 or 16 is read as 16; for text whose
   * code units are below 256 the output has `GroupWidth` digits per code unit,
   * and the i-th group is the rendering of the i-th code unit.
   */
  lemma EncodeFraming(s: Text, base: int)
    requires forall i :: 0 <= i < |s| ==> s[i] < 256
    ensures var radix := EncodeRadix(base);
            var w, e := GroupWidth(radix), EncodeBaseN(s, base);
            && |e| == w * |s|
            && forall i :: 0 <= i < |s| ==> w * i + w <= |e| && e[w * i .. w * i + w] == Group(s[i], radix)
  {
    var radix := EncodeRadix(base);
    var parts := GroupsOf(s, radix);
    forall i | 0 <= i < |s| ensures |parts[i]| == GroupWidth(radix) {
      GroupShape(s[i], radix);
    }
    EncodedIsConcat(s, radix);
    ConcatFraming(parts, GroupWidth(radix));
  }

  // ---------------------------------------------------------------------
  // Decoding

  /** On success the input was a whole number of groups and the output has one code unit per group. */
  lemma {:induction false} DecodedShape(t: Text, radix: int)
    requires IsRadix(radix)
    ensures var w := GroupWidth(radix);
            Decoded(t, radix).Ok? ==> |t| % w == 0 && |Decoded(t, radix).value| == |t| / w
    decreases |t|
  {
    var w := GroupWidth(radix);
    if |t| >= w {
      DecodedShape(t[w..], radix);
      DivModUnique(|t|, w, |t[w..]| / w + 1, |t[w..]| % w);
    }
  }

  /** The whole groups of width w that `decodeBaseN` reads, left to right. */
  function Chunks(t: Text, w: nat): (parts: seq<Text>)
    requires w >= 1
    ensures forall j :: 0 <= j < |parts| ==> |parts[j]| == w
    decreases |t|
  {
    if |t| < w then [] else [t[..w]] + Chunks(t[w..], w)
  }

  /**
   * The chunks are the slices `substring(w*j, w*j + w)` the decoding loop reads
   * (lines 252, 258), one per full group.
   */
  lemma {:induction false} ChunksAreSlices(t: Text, w: nat)
    requires w >= 1
    ensures |Chunks(t, w)| == |t| / w
    ensures forall j :: 0 <= j < |t| / w ==> w * j + w <= |t| && Chunks(t, w)[j] == t[w * j .. w * j + w]
  {
    ChunksCover(t, w);
    var parts := Chunks(t, w);
    ConcatFraming(parts, w);
    DivModUnique(|t|, w, |parts|, |t| - |Concat(parts)|);
  }

  lemma {:induction false} ChunksCover(t: Text, w: nat)
    requires w >= 1
    ensures var c := Concat(Chunks(t, w)); |c| <= |t| && |t| - |c| < w && c == t[..|c|]
    decreases |t|
  {
    if |t| >= w {
      ChunksCover(t[w..], w);
      var parts := Chunks(t, w);
      assert parts[1..] == Chunks(t[w..], w);
      var rest := Concat(parts[1..]);
      assert t[..w + |rest|] == t[..w] + t[w..][..|rest|];
      assert Concat(parts) == t[..w] + rest;
    }
  }

  /** `Integer.parseInt` accepts every whole group of t. */
  predicate AllChunksParse(t: Text, radix: int)
    requires IsRadix(radix)
  {
    var chunks := Chunks(t, GroupWidth(radix));
    forall j :: 0 <= j < |chunks| ==> ParseInt(chunks[j], radix).Some?
  }

  /**
   * Decoding succeeds exactly when the input is a whole number of groups that
   * `Integer.parseInt` all accept (lines 250-262).  Otherwise the first failing
   * group decides: a group `parseInt` rejects is `BadDigit`, and a trailing partial
   * group after accepted ones makes `substring` throw, `GroupOutOfRange`.
   * `ChunksAreSlices` says which slices of t the chunks are.
   */
  lemma {:induction false} DecodeOutcome(t: Text, radix: int)
    requires IsRadix(radix)
    ensures Decoded(t, radix).Ok? <==> AllChunksParse(t, radix) && |t| % GroupWidth(radix) == 0
    ensures Decoded(t, radix) == Err(GroupOutOfRange) <==> AllChunksParse(t, radix) && |t| % GroupWidth(radix) != 0
    ensures Decoded(t, radix) == Err(BadDigit) <==> !AllChunksParse(t, radix)
    decreases |t|
  {
    var w := GroupWidth(radix);
    if |t| < w {
      ModSmall(|t|, w);
      assert Chunks(t, w) == [];
      assert Decoded(t, radix) == if t == [] then Ok([]) else Err(GroupOutOfRange);
    } else {
      var rest := t[w..];
      DecodeOutcome(rest, radix);
      ModAddMultiple(|rest|, 1, w);
      var chunks := Chunks(t, w);
      assert chunks[1..] == Chunks(rest, w);
      assert chunks[0] == t[..w];
      var restChunks := Chunks(rest, w);
      forall j | 0 <= j < |restChunks| ensures chunks[j + 1] == restChunks[j] {
      }
      var allRest, allT := AllChunksParse(rest, radix), AllChunksParse(t, radix);
      if allRest && ParseInt(t[..w], radix).Some? {
        forall j | 0 <= j < |chunks| ensures ParseInt(chunks[j], radix).Some? {
          if j > 0 {
            assert chunks[j] == restChunks[j - 1];
          }
        }
      }
      assert allT ==> ParseInt(chunks[0], radix).Some?;
      if !allRest {
        var j :| 0 <= j < |restChunks| && ParseInt(restChunks[j], radix).None?;
        assert ParseInt(chunks[j + 1], radix).None?;
      }
      assert allT <==> ParseInt(t[..w], radix).Some? && allRest;
      assert |t| % w == |rest| % w;
      assert Decoded(t, radix).Ok? <==> ParseInt(t[..w], radix).Some? && Decoded(rest, radix).Ok?;
    }
  }

  lemma {:induction false} DecodedOfEncoded(s: Text, radix: int)
    requires IsRadix(radix)
    requires forall i :: 0 <= i < |s| ==> s[i] < 256
    ensures Decoded(Encoded(s, radix), radix) == Ok(s)
    decreases |s|
  {
    if s != [] {
      var w, g, rest := GroupWidth(radix), Group(s[0], radix), Encoded(s[1..], radix);
      GroupShape(s[0], radix);
      ParseGroup(s[0], radix);
      DecodedOfEncoded(s[1..], radix);
      assert (g + rest)[..w] == g && (g + rest)[w..] == rest;
      assert [s[0]] + s[1..] == s;
    }
  }

  /**
   * Round trip (lines 70-92, 246-265): for every base, decoding the encoding of a
   * text whose code units are below 256 gives the text back; a base other than 2
   * is hexadecimal on both sides.
   */
  lemma BaseNRoundTrip(s: Text, base: int)
    requires forall i :: 0 <= i < |s| ==> s[i] < 256
    ensures DecodeBaseN(EncodeBaseN(s, base), base) == Ok(s)
  {
    DecodedOfEncoded(s, EncodeRadix(base));
  }
}
