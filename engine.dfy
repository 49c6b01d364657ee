/**
 * The `Encryptor` engine (src/Encryptor.java): dispatch by scheme, the six
 * codec loops, and the shared usage counters they bump.
 */
module Engine {
  import opened Outcomes
  import opened JavaText
  import opened Schemes
  import opened Tallies
  import B = BaseN
  import C = Caesar
  import R = BlockRotation

  /**
   * The codec `encode` and `decode` pick (lines 54-60, 185-191): BASE_N and
   * CAESAR pick their own, anything else, the unset scheme included, picks
   * block rotation.
   */
  function Route(scheme: Option<Scheme>): (s: Scheme)
    ensures s == BaseN <==> scheme == Some(BaseN)
    ensures s == Caesar <==> scheme == Some(Caesar)
    ensures s == Rotate <==> scheme == None || scheme == Some(Rotate)
  {
    match scheme
    case Some(BaseN) => BaseN
    case Some(Caesar) => Caesar
    case _ => Rotate
  }

  /** What the parameter of each encoder must satisfy for Java's `int` arithmetic not to overflow. */
  predicate ParameterInRange(s: Scheme, parameter: int) {
    s != BaseN ==> parameter < ParamLimit
  }

  /** What `encode(input, parameter)` returns when the scheme routes to s. */
  function EncodeOutput(s: Scheme, input: Text, parameter: int): Text
    requires ParameterInRange(s, parameter)
  {
    match s
    case BaseN => B.EncodeBaseN(input, parameter)
    case Caesar => C.CaesarEncoded(input, parameter)
    case Rotate => R.RotateEncoded(input, parameter)
  }

  /**
   * What `decode(input, parameter)` returns when the scheme routes to s, or the
   * exception it throws.  Decoding shifts by at most 26 and rotates by at most
   * 5, so no parameter can make it overflow.
   */
  function DecodeOutput(s: Scheme, input: Text, parameter: int): Result<Text, B.DecodeError> {
    match s
    case BaseN => B.DecodeBaseN(input, parameter)
    case Caesar => Ok(C.CaesarDecoded(input, parameter))
    case Rotate => Ok(R.RotateDecoded(input, parameter))
  }

  /** The inputs each scheme promises to give back: byte-sized text, ASCII with a shift up to 26, any text. */
  predicate Recoverable(s: Scheme, input: Text, parameter: int) {
    match s
    case BaseN => forall i :: 0 <= i < |input| ==> input[i] < 256
    case Caesar => IsAscii(input) && parameter <= 26
    case Rotate => true
  }

  /** Decoding with the same scheme and parameter gives back every recoverable input. */
  lemma DispatchRoundTrip(s: Scheme, input: Text, parameter: int)
    requires ParameterInRange(s, parameter) && Recoverable(s, input, parameter)
    ensures DecodeOutput(s, EncodeOutput(s, input, parameter), parameter) == Ok(input)
  {
    match s
    case BaseN => B.BaseNRoundTrip(input, parameter);
    case Caesar => C.CaesarRoundTrip(input, parameter);
    case Rotate => R.RotateRoundTrip(input, parameter);
  }

  /** An `Encryptor`: its scheme (None when built without one) and the shared counters. */
  class Encryptor {
    const scheme: Option<Scheme>
    const counters: Counters

    /** `Encryptor(Scheme es)` (lines 34-36). */
    constructor (es: Scheme, counters: Counters)
      ensures scheme == Some(es) && this.counters == counters
    {
      scheme := Some(es);
      this.counters := counters;
    }

    /** The no-argument constructor (lines 42-44) leaves the scheme unset. */
    constructor Unset(counters: Counters)
      ensures scheme == None && this.counters == counters
    {
      scheme := None;
      this.counters := counters;
    }

    /** `encode` (lines 53-61): the routed codec's output, and one more call on its counter. */
    method Encode(input: Text, parameter: int) returns (output: Text)
      requires ParameterInRange(Route(scheme), parameter)
      requires Route(scheme) == Caesar ==> IsAscii(input)
      modifies counters
      ensures output == EncodeOutput(Route(scheme), input, parameter)
      ensures counters.Snapshot() == old(counters.Snapshot()).Bump(Route(scheme))
    {
      if scheme == Some(BaseN) {
        output := EncodeBaseN(input, parameter);
      } else if scheme == Some(Caesar) {
        output := EncodeCaesar(input, parameter);
      } else {
        output := EncodeRotate(input, parameter);
      }
    }

    /**
     * `decode` (lines 184-192): the routed codec's output and one more call on
     * its counter, or the exception Base-N decoding throws with no count.
     */
    method Decode(input: Text, parameter: int) returns (output: Result<Text, B.DecodeError>)
      requires Route(scheme) == Caesar ==> IsAscii(input)
      modifies counters
      ensures output == DecodeOutput(Route(scheme), input, parameter)
      ensures counters.Snapshot() ==
                if output.Ok? then old(counters.Snapshot()).Bump(Route(scheme)) else old(counters.Snapshot())
    {
      if scheme == Some(BaseN) {
        output := DecodeBaseN(input, parameter);
      } else if scheme == Some(Caesar) {
        var text := DecodeCaesar(input, parameter);
        output := Ok(text);
      } else {
        var text := DecodeRotate(input, parameter);
        output := Ok(text);
      }
    }

    /** `encodeBaseN` (lines 70-92): the groups of all code units, in order. */
    method EncodeBaseN(input: Text, base: int) returns (combined: Text)
      modifies counters
      ensures combined == B.EncodeBaseN(input, base)
      ensures counters.Snapshot() == old(counters.Snapshot()).Bump(BaseN)
    {
      var radix := base;
      if radix != 2 && radix != 16 {
        radix := 16;
      }
      assert radix == B.EncodeRadix(base);
      combined := [];
      for i := 0 to |input|
        invariant combined == B.Encoded(input[..i], radix)
        invariant unchanged(counters)
      {
        var binaryHex := B.Group(input[i], radix);
        B.EncodedAppend(input[..i], input[i], radix);
        assert input[..i + 1] == input[..i] + [input[i]];
        combined := combined + binaryHex;
      }
      assert input[..|input|] == input;
      counters.Bump(BaseN);
    }

    /**
     * `decodeBaseN` (lines 246-265): groups of 8 binary digits for base 2,
     * of 2 hexadecimal digits otherwise.  A trailing partial group or a group
     * `parseInt` rejects ends the call with an exception, before the count.
     */
    method DecodeBaseN(input: Text, base: int) returns (output: Result<Text, B.DecodeError>)
      modifies counters
      ensures output == B.DecodeBaseN(input, base)
      ensures counters.Snapshot() ==
                if output.Ok? then old(counters.Snapshot()).Bump(BaseN) else old(counters.Snapshot())
    {
      var radix := if base == 2 then 2 else 16;
      assert radix == B.DecodeRadix(base);
      var w := B.GroupWidth(radix);
      var finalString: Text := [];
      var i := 0;
      assert input[i..] == input;
      B.PrefixedNothing(B.Decoded(input, radix));
      while i < |input|
        invariant 0 <= i <= |input|
        invariant unchanged(counters)
        invariant B.Prefixed(finalString, B.Decoded(input[i..], radix)) == B.Decoded(input, radix)
        decreases |input| - i
      {
        if i + w > |input| {
          return Err(B.GroupOutOfRange);
        }
        var eachBin := input[i..i + w];
        assert input[i..][..w] == eachBin && input[i..][w..] == input[i + w..];
        var letterNum := B.ParseInt(eachBin, radix);
        if letterNum.None? {
          return Err(B.BadDigit);
        }
        assert B.Decoded(input[i..], radix) == B.Prefixed([ToChar16(letterNum.value)], B.Decoded(input[i + w..], radix));
        B.PrefixedTwice(finalString, [ToChar16(letterNum.value)], B.Decoded(input[i + w..], radix));
        finalString := finalString + [ToChar16(letterNum.value)];
        i := i + w;
      }
      assert input[i..] == [] && finalString + [] == finalString;
      counters.Bump(BaseN);
      output := Ok(finalString);
    }

    /** `encodeCaesar` (lines 101-131): every code unit through the single-wrap letter shift. */
    method EncodeCaesar(input: Text, shift: int) returns (finalString: Text)
      requires IsAscii(input) && shift < ParamLimit
      modifies counters
      ensures finalString == C.CaesarEncoded(input, shift)
      ensures counters.Snapshot() == old(counters.Snapshot()).Bump(Caesar)
    {
      var k := shift;
      if k < 0 {
        k := 12;
      }
      finalString := [];
      for i := 0 to |input|
        invariant |finalString| == i
        invariant forall j :: 0 <= j < i ==> finalString[j] == C.ShiftChar(input[j], k)
        invariant unchanged(counters)
      {
        var c := input[i];
        if !IsLetter(c) {
          finalString := finalString + [c];
        } else {
          var base := C.CaseBase(c);
          var position := c + k;
          if position > base + 25 {
            var finalPos := position % (25 + base) - 1;
            finalString := finalString + [ToChar16(base + finalPos)];
          } else {
            finalString := finalString + [ToChar16(position)];
          }
        }
      }
      counters.Bump(Caesar);
    }

    /** `decodeCaesar` (lines 201-237): the same letter shift by the complementary amount. */
    method DecodeCaesar(input: Text, shift: int) returns (finalString: Text)
      requires IsAscii(input)
      modifies counters
      ensures finalString == C.CaesarDecoded(input, shift)
      ensures counters.Snapshot() == old(counters.Snapshot()).Bump(Caesar)
    {
      var k := shift;
      if k < 0 {
        k := 12;
      }
      finalString := [];
      for i := 0 to |input|
        invariant |finalString| == i
        invariant forall j :: 0 <= j < i ==> finalString[j] == C.ShiftChar(input[j], C.DecodeShift(shift))
        invariant unchanged(counters)
      {
        var c := input[i];
        if !IsLetter(c) {
          finalString := finalString + [c];
        } else {
          var base := C.CaseBase(c);
          var newShift := if k > 26 then 26 - k % 26 else 26 - k;
          var position := c + newShift;
          if position > base + 25 {
            var finalPos := position % (25 + base) - 1;
            finalString := finalString + [ToChar16(base + finalPos)];
          } else {
            finalString := finalString + [ToChar16(position)];
          }
        }
      }
      counters.Bump(Caesar);
    }

    /**
     * `encodeRotate` (lines 140-175): each full block of five, then the short
     * final block, rotated by the normalised rotation.
     */
    method EncodeRotate(input: Text, rotation: int) returns (combined: Text)
      requires rotation < ParamLimit
      modifies counters
      ensures combined == R.RotateEncoded(input, rotation)
      ensures counters.Snapshot() == old(counters.Snapshot()).Bump(Rotate)
    {
      var remainder := |input| % 5;
      var newInput := input[..|input| - remainder];
      var rot := rotation;
      if rot < 0 {
        rot := 3;
      }
      combined := RotateFullBlocks(newInput, rot);
      if remainder != 0 {
        var chunk := input[|input| - remainder..];
        var rotatedChars := R.RotateBlock(chunk, rot);
        combined := combined + rotatedChars;
      }
      counters.Bump(Rotate);
    }

    /**
     * `decodeRotate` (lines 274-320): the full blocks by 5 - rot mod 5 (or
     * 5 - rot), the final block of length r by r - rot mod r (or r - rot).
     */
    method DecodeRotate(input: Text, rotation: int) returns (combined: Text)
      modifies counters
      ensures combined == R.RotateDecoded(input, rotation)
      ensures counters.Snapshot() == old(counters.Snapshot()).Bump(Rotate)
    {
      var remainder := |input| % 5;
      var newInput := input[..|input| - remainder];
      var rot := rotation;
      if rot < 0 {
        rot := 3;
      }
      var newRotate := if rot > 5 then 5 - rot % 5 else 5 - rot;
      assert newRotate == R.FullInverse(rot);
      combined := RotateFullBlocks(newInput, newRotate);
      if remainder != 0 {
        var chunk := input[|input| - remainder..];
        newRotate := if rot > |chunk| then |chunk| - rot % |chunk| else |chunk| - rot;
        assert newRotate == R.TailInverse(rot, remainder);
        var rotatedChars := R.RotateBlock(chunk, newRotate);
        combined := combined + rotatedChars;
      }
      counters.Bump(Rotate);
    }
  }

  /** The loop over full blocks shared by lines 149-161 and 289-301: block by block, each rotated on its own. */
  method RotateFullBlocks(newInput: Text, rot: nat) returns (combined: Text)
    requires |newInput| % 5 == 0
    ensures combined == R.FullBlocksRotated(newInput, rot)
  {
    combined := [];
    var i := 0;
    while i < |newInput|
      invariant 0 <= i <= |newInput| && i % 5 == 0
      invariant combined == R.FullBlocksRotated(newInput[..i], rot)
    {
      var chunk := newInput[i..i + 5];
      var rotatedString := R.RotateBlock(chunk, rot);
      R.FullBlocksAppend(newInput[..i], chunk, rot);
      assert newInput[..i + 5] == newInput[..i] + chunk;
      combined := combined + rotatedString;
      i := i + 5;
    }
    assert newInput[..i] == newInput;
  }

  /**
   * Three engines sharing one set of counters, one encode each, then a decode
   * with the Caesar engine: the report first shows 1, 1, 1, then only the
   * Caesar count has moved on, to 2, and the decode gave the text back.
   */
  method CounterScenario() returns (first: string, second: string, decoded: Result<Text, B.DecodeError>)
    ensures ReadReport(first) == Some(Tally(1, 1, 1))
    ensures ReadReport(second) == Some(Tally(1, 2, 1))
    ensures decoded == Ok([72, 105, 33])
  {
    var counters := new Counters();
    var baseN := new Encryptor(BaseN, counters);
    var caesar := new Encryptor(Caesar, counters);
    var rotate := new Encryptor(Rotate, counters);
    var text: Text := [72, 105, 33];  // "Hi!"
    var binary := baseN.Encode(text, 2);
    var shifted := caesar.Encode(text, 3);
    var rotated := rotate.Encode(text, 1);
    assert counters.Snapshot() == Initial.Bump(BaseN).Bump(Caesar).Bump(Rotate) == Tally(1, 1, 1);
    first := counters.TallyString();
    C.CaesarEncodeSpec(text, 3);
    DispatchRoundTrip(Caesar, text, 3);
    decoded := caesar.Decode(shifted, 3);
    second := counters.TallyString();
  }
}
