# Encryptor engine in Dafny

This project models the encoding engine of a small Java text-obfuscation tool: the
class `Encryptor` (src/Encryptor.java) and the enum `Scheme` (src/Scheme.java).
An `Encryptor` is built with one of three schemes. Its `encode` and `decode` send the text to one of
three reversible codecs:

- **Base-N**: every code unit becomes its binary or lower-case hexadecimal digits,
  zero-padded to 8 or 2; a unit of 256 or more gets a longer group, which is not cut.
- **Caesar**: for shifts up to 26, ASCII letters move cyclically within their case; above
  26 the single wrap can leave the alphabet ('z' shifted by 27 becomes '{').
- **Block rotation**: the text is cut into blocks of five and a short final block, and
  each block is rotated cyclically.

Three class-wide counters record how many calls each scheme has completed, and
`encryptionTallyString` reports them.

Layout, one module per file:

- `outcomes.dfy` (`Outcomes`): `Option` and `Result`.
- `text.dfy` (`JavaText`): a Java `char` as the code unit `Char16` (0..65535), a `String` as `Text = seq<Char16>`,
  the narrowing cast `(char)`, and the ASCII character classes.
- `arith.dfy` (`ModArith`): facts about Euclidean `%` and `/` that the codec proofs use.
- `schemes.dfy` (`Schemes`): the `Scheme` enum.
- `basen.dfy` (`BaseN`), `caesar.dfy` (`Caesar`), `rotation.dfy` (`BlockRotation`): each codec's
  specification functions, which state exactly what the Java method returns, and the lemmas about them.
  `BlockRotation.RotateBlock` is the array loop that rotates one block in place by computed index.
- `tally.dfy` (`Tallies`): the counters as a value (`Tally`), the shared `Counters` object, and
  the report with a parser that reads it back.
- `engine.dfy` (`Engine`): the `Encryptor` class. Its codec methods are the Java loops,
  each proved equal to its codec's specification function. Each also bumps exactly its own scheme's counter.

The static counters become a `Counters` object passed to every `Encryptor` constructor;
engines share counts when built with the same `Counters` object, which is what Java's
`static` fields force. An engine built without a scheme (`Unset`, which also stands for
Java's `new Encryptor(null)`) has `scheme == None`, and dispatch routes it to block rotation,
as the Java `else` branches do.

A trailing partial Base-N group is not dropped on decoding: `substring(i, i + w)` runs past
the end of the string and throws (src/Encryptor.java:252, 258). The model returns
`Err(GroupOutOfRange)` and leaves the counter unchanged.

The counter report is a Dafny `string` rather than `Text`: it is pure ASCII, where the two
agree code unit for code unit, and no codec reads it.

## Model

| member | source | states |
|---|---|---|
| JavaText.ToChar16 | src/Encryptor.java:123-125 | the `(char)` cast keeps the value of a code unit and otherwise differs from its argument by a multiple of 65536 |
| BaseN.EncodeRadix | src/Encryptor.java:74-76 | encoding renders in base 2 exactly when the base is 2, and in base 16 for every other base |
| BaseN.DecodeRadix | src/Encryptor.java:250-262 | decoding reads base 2 for base 2 and base 16 otherwise, the same radix encoding picked for that base |
| BaseN.Pad | src/Encryptor.java:81 | zero-padding to width w: the result has length max(w, \|s\|), ends with s, and has only '0' before it (no truncation) |
| BaseN.DigitsValueOfDigits | src/Encryptor.java:80 | reading the library's digit rendering of v in its radix gives v |
| BaseN.DigitsLength | src/Encryptor.java:85 | the rendering of v has at most k digits exactly when v < radix^k |
| BaseN.GroupShape | src/Encryptor.java:77-88 | a code unit's group has exactly the group width (8 or 2) iff the unit is below 256, and is longer (never cut) iff it is 256 or more; the group is all digits and its value is the unit |
| BaseN.ParseGroup | src/Encryptor.java:253 | `parseInt` of a code unit's group in its radix gives the code unit back |
| BaseN.EncodedAppend | src/Encryptor.java:87 | appending a code unit appends its group to the encoding, in input order |
| BaseN.EncodeFraming | src/Encryptor.java:74-89 | for code units below 256 the output is 8·n (base 2) or 2·n (any other base) long, and its i-th slice of that width is the group of the i-th code unit |
| BaseN.DecodedShape | src/Encryptor.java:250-263 | on success the input length is a multiple of the group width and the output has length/width code units |
| BaseN.DecodeOutcome | src/Encryptor.java:250-263 | decoding succeeds iff every full group parses and the length is a multiple of the width; it fails with GroupOutOfRange iff every full group parses but a partial group remains; it fails with BadDigit iff some full group does not parse |
| BaseN.ChunksAreSlices | src/Encryptor.java:251-252 | the groups decoding reads are the slices from w·j to w·j + w, one for each of the length/w full groups |
| BaseN.DecodedOfEncoded | src/Encryptor.java:251-261 | reading the groups of an encoding back in the same radix gives the text, for code units below 256 |
| BaseN.BaseNRoundTrip | src/Encryptor.java:246-265 | for every integer base and every text of code units below 256, `decodeBaseN(encodeBaseN(s, b), b)` is `s` |
| Caesar.CaseBase | src/Encryptor.java:113-117 | the base is 'A' exactly for upper-case letters and 'a' exactly for lower-case ones, and lies within 25 below the letter |
| Caesar.NormalizedShift | src/Encryptor.java:106-108 | a negative shift becomes 12 and a non-negative one is kept |
| Caesar.ComplementShift | src/Encryptor.java:219-223 | decoding's shift (26 − shift mod 26 above 26, else 26 − shift) lies in 0..26 and cancels the shift modulo 26 |
| Caesar.DecodeShift | src/Encryptor.java:207-223 | decoding's shift lies in 0..26 for every parameter, so decoding cannot overflow |
| Caesar.DecodeShiftEdges | src/Encryptor.java:219-223 | the complement's edge cases: 0 decodes by 26, 26 by 0, −5 (read as 12) by 14, 27 by 25, 2^31 − 1 by 3 |
| Caesar.ShiftLetterIsRotate26 | src/Encryptor.java:118-126 | for a shift in 0..26 the single-wrap arithmetic is the textbook cyclic step within the letter's case, and the result is a letter of the same case |
| Caesar.Rotate26Cancels | src/Encryptor.java:219-232 | two cyclic steps whose amounts add to a multiple of 26 return the letter |
| Caesar.CaesarEncodeSpec | src/Encryptor.java:106-128 | encoding keeps the length and every non-letter; for a shift up to 26 (a negative one counting as 12) every letter takes the cyclic step within its case and the output stays ASCII |
| Caesar.CaesarDecodeSpec | src/Encryptor.java:207-234 | decoding keeps the length and every non-letter, and moves every letter by the complementary shift within its case, for every shift |
| Caesar.CaesarRoundTrip | src/Encryptor.java:201-237 | for ASCII text and every shift up to 26, negative ones included, decoding undoes encoding and encoding undoes decoding |
| Caesar.EncodeBeyond26LeavesAlphabet | src/Encryptor.java:120-123 | with shift 27, 'z' encodes to '{', which decoding copies, so the round trip fails above 26 |
| BlockRotation.NormalizedRotation | src/Encryptor.java:146-148 | a negative rotation becomes 3 and a non-negative one is kept |
| BlockRotation.Rotated | src/Encryptor.java:164-171 | a rotated block has the block's length |
| BlockRotation.RotatedAt | src/Encryptor.java:166-167 | position (k + rot) mod m of the rotated block holds the unit from position k |
| BlockRotation.TargetsDistinct | src/Encryptor.java:153-154 | distinct positions of a block are written to distinct cells |
| BlockRotation.RotateBlock | src/Encryptor.java:151-159 | the array loop writes the unit at k to cell (k + rot) mod m, and the array read out is the rotated block |
| BlockRotation.RotatedCancels | src/Encryptor.java:292-294 | rotating by rot and then by e with rot + e a multiple of the block length gives the block back |
| BlockRotation.RotatedIsPermutation | src/Encryptor.java:164-171 | a rotated block is its last rot mod m units followed by the rest, a permutation of the block |
| BlockRotation.FullBlocksAppend | src/Encryptor.java:149-161 | one more full block appends its rotation to the rotated full blocks |
| BlockRotation.FullInverse | src/Encryptor.java:283-288 | decoding's full-block rotation lies in 0..5 and cancels rot modulo 5 |
| BlockRotation.InverseEdges | src/Encryptor.java:283-308 | the inverses' edge cases: full blocks decode 0 by 5, 5 by 0, 7 and 2 by 3; a final block of 3 decodes 0 by 3 and 4 by 2 |
| BlockRotation.TailInverse | src/Encryptor.java:304-308 | decoding's final-block rotation lies in 0..r and cancels rot modulo the final block length r |
| BlockRotation.FullLength | src/Encryptor.java:141-144 | the full blocks cover a multiple of five code units and leave length mod 5 for the final block |
| BlockRotation.Blockwise | src/Encryptor.java:149-172 | rotating block by block keeps the text's length |
| BlockRotation.FullBlocksCancel | src/Encryptor.java:289-301 | rotating the full blocks by rot and then by e with rot + e a multiple of 5 gives them back |
| BlockRotation.BlockwiseCancels | src/Encryptor.java:289-316 | two blockwise rotations whose amounts cancel for each kind of block give the text back |
| BlockRotation.RotateRoundTrip | src/Encryptor.java:274-320 | for every text and every rotation, decoding undoes encoding and encoding undoes decoding |
| BlockRotation.RotateEncodedAt | src/Encryptor.java:149-172 | encoding moves the unit at offset k of a full block to offset (k + rot) mod 5 of the same block, and the unit at offset k of the final block of length r to (k + rot) mod r; no unit leaves its block |
| BlockRotation.FullBlocksAt | src/Encryptor.java:149-161 | within the full blocks, the unit at i lands at offset (i mod 5 + rot) mod 5 of its own block |
| BlockRotation.RotateEncodedIsPermutation | src/Encryptor.java:140-175 | the encoding is a permutation of the text |
| BlockRotation.FullBlocksPermutation | src/Encryptor.java:149-161 | the rotated full blocks are a permutation of the full blocks |
| BlockRotation.RotateZeroIsIdentity | src/Encryptor.java:140-175 | rotation 0 leaves every text unchanged |
| BlockRotation.FullBlocksIdentity | src/Encryptor.java:149-161 | rotation 0 leaves the full blocks unchanged |
| Tallies.Tally.Bump | src/Encryptor.java:90 | a completed call adds one to its own scheme's count and leaves the other two counts unchanged |
| Tallies.Counters.constructor | src/Encryptor.java:17-27 | the three counters start at zero |
| Tallies.Counters.Bump | src/Encryptor.java:173 | the increment changes only the counters and exactly as `Tally.Bump` says |
| Tallies.Counters.TallyString | src/Encryptor.java:327-332 | the report reads back as exactly the current counts, each written without leading zeros |
| Tallies.Decimal | src/Encryptor.java:328 | a count is written as decimal digits without leading zeros |
| Tallies.DecimalRoundTrip | src/Encryptor.java:328-331 | reading a written count gives the count back |
| Tallies.ReportHasThreeLines | src/Encryptor.java:328-331 | the report is three lines: Base-N, then Caesar, then block rotation, each a heading and its count |
| Tallies.ReadLabelledCount | src/Encryptor.java:328 | a line made of a heading and a count written by `Decimal` reads back as that count; the reader accepts no leading zeros |
| Tallies.LeadingZeroRejected | src/Encryptor.java:328 | the reader rejects a count written with a leading zero, such as "01", and still reads "0" |
| Tallies.ReportReadsBack | src/Encryptor.java:327-332 | reading the report back gives exactly the three counts it was made from, in order |
| Engine.Route | src/Encryptor.java:53-61 | BASE_N routes to Base-N and CAESAR to Caesar; block rotation is picked exactly for ROTATE and the unset scheme |
| Engine.DispatchRoundTrip | src/Encryptor.java:184-192 | decoding with the same scheme and parameter returns every input the scheme can recover: code units below 256 for Base-N, ASCII with a shift up to 26 for Caesar, any text for rotation |
| Engine.Encryptor.constructor | src/Encryptor.java:34-36 | the engine keeps the given scheme and the shared counters |
| Engine.Encryptor.Unset | src/Encryptor.java:42-44 | the no-argument engine has no scheme |
| Engine.Encryptor.Encode | src/Encryptor.java:53-61 | the output is the routed codec's encoding, and only that scheme's counter goes up by one |
| Engine.Encryptor.Decode | src/Encryptor.java:184-192 | for every parameter, the output is the routed codec's decoding; the scheme's counter goes up by one on success and nothing changes on an exception |
| Engine.Encryptor.EncodeBaseN | src/Encryptor.java:70-92 | the loop builds the concatenated groups of the input in order, and the Base-N counter goes up by one |
| Engine.Encryptor.DecodeBaseN | src/Encryptor.java:246-265 | the loop returns the decoding or the exception `BaseN.DecodeBaseN` describes; the Base-N counter goes up by one only on success |
| Engine.Encryptor.EncodeCaesar | src/Encryptor.java:101-131 | the loop returns the Caesar encoding of the input, and the Caesar counter goes up by one |
| Engine.Encryptor.DecodeCaesar | src/Encryptor.java:201-237 | the loop returns the Caesar decoding of the input, and the Caesar counter goes up by one |
| Engine.Encryptor.EncodeRotate | src/Encryptor.java:140-175 | the loops return the block-rotation encoding, and the rotation counter goes up by one |
| Engine.Encryptor.DecodeRotate | src/Encryptor.java:274-320 | the loops return the block-rotation decoding with its inverse rotations, and the rotation counter goes up by one |
| Engine.RotateFullBlocks | src/Encryptor.java:149-161 | the loop over full blocks returns them rotated one by one, in order |
| Engine.CounterScenario | src/Encryptor.java:327-332 | three engines sharing the counters each encode once, and the report reads 1, 1, 1; a Caesar decode then makes it 1, 2, 1 and returns the text |

## Left out

- The console driver (src/EncryptorDriver.java) is not part of this model: prompting, argument validation, printing and remembering the previous text are I/O.
- Engine.Encryptor.Unset: the no-argument constructor's message on standard output is not modelled; only the unset scheme is.
- Engine.Encryptor.EncodeCaesar: requires ASCII input. `Character.isAlphabetic` and `isUpperCase` consult the Unicode tables, and a letter that is neither upper nor lower case reuses the previous iteration's base.
- Engine.Encryptor.DecodeCaesar: requires ASCII input, for the same reason.
- Caesar.CaesarEncoded: treats every non-ASCII code unit as a non-letter. It is used only on ASCII text.
- Engine.Encryptor.EncodeCaesar: requires the shift to be below 2^31 − 65536, so `position += shift` cannot overflow a Java `int`.
- Engine.Encryptor.EncodeRotate: requires the rotation to be below the same bound, so `k + rotation` cannot overflow.
- Tallies.Counters.Bump: the counters are unbounded naturals. The Java `int` counters would wrap after 2^31 − 1 calls.
- Caesar.CaesarRoundTrip: holds for shifts up to 26 only. Above 26 encoding does not stay within the alphabet (`Caesar.EncodeBeyond26LeavesAlphabet`), and the model states what the code does there.
- BaseN.ParseInt: models `Integer.parseInt` for ASCII: an optional leading '+' or '-', then digits '0'..'9', 'a'..'z', 'A'..'Z' below the radix. Non-ASCII Unicode digits, which the library also accepts, are read as bad digits.
- BaseN.Digits: the library calls `Integer.toBinaryString`, `Integer.toHexString` and `String.format` are replaced by this rendering without leading zeros plus `BaseN.Pad`; only non-negative values (code units) are rendered.
- The cost of repeated string concatenation in the loops is a performance matter and is not modelled.
- The counters are shared mutable state; concurrent calls, which could lose increments in Java, are not modelled.
