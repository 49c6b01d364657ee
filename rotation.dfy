/**
 * The block rotation codec of `Encryptor`: the text is cut into blocks of five
 * code units and a shorter final block, and each block is rotated cyclically on
 * its own.  `RotateBlock` is the array loop that rotates one block; the
 * specification functions describe whole texts, whose loops are
 * `Engine.Encryptor.EncodeRotate` and `DecodeRotate`.
 */
module BlockRotation {
  import opened JavaText
  import opened ModArith

  /** Both directions replace a negative rotation by 3 (lines 146-148, 280-282). */
  function NormalizedRotation(rotation: int): (r: nat)
    ensures rotation >= 0 ==> r == rotation
    ensures rotation < 0 ==> r == 3
  {
    if rotation < 0 then 3 else rotation
  }

  /** A block rotated by rot: the unit at position k moves to position (k + rot) mod |b|. */
  function Rotated(b: Text, rot: nat): (r: Text)
    requires |b| > 0
    ensures |r| == |b|
  {
    seq(|b|, j requires 0 <= j < |b| => b[(j - rot) % |b|])
  }

  /** Reading back position (k + rot) mod m in the rotated block finds the unit from position k. */
  lemma RotatedAt(b: Text, rot: nat, k: nat)
    requires 0 <= k < |b|
    ensures (k + rot) % |b| < |b| && Rotated(b, rot)[(k + rot) % |b|] == b[k]
  {
    ModSubMod(k + rot, rot, |b|);
    ModSmall(k, |b|);
  }

  /** Distinct positions of a block go to distinct positions: no cell of the array is written twice. */
  lemma TargetsDistinct(k: nat, k': nat, rot: nat, m: nat)
    requires k < m && k' < m
    requires (k + rot) % m == (k' + rot) % m
    ensures k == k'
  {
    ModSubMod(k + rot, rot, m);
    ModSubMod(k' + rot, rot, m);
    ModSmall(k, m);
    ModSmall(k', m);
  }

  /** The array cell `(k + rot) % m` that the unit at offset k is written to. */
  function Target(k: nat, rot: nat, m: nat): (t: nat)
    requires k < m
    ensures t < m
  {
    (k + rot) % m
  }

  /**
   * The inner loop of lines 151-159 and 164-171 (and 291-299, 309-316): fills a
   * fresh array by computed index, `rotated[(k + rot) % m] = chunk[k]`.
   */
  method RotateBlock(chunk: Text, rot: nat) returns (rotated: Text)
    requires |chunk| > 0
    ensures |rotated| == |chunk|
    ensures forall k :: 0 <= k < |chunk| ==> rotated[(k + rot) % |chunk|] == chunk[k]
    ensures rotated == Rotated(chunk, rot)
  {
    var m := |chunk|;
    var rotatedChars := new Char16[m];
    for k := 0 to m
      invariant forall k' :: 0 <= k' < k ==> rotatedChars[Target(k', rot, m)] == chunk[k']
    {
      forall k' | 0 <= k' < k ensures Target(k', rot, m) != Target(k, rot, m) {
        if Target(k', rot, m) == Target(k, rot, m) {
          TargetsDistinct(k', k, rot, m);
        }
      }
      rotatedChars[(k + rot) % m] := chunk[k];
    }
    rotated := rotatedChars[..];
    forall j | 0 <= j < m ensures rotated[j] == Rotated(chunk, rot)[j] {
      var k := (j - rot) % m;
      ModAddMod(j - rot, rot, m);
      ModSmall(j, m);
      assert Target(k, rot, m) == j;
    }
  }

  /** A rotation by rot followed by one by e with rot + e a multiple of m gives the block back. */
  lemma RotatedCancels(b: Text, rot: nat, e: nat)
    requires |b| > 0 && (rot + e) % |b| == 0
    ensures Rotated(Rotated(b, rot), e) == b
  {
    var m := |b|;
    var q := (rot + e) / m;
    assert rot + e == q * m;
    forall j | 0 <= j < m ensures Rotated(Rotated(b, rot), e)[j] == b[j] {
      ModSubMod(j - e, rot, m);
      ModAddMultiple(j, -q, m);
      assert j + (-q) * m == j - e - rot;
      ModSmall(j, m);
    }
  }

  /** A rotated block is the block's last (rot mod m) units followed by the others: a permutation. */
  lemma RotatedIsPermutation(b: Text, rot: nat)
    requires |b| > 0
    ensures var m, t := |b|, rot % |b|;
            Rotated(b, rot) == b[m - t..] + b[..m - t]
    ensures multiset(Rotated(b, rot)) == multiset(b)
  {
    var m, t := |b|, rot % |b|;
    var r, split := Rotated(b, rot), b[m - t..] + b[..m - t];
    forall j | 0 <= j < m ensures r[j] == split[j] {
      ModSubReduced(j, rot, m);
      if j < t {
        DivModUnique(j - t, m, -1, j - t + m);
      } else {
        ModSmall(j - t, m);
      }
    }
    assert r == split;
    assert b == b[..m - t] + b[m - t..];
  }

  /** Full blocks of five, rotated one by one (lines 149-161, 289-301). */
  function FullBlocksRotated(s: Text, rot: nat): (r: Text)
    requires |s| % 5 == 0
    ensures |r| == |s|
    decreases |s|
  {
    if s == [] then [] else Rotated(s[..5], rot) + FullBlocksRotated(s[5..], rot)
  }

  lemma {:induction false} FullBlocksAppend(s: Text, block: Text, rot: nat)
    requires |s| % 5 == 0 && |block| == 5
    ensures FullBlocksRotated(s + block, rot) == FullBlocksRotated(s, rot) + Rotated(block, rot)
    decreases |s|
  {
    if s == [] {
      assert (s + block)[..5] == block;
      assert (s + block)[5..] == [];
    } else {
      assert (s + block)[..5] == s[..5];
      assert (s + block)[5..] == s[5..] + block;
      FullBlocksAppend(s[5..], block, rot);
    }
  }

  /** `decodeRotate`'s inverse rotation for full blocks (lines 283-288). */
  function FullInverse(rot: nat): (e: nat)
    ensures e <= 5 && (rot + e) % 5 == 0
  {
    ModAddMultiple(5, rot / 5, 5);
    if rot > 5 then 5 - rot % 5 else 5 - rot
  }

  /** `decodeRotate`'s inverse rotation for the final block of length r (lines 304-308). */
  function TailInverse(rot: nat, r: nat): (e: nat)
    requires 0 < r < 5
    ensures e <= r && (rot + e) % r == 0
  {
    ModAddMultiple(r, rot / r, r);
    if rot > r then r - rot % r else r - rot
  }

  /**
   * The asymmetric edges of the inverses: 0 and 5 swap, 7 and 2 both decode by
   * 3, and a final block of length 3 decodes rotation 0 by 3 and rotation 4 by 2.
   */
  lemma InverseEdges()
    ensures FullInverse(0) == 5 && FullInverse(5) == 0
    ensures FullInverse(7) == 3 && FullInverse(2) == 3
    ensures TailInverse(0, 3) == 3 && TailInverse(4, 3) == 2
  {
  }

  /** Where the full blocks end: the length less its remainder modulo five (lines 141-144). */
  function FullLength(s: Text): (n: nat)
    ensures n <= |s| && n % 5 == 0 && |s| - n == |s| % 5
  {
    |s| - |s| % 5
  }

  /** Full blocks rotated by `full`, then the final short block (if any) rotated by `tail`. */
  function Blockwise(s: Text, full: nat, tail: nat): (r: Text)
    ensures |r| == |s|
  {
    var n := FullLength(s);
    FullBlocksRotated(s[..n], full) + (if n < |s| then Rotated(s[n..], tail) else [])
  }

  /** What `encodeRotate(s, rotation)` returns: both kinds of block use the normalised rotation. */
  function RotateEncoded(s: Text, rotation: int): Text {
    var rot := NormalizedRotation(rotation);
    Blockwise(s, rot, rot)
  }

  /** What `decodeRotate(s, rotation)` returns: each kind of block uses its own inverse rotation. */
  function RotateDecoded(s: Text, rotation: int): Text {
    var rot, r := NormalizedRotation(rotation), |s| % 5;
    Blockwise(s, FullInverse(rot), if r != 0 then TailInverse(rot, r) else 0)
  }

  lemma {:induction false} FullBlocksCancel(s: Text, rot: nat, e: nat)
    requires |s| % 5 == 0 && (rot + e) % 5 == 0
    ensures FullBlocksRotated(FullBlocksRotated(s, rot), e) == s
    decreases |s|
  {
    if s != [] {
      var r := FullBlocksRotated(s, rot);
      var head := Rotated(s[..5], rot);
      assert r[..5] == head;
      assert r[5..] == FullBlocksRotated(s[5..], rot);
      RotatedCancels(s[..5], rot, e);
      FullBlocksCancel(s[5..], rot, e);
      assert s == s[..5] + s[5..];
    }
  }

  /** Two blockwise rotations whose amounts cancel, block kind by block kind, give the text back. */
  lemma BlockwiseCancels(s: Text, full: nat, tail: nat, full': nat, tail': nat)
    requires (full + full') % 5 == 0
    requires |s| % 5 != 0 ==> (tail + tail') % (|s| % 5) == 0
    ensures Blockwise(Blockwise(s, full, tail), full', tail') == s
  {
    var n := FullLength(s);
    var e := Blockwise(s, full, tail);
    assert FullLength(e) == n;
    assert e[..n] == FullBlocksRotated(s[..n], full);
    FullBlocksCancel(s[..n], full, full');
    if n < |s| {
      assert e[n..] == Rotated(s[n..], tail);
      RotatedCancels(s[n..], tail, tail');
    }
    assert s == s[..n] + s[n..];
  }

  /**
   * Round trip (lines 140-175, 274-320): for every text and every rotation,
   * decoding undoes encoding and encoding undoes decoding, across all remainder
   * lengths 0..4.
   */
  lemma RotateRoundTrip(s: Text, rotation: int)
    ensures RotateDecoded(RotateEncoded(s, rotation), rotation) == s
    ensures RotateEncoded(RotateDecoded(s, rotation), rotation) == s
  {
    var rot, r := NormalizedRotation(rotation), |s| % 5;
    var fe, te := FullInverse(rot), if r != 0 then TailInverse(rot, r) else 0;
    assert |RotateEncoded(s, rotation)| % 5 == r;
    BlockwiseCancels(s, rot, rot, fe, te);
    BlockwiseCancels(s, fe, te, rot, rot);
  }

  /**
   * Encoding (lines 141-172) moves each unit within its own block: in a full block
   * from offset k to (k + rot) mod 5, in the final block of length r from n to
   * (n + rot) mod r, a negative rotation counting as 3.
   */
  lemma RotateEncodedAt(s: Text, rotation: int, i: nat)
    requires i < |s|
    ensures var rot, n, e := NormalizedRotation(rotation), FullLength(s), RotateEncoded(s, rotation);
            && (i < n ==> i - i % 5 + Target(i % 5, rot, 5) < n &&
                          e[i - i % 5 + Target(i % 5, rot, 5)] == s[i])
            && (n <= i ==> e[n + Target(i - n, rot, |s| - n)] == s[i])
  {
    var rot, n, e := NormalizedRotation(rotation), FullLength(s), RotateEncoded(s, rotation);
    if i < n {
      FullBlocksAt(s[..n], rot, i);
      assert e[..n] == FullBlocksRotated(s[..n], rot);
    } else {
      RotatedAt(s[n..], rot, i - n);
      assert e[n..] == Rotated(s[n..], rot);
    }
  }

  /** In the full blocks, the unit at i moves to offset (i mod 5 + rot) mod 5 of its own block. */
  lemma {:induction false} FullBlocksAt(s: Text, rot: nat, i: nat)
    requires |s| % 5 == 0 && i < |s|
    ensures i - i % 5 + Target(i % 5, rot, 5) < |s|
    ensures FullBlocksRotated(s, rot)[i - i % 5 + Target(i % 5, rot, 5)] == s[i]
    decreases |s|
  {
    var r := FullBlocksRotated(s, rot);
    if i < 5 {
      ModSmall(i, 5);
      RotatedAt(s[..5], rot, i);
      assert r[..5] == Rotated(s[..5], rot);
    } else {
      ModAddMultiple(i - 5, 1, 5);
      FullBlocksAt(s[5..], rot, i - 5);
      assert r[5..] == FullBlocksRotated(s[5..], rot);
    }
  }

  /** Encoding permutes the text: every unit appears as often as before (lines 149-172). */
  lemma RotateEncodedIsPermutation(s: Text, rotation: int)
    ensures multiset(RotateEncoded(s, rotation)) == multiset(s)
  {
    var rot, n := NormalizedRotation(rotation), FullLength(s);
    FullBlocksPermutation(s[..n], rot);
    if n < |s| {
      RotatedIsPermutation(s[n..], rot);
    }
    assert s == s[..n] + s[n..];
  }

  lemma {:induction false} FullBlocksPermutation(s: Text, rot: nat)
    requires |s| % 5 == 0
    ensures multiset(FullBlocksRotated(s, rot)) == multiset(s)
    decreases |s|
  {
    if s != [] {
      RotatedIsPermutation(s[..5], rot);
      FullBlocksPermutation(s[5..], rot);
      assert s == s[..5] + s[5..];
    }
  }

  /** A rotation of 0 leaves every text unchanged. */
  lemma RotateZeroIsIdentity(s: Text)
    ensures RotateEncoded(s, 0) == s
  {
    var n := FullLength(s);
    FullBlocksIdentity(s[..n]);
    if n < |s| {
      RotatedCancels(s[n..], 0, 0);
      RotatedIsPermutation(s[n..], 0);
    }
    assert s == s[..n] + s[n..];
  }

  lemma {:induction false} FullBlocksIdentity(s: Text)
    requires |s| % 5 == 0
    ensures FullBlocksRotated(s, 0) == s
    decreases |s|
  {
    if s != [] {
      RotatedIsPermutation(s[..5], 0);
      FullBlocksIdentity(s[5..]);
      assert s == s[..5] + s[5..];
    }
  }
}
