/** Random identifiers (src/nanoid/index.ts). The random source is a
    parameter: `batches[j]` is what the (j + 1)-th call of
    `randomBytes(step)` returns. */
module Nanoid {

  /** The default alphabet: URL-safe letters, digits, `_` and `-`. */
  const Charset: string := "abcdefghijklmnopqrstuvwxyz_ABCDEFGHIJKLMNOPQRSTUVWXYZ-0123456789"

  /** The default identifier length. */
  const DefaultLength := 21

  /** The outcome of `nanoid`: the identifier and how many batches of random
      bytes it drew; the error thrown for an alphabet of unusable size; or a
      random source that ran out before the identifier was complete. */
  datatype NanoidResult = Id(id: string, draws: nat) | AlphabetSizeError | SourceExhausted

  /** The alphabet sizes `nanoid` accepts: 1 to 255 characters. */
  predicate ValidSize(size: int) {
    !(size == 0 || size > 255)
  }

  function Pow2(k: nat): (p: nat)
    ensures p >= 1
  {
    if k == 0 then 1 else 2 * Pow2(k - 1)
  }

  /** `Math.floor(Math.log2(n))` for a positive integer. */
  function Log2Floor(n: nat): (k: nat)
    requires n >= 1
    ensures Pow2(k) <= n < 2 * Pow2(k)
  {
    if n == 1 then 0 else 1 + Log2Floor(n / 2)
  }

  /** `(2 << Math.floor(Math.log2(size - 1))) - 1`. For a one-character
      alphabet the logarithm is -Infinity, which a shift treats as 0, so the
      mask is 1. */
  function Mask(size: int): (mask: int)
    requires 1 <= size <= 255
    ensures 1 <= mask <= 255
  {
    if size == 1 then 1
    else
      Log2FloorOfByte(size - 1);
      2 * Pow2(Log2Floor(size - 1)) - 1
  }

  lemma Log2FloorOfByte(n: nat)
    requires 1 <= n < 256
    ensures Pow2(Log2Floor(n)) <= 128
  {
    var k := Log2Floor(n);
    assert Pow2(7) == 128 && Pow2(8) == 256;
    if k >= 8 {
      Pow2Grows(8, k);
    } else {
      Pow2Grows(k, 7);
    }
  }

  /** The number of low bits the mask keeps. */
  function MaskBits(size: int): (k: nat)
    requires 1 <= size <= 255
  {
    if size == 1 then 1 else Log2Floor(size - 1) + 1
  }

  /** The mask is the smallest all-ones bit pattern covering every index of
      the alphabet: one below a power of two, at least `size - 1`, and at
      most twice the alphabet; halving it would miss the last index. */
  lemma MaskShape(size: int)
    requires 1 <= size <= 255
    ensures Mask(size) + 1 == Pow2(MaskBits(size))
    ensures size - 1 <= Mask(size)
    ensures Mask(size) + 1 <= 2 * size
    ensures size >= 2 ==> (Mask(size) + 1) / 2 <= size - 1
  {
  }

  /** The mask takes one of eight values, so it fits in a byte. */
  lemma MaskValues(size: int)
    requires 1 <= size <= 255
    ensures Mask(size) in {1, 3, 7, 15, 31, 63, 127, 255}
  {
    var k := MaskBits(size);
    MaskShape(size);
    assert Pow2(9) == 512;
    if k >= 9 {
      Pow2Grows(9, k);
    }
    assert 1 <= k <= 8;
    assert Pow2(1) == 2 && Pow2(2) == 4 && Pow2(3) == 8 && Pow2(4) == 16;
    assert Pow2(5) == 32 && Pow2(6) == 64 && Pow2(7) == 128 && Pow2(8) == 256;
  }

  lemma {:induction false} Pow2Grows(j: nat, k: nat)
    requires j <= k
    ensures Pow2(j) <= Pow2(k)
    decreases k - j
  {
    if j < k {
      Pow2Grows(j, k - 1);
    }
  }

  /** The mask as the byte it is applied as. */
  function MaskByte(size: int): bv8
    requires 1 <= size <= 255
  {
    Mask(size) as bv8
  }

  lemma MaskByteValue(size: int)
    requires 1 <= size <= 255
    ensures MaskByte(size) as int == Mask(size)
  {
    MaskValues(size);
  }

  /** A byte no larger than the mask names itself, so every index of the
      alphabet can occur. */
  lemma MaskKeepsIndex(b: bv8, size: int)
    requires 1 <= size <= 255 && b as int <= Mask(size)
    ensures Index(b, MaskByte(size)) == b as int
  {
    MaskValues(size);
  }

  /** Masking never yields more than the mask. */
  lemma MaskedAtMost(b: bv8, mask: bv8)
    ensures Index(b, mask) <= mask as int
  {
    assert b & mask <= mask;
  }

  /** `Math.ceil((1.6 * mask * length) / size)`, over exact rationals. */
  function Step(mask: int, length: int, size: int): (r: int)
    requires size >= 1
    ensures 5 * size * (r - 1) < 8 * mask * length <= 5 * size * r
  {
    var x, d := -(8 * mask * length), 5 * size;
    assert x == (x / d) * d + x % d;
    -(x / d)
  }

  /** A zero length needs no random bytes; a positive length draws at least
      one per batch. */
  lemma StepBounds(size: int, length: int)
    requires 1 <= size <= 255 && length >= 0
    ensures length == 0 ==> Step(Mask(size), length, size) == 0
    ensures length >= 1 ==> Step(Mask(size), length, size) >= 1
  {
    var mask := Mask(size);
    var r := Step(mask, length, size);
    MulSign(length, 8 * mask);
    StepSign(5 * size, 8 * mask * length, r);
  }

  /** A ceiling quotient by a positive divisor is zero for zero and positive
      for a positive dividend. */
  lemma StepSign(c: int, m: int, r: int)
    requires c > 0 && m >= 0 && c * (r - 1) < m <= c * r
    ensures m == 0 ==> r == 0
    ensures m > 0 ==> r >= 1
  {
    MulSign(r, c);
    MulSign(r - 1, c);
  }

  /** With a positive factor, a product has the sign of the other factor. */
  lemma MulSign(a: int, c: int)
    requires c > 0
    ensures a * c > 0 <==> a > 0
    ensures a * c == 0 <==> a == 0
  {
    if a < 0 {
      assert a * c == -((-a) * c);
    }
  }

  /** The alphabet index a random byte names: `bytes[i] & mask`. */
  function Index(b: bv8, mask: bv8): int {
    (b & mask) as int
  }

  /** What one byte contributes: the character at its index, or nothing when
      the index is outside the alphabet. */
  function Piece(b: bv8, alphabet: string, mask: bv8): string {
    var index := Index(b, mask);
    if index < |alphabet| then [alphabet[index]] else ""
  }

  /** The characters a run of bytes contributes, byte after byte. */
  function Accepted(bytes: seq<bv8>, alphabet: string, mask: bv8): string {
    if |bytes| == 0 then ""
    else Accepted(bytes[..|bytes| - 1], alphabet, mask) + Piece(bytes[|bytes| - 1], alphabet, mask)
  }

  /** All the bytes of the given batches, in order. */
  function Drawn(batches: seq<seq<bv8>>): seq<bv8> {
    if |batches| == 0 then [] else Drawn(batches[..|batches| - 1]) + batches[|batches| - 1]
  }

  /** `nanoid(length, alphabet)`. */
  method Generate(length: int, alphabet: string, batches: seq<seq<bv8>>) returns (r: NanoidResult)
    requires ValidSize(|alphabet|) ==>
      forall j :: 0 <= j < |batches| ==> |batches[j]| == Step(Mask(|alphabet|), length, |alphabet|)
    ensures r.AlphabetSizeError? <==> !ValidSize(|alphabet|)
    ensures r.SourceExhausted? <==>
      ValidSize(|alphabet|) && |Accepted(Drawn(batches), alphabet, MaskByte(|alphabet|))| < length
    ensures r.Id? ==> |r.id| == (if length > 0 then length else 0)
    ensures r.Id? ==> r.id == Accepted(Drawn(batches), alphabet, MaskByte(|alphabet|))[..|r.id|]
    ensures r.Id? ==> forall c :: c in r.id ==> c in alphabet
    ensures r.Id? ==> r.draws <= |batches|
    ensures r.Id? && length <= 0 ==> r.draws == 0
    ensures r.Id? && length > 0 ==>
      (r.draws >= 1
       && |Accepted(Drawn(batches[..r.draws - 1]), alphabet, MaskByte(|alphabet|))| < length
       && length <= |Accepted(Drawn(batches[..r.draws]), alphabet, MaskByte(|alphabet|))|)
  {
    var size := |alphabet|;
    if size == 0 || size > 255 {
      return AlphabetSizeError;
    }
    var mask := MaskByte(size);
    var step := Step(Mask(size), length, size);
    var id := "";
    var used := 0;
    ghost var consumed: seq<bv8> := [];
    while |id| < length
      invariant 0 <= used <= |batches|
      invariant consumed <= Drawn(batches[..used])
      invariant id == Accepted(consumed, alphabet, mask)
      invariant |id| < length ==> consumed == Drawn(batches[..used])
      invariant |id| <= (if length > 0 then length else 0)
      invariant used == 0 ==> id == ""
      invariant used >= 1 ==> |Accepted(Drawn(batches[..used - 1]), alphabet, mask)| < length
      decreases |batches| - used
    {
      if used == |batches| {
        assert batches[..used] == batches;
        return SourceExhausted;
      }
      var bytes := batches[used];
      ghost var before := consumed;
      var taken;
      ghost var idBefore := id;
      id, taken := Fill(id, bytes, step, alphabet, mask, length);
      consumed := before + bytes[..taken];
      OneBatch(batches, used, idBefore, id, taken, alphabet, mask, length);
      used := used + 1;
    }
    DrawnPrefix(batches, used);
    AcceptedPrefix(consumed, Drawn(batches), alphabet, mask);
    AcceptedPrefix(consumed, Drawn(batches[..used]), alphabet, mask);
    AcceptedFromAlphabet(consumed, alphabet, mask);
    r := Id(id, used);
  }

  /** What one pass of the outer loop of `nanoid` keeps: the bytes looked
      at stay a prefix of the batches drawn, and all of the new batch was
      looked at unless the identifier is complete. */
  lemma OneBatch(batches: seq<seq<bv8>>, used: nat, id: string, out: string, taken: nat,
                 alphabet: string, mask: bv8, length: int)
    requires used < |batches| && taken <= |batches[used]|
    requires id == Accepted(Drawn(batches[..used]), alphabet, mask)
    requires out == id + Accepted(batches[used][..taken], alphabet, mask)
    requires taken < |batches[used]| ==> |out| == length
    requires |out| <= length
    ensures var consumed := Drawn(batches[..used]) + batches[used][..taken];
      consumed <= Drawn(batches[..used + 1])
      && out == Accepted(consumed, alphabet, mask)
      && (|out| < length ==> consumed == Drawn(batches[..used + 1]))
  {
    var before, bytes := Drawn(batches[..used]), batches[used];
    DrawnSnoc(batches, used);
    AcceptedAppend(before, bytes[..taken], alphabet, mask);
    assert (before + bytes)[..|before| + taken] == before + bytes[..taken];
    if taken == |bytes| {
      assert bytes[..taken] == bytes;
    }
  }

  /** The inner loop of `nanoid` over one batch of `step` random bytes: it
      stops at the end of the batch or as soon as the identifier is long
      enough, and returns how many bytes it looked at. */
  method Fill(id: string, bytes: seq<bv8>, step: int, alphabet: string, mask: bv8, length: int)
    returns (out: string, taken: nat)
    requires |bytes| == step && |id| < length
    ensures taken <= |bytes|
    ensures out == id + Accepted(bytes[..taken], alphabet, mask)
    ensures |out| <= length
    ensures taken < |bytes| ==> |out| == length
  {
    out := id;
    var i := 0;
    while i < step && |out| < length
      invariant 0 <= i <= step
      invariant out == id + Accepted(bytes[..i], alphabet, mask)
      invariant |out| <= length
    {
      var index := Index(bytes[i], mask);
      AcceptedSnoc(bytes[..i], bytes[i], alphabet, mask);
      assert bytes[..i + 1] == bytes[..i] + [bytes[i]];
      if index < |alphabet| {
        out := out + [alphabet[index]];
      }
      i := i + 1;
    }
    taken := i;
  }

  /** The bytes of the first `k` batches are a prefix of all the bytes. */
  lemma {:induction false} DrawnPrefix(batches: seq<seq<bv8>>, k: nat)
    requires k <= |batches|
    ensures Drawn(batches[..k]) <= Drawn(batches)
    decreases |batches| - k
  {
    if k < |batches| {
      DrawnPrefix(batches, k + 1);
      assert batches[..k + 1][..k] == batches[..k];
    } else {
      assert batches[..k] == batches;
    }
  }

  /** Accepting one more byte adds at most its character. */
  lemma AcceptedSnoc(a: seq<bv8>, x: bv8, alphabet: string, mask: bv8)
    ensures Accepted(a + [x], alphabet, mask) == Accepted(a, alphabet, mask) + Piece(x, alphabet, mask)
  {
    assert (a + [x])[..|a|] == a;
  }

  /** Accepting bytes distributes over concatenation. */
  lemma {:induction false} AcceptedAppend(a: seq<bv8>, b: seq<bv8>, alphabet: string, mask: bv8)
    ensures Accepted(a + b, alphabet, mask) == Accepted(a, alphabet, mask) + Accepted(b, alphabet, mask)
    decreases |b|
  {
    if |b| == 0 {
      assert a + b == a;
    } else {
      var b', x := b[..|b| - 1], b[|b| - 1];
      AcceptedAppend(a, b', alphabet, mask);
      assert (a + b)[..|a + b| - 1] == a + b';
      var front, middle, last := Accepted(a, alphabet, mask), Accepted(b', alphabet, mask), Piece(x, alphabet, mask);
      assert (front + middle) + last == front + (middle + last);
    }
  }

  /** The characters of a prefix of the bytes are a prefix of the
      characters. */
  lemma AcceptedPrefix(a: seq<bv8>, whole: seq<bv8>, alphabet: string, mask: bv8)
    requires a <= whole
    ensures |Accepted(a, alphabet, mask)| <= |Accepted(whole, alphabet, mask)|
    ensures Accepted(whole, alphabet, mask)[..|Accepted(a, alphabet, mask)|] == Accepted(a, alphabet, mask)
  {
    assert whole == a + whole[|a|..];
    AcceptedAppend(a, whole[|a|..], alphabet, mask);
  }

  lemma DrawnSnoc(batches: seq<seq<bv8>>, k: nat)
    requires k < |batches|
    ensures Drawn(batches[..k + 1]) == Drawn(batches[..k]) + batches[k]
  {
    assert batches[..k + 1][..k] == batches[..k];
  }

  /** Every character of an identifier comes from the alphabet, and there are
      never more characters than bytes. */
  lemma {:induction false} AcceptedFromAlphabet(bytes: seq<bv8>, alphabet: string, mask: bv8)
    ensures forall c :: c in Accepted(bytes, alphabet, mask) ==> c in alphabet
    ensures |Accepted(bytes, alphabet, mask)| <= |bytes|
  {
    if |bytes| > 0 {
      AcceptedFromAlphabet(bytes[..|bytes| - 1], alphabet, mask);
    }
  }

  /** When the mask stays inside the alphabet no byte is wasted. */
  lemma {:induction false} AllAccepted(bytes: seq<bv8>, alphabet: string, mask: bv8)
    requires mask as int < |alphabet|
    ensures |Accepted(bytes, alphabet, mask)| == |bytes|
  {
    if |bytes| > 0 {
      AllAccepted(bytes[..|bytes| - 1], alphabet, mask);
      MaskedAtMost(bytes[|bytes| - 1], mask);
    }
  }

  /** An alphabet of two or more characters whose size is a power of two
      gets the mask `size - 1`, so every byte yields a character. (A single
      character gets mask 1, and half the bytes are dropped.) */
  lemma PowerOfTwoAcceptsAll(bytes: seq<bv8>, alphabet: string, k: nat)
    requires 2 <= |alphabet| <= 255 && |alphabet| == Pow2(k)
    ensures Mask(|alphabet|) == |alphabet| - 1
    ensures |Accepted(bytes, alphabet, MaskByte(|alphabet|))| == |bytes|
  {
    Log2FloorBelowPow2(k);
    MaskByteValue(|alphabet|);
    AllAccepted(bytes, alphabet, MaskByte(|alphabet|));
  }

  /** The logarithm of 2^k - 1 rounds down to k - 1. */
  lemma {:induction false} Log2FloorBelowPow2(k: nat)
    requires k >= 1
    ensures Log2Floor(Pow2(k) - 1) == k - 1
  {
    if k > 1 {
      Log2FloorBelowPow2(k - 1);
      assert (Pow2(k) - 1) / 2 == Pow2(k - 1) - 1;
    }
  }

  /** A single character gets mask 1: half of all bytes yield nothing. */
  lemma SingleCharacterMask()
    ensures Mask(1) == 1
    ensures Index(0, MaskByte(1)) == 0 && Index(1, MaskByte(1)) == 1
  {
  }

  /** With the defaults (64 characters, length 21) the mask is 63, every
      byte is accepted, and one batch of 34 bytes always suffices. */
  lemma DefaultParameters()
    ensures |Charset| == 64 && Mask(64) == 63 && Step(63, DefaultLength, 64) == 34
    ensures forall b: bv8 :: 0 <= Index(b, MaskByte(|Charset|)) < |Charset|
    ensures forall bytes: seq<bv8> :: |bytes| == 34 ==>
      |Accepted(bytes, Charset, MaskByte(|Charset|))| == 34 >= DefaultLength
  {
    assert Log2Floor(63) == 5;
    MaskByteValue(64);
    forall b: bv8 ensures 0 <= Index(b, MaskByte(|Charset|)) < |Charset| {
      MaskedAtMost(b, MaskByte(64));
    }
    forall bytes: seq<bv8> | |bytes| == 34
      ensures |Accepted(bytes, Charset, MaskByte(|Charset|))| == 34
    {
      AllAccepted(bytes, Charset, MaskByte(64));
    }
  }
}
