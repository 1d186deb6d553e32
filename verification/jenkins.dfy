/**
  Bob Jenkins' one-at-a-time hash exactly as the panel-pair cache computes it:
  the accumulator is a signed 64-bit `long` that wraps around, every key byte
  is a signed `char` (sign-extended before it is added) and `>>` on the signed
  accumulator is an arithmetic shift.  64-bit words are modelled as `bv64`.
*/
module Jenkins {

  const SignBit: bv64 := 0x8000_0000_0000_0000

  /** The value of a 64-bit pattern read as two's complement. */
  function Signed64(w: bv64): int {
    if w & SignBit == 0 then w as int else w as int - 0x1_0000_0000_0000_0000
  }

  /** The value of a byte read as a signed `char`. */
  function Signed8(b: bv8): int {
    if b < 0x80 then b as int else b as int - 0x100
  }

  /** A signed `char` widened to `long`: the same number, and the same low byte. */
  function SignExtend(b: bv8): (w: bv64)
    ensures Signed64(w) == Signed8(b)
    ensures w & 0xFF == b as bv64
  {
    if b < 0x80 then b as bv64 else (b as bv64) | 0xFFFF_FFFF_FFFF_FF00
  }

  /** `h >> 6` on a signed `long`: the low 58 bits are the high bits of `h`,
      the top 6 bits are copies of its sign bit. */
  function Sar6(h: bv64): (r: bv64)
    ensures r << 6 == h & 0xFFFF_FFFF_FFFF_FFC0
    ensures r >> 58 == if h & 0x8000_0000_0000_0000 == 0 then 0 else 0x3F
  {
    (h >> 6) | (if h & 0x8000_0000_0000_0000 == 0 then 0 else 0xFC00_0000_0000_0000)
  }

  /** `h >> 11` on a signed `long`. */
  function Sar11(h: bv64): (r: bv64)
    ensures r << 11 == h & 0xFFFF_FFFF_FFFF_F800
    ensures r >> 53 == if h & 0x8000_0000_0000_0000 == 0 then 0 else 0x7FF
  {
    (h >> 11) | (if h & 0x8000_0000_0000_0000 == 0 then 0 else 0xFFE0_0000_0000_0000)
  }

  /** One round of the loop body: `hash += key[i]; hash += (hash << 10); hash ^= (hash >> 6);`. */
  function Mix(h: bv64, b: bv8): bv64 {
    var h1 := h + SignExtend(b);
    var h2 := h1 + (h1 << 10);
    h2 ^ Sar6(h2)
  }

  /** The accumulator after the loop has consumed `s`, starting from `h`. */
  function Absorb(h: bv64, s: seq<bv8>): bv64
    decreases |s|
  {
    if s == [] then h else Mix(Absorb(h, s[..|s| - 1]), s[|s| - 1])
  }

  /** The three steps after the loop:
      `hash += (hash << 3); hash ^= (hash >> 11); hash += (hash << 15);`. */
  function Finish(h: bv64): bv64 {
    var h1 := h + (h << 3);
    var h2 := h1 ^ Sar11(h1);
    h2 + (h2 << 15)
  }

  /** The reference definition of the hash of a byte string. */
  function OneAtATime(key: seq<bv8>): bv64 {
    Finish(Absorb(0, key))
  }

  /** `JenkinsHash(key, len)`: one loop over the `len` bytes, then the final mixing. */
  method JenkinsHash(key: seq<bv8>) returns (hash: bv64)
    ensures hash == OneAtATime(key)
  {
    hash := 0;
    var i := 0;
    while i < |key|
      invariant 0 <= i <= |key|
      invariant hash == Absorb(0, key[..i])
    {
      assert key[..i + 1][..i] == key[..i];
      hash := Mix(hash, key[i]);
      i := i + 1;
    }
    assert key[..i] == key;
    hash := Finish(hash);
  }

  /** The hash is incremental: consuming `a + b` is consuming `a`, then `b`. */
  lemma {:induction false} AbsorbAppend(h: bv64, a: seq<bv8>, b: seq<bv8>)
    ensures Absorb(h, a + b) == Absorb(Absorb(h, a), b)
    decreases |b|
  {
    if b == [] {
      assert a + b == a;
    } else {
      var b' := b[..|b| - 1];
      assert (a + b)[..|a + b| - 1] == a + b';
      AbsorbAppend(h, a, b');
    }
  }

  /** A run of zero bytes leaves a zero accumulator at zero. */
  lemma {:induction false} AbsorbZeros(n: nat)
    ensures Absorb(0, seq(n, _ => 0 as bv8)) == 0
  {
    if n > 0 {
      var z := seq(n, _ => 0 as bv8);
      assert z[..n - 1] == seq(n - 1, _ => 0 as bv8);
      AbsorbZeros(n - 1);
    }
  }

  /** The all-zero key (every vertex difference +0.0) hashes to 0. */
  lemma ZeroKeyHashesToZero(n: nat)
    ensures OneAtATime(seq(n, _ => 0 as bv8)) == 0
  {
    AbsorbZeros(n);
  }

  /** A byte with its top bit set is added as a negative number: it differs from
      the unsigned reading in all 56 upper bits. */
  lemma HighByteIsNegative(b: bv8)
    requires b >= 0x80
    ensures SignExtend(b) >> 8 == 0x00FF_FFFF_FFFF_FFFF
    ensures Signed64(SignExtend(b)) < 0
  {
  }
}
