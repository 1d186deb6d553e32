/**
  The search key of the panel-pair cache: fifteen doubles, the five vertex
  differences of an ordered pair of triangles, and the byte view of it that
  the hash reads and the cache file stores.

  A double is modelled by its raw 64-bit pattern; its bytes are laid out
  little-endian.  The floating-point subtraction and the per-component
  tolerance test are not computed here: they are given functions.
*/
module Fingerprint {

  const KeyLen: nat := 15
  /** `KEYLEN*sizeof(double)`: the number of bytes the hash reads. */
  const KeyBytesLen: nat := 120

  type Double = bv64
  type Vec3 = v: seq<Double> | |v| == 3 witness [0, 0, 0]
  type Key = k: seq<Double> | |k| == KeyLen witness seq(15, _ => 0)

  /** The double stored in eight little-endian bytes. */
  function DoubleOf(bs: seq<bv8>): Double
    requires |bs| == 8
  {
    (bs[0] as bv64) | ((bs[1] as bv64) << 8) | ((bs[2] as bv64) << 16) | ((bs[3] as bv64) << 24)
    | ((bs[4] as bv64) << 32) | ((bs[5] as bv64) << 40) | ((bs[6] as bv64) << 48) | ((bs[7] as bv64) << 56)
  }

  /** The eight bytes of a double in memory; reading them back gives the double. */
  function DoubleBytes(d: Double): (bs: seq<bv8>)
    ensures |bs| == 8
    ensures DoubleOf(bs) == d
  {
    [(d & 0xFF) as bv8, ((d >> 8) & 0xFF) as bv8, ((d >> 16) & 0xFF) as bv8, ((d >> 24) & 0xFF) as bv8,
     ((d >> 32) & 0xFF) as bv8, ((d >> 40) & 0xFF) as bv8, ((d >> 48) & 0xFF) as bv8, (d >> 56) as bv8]
  }

  /** Eight bytes are determined by the double they store. */
  lemma DoubleBytesOf(bs: seq<bv8>)
    requires |bs| == 8
    ensures DoubleBytes(DoubleOf(bs)) == bs
  {
  }

  /** The bytes of an array of doubles, in order. */
  function Pack(ds: seq<Double>): (bs: seq<bv8>)
    ensures |bs| == 8 * |ds|
  {
    if ds == [] then [] else DoubleBytes(ds[0]) + Pack(ds[1..])
  }

  /** The array of doubles whose bytes are `bs`. */
  function Unpack(bs: seq<bv8>): (ds: seq<Double>)
    requires |bs| % 8 == 0
    ensures 8 * |ds| == |bs|
    decreases |bs|
  {
    if bs == [] then [] else [DoubleOf(bs[..8])] + Unpack(bs[8..])
  }

  /** Reading the bytes of an array of doubles gives the array back. */
  lemma {:induction false} UnpackPack(ds: seq<Double>)
    ensures Unpack(Pack(ds)) == ds
  {
    if ds != [] {
      var bs := Pack(ds);
      assert bs[..8] == DoubleBytes(ds[0]);
      assert bs[8..] == Pack(ds[1..]);
      UnpackPack(ds[1..]);
    }
  }

  /** Every byte string of whole doubles is the image of an array of doubles. */
  lemma {:induction false} PackUnpack(bs: seq<bv8>)
    requires |bs| % 8 == 0
    ensures Pack(Unpack(bs)) == bs
    decreases |bs|
  {
    if bs != [] {
      DoubleBytesOf(bs[..8]);
      PackUnpack(bs[8..]);
      assert bs == bs[..8] + bs[8..];
    }
  }

  /** The 120 bytes of a key, as `(char *)Key` exposes them. */
  function KeyBytes(k: Key): (bs: seq<bv8>)
    ensures |bs| == KeyBytesLen
  {
    Pack(k)
  }

  /** The key stored in 120 bytes. */
  function KeyOf(bs: seq<bv8>): Key
    requires |bs| == KeyBytesLen
  {
    Unpack(bs)
  }

  /** Keys and their byte images correspond one to one. */
  lemma KeyBytesRoundTrip(k: Key, bs: seq<bv8>)
    requires |bs| == KeyBytesLen
    ensures KeyOf(KeyBytes(k)) == k
    ensures KeyBytes(KeyOf(bs)) == bs
  {
    UnpackPack(k);
    PackUnpack(bs);
  }

  /** Two keys are byte-identical exactly when they are the same key. */
  lemma KeyBytesInjective(k1: Key, k2: Key)
    ensures KeyBytes(k1) == KeyBytes(k2) <==> k1 == k2
  {
    if KeyBytes(k1) == KeyBytes(k2) {
      KeyBytesRoundTrip(k1, KeyBytes(k1));
      KeyBytesRoundTrip(k2, KeyBytes(k2));
    }
  }

  /** `VecSub(a, b, out)`: component-wise `a - b`, with the floating-point subtraction given. */
  function VecSub(a: Vec3, b: Vec3, sub: (Double, Double) -> Double): Vec3 {
    [sub(a[0], b[0]), sub(a[1], b[1]), sub(a[2], b[2])]
  }

  /** The five vertices the key is taken relative to `OVa[0]`:
      `OVa[1]`, `OVa[2]`, `OVb[0]`, `OVb[1]`, `OVb[2]`. */
  function Corner(ova: seq<Vec3>, ovb: seq<Vec3>, v: nat): Vec3
    requires |ova| == 3 && |ovb| == 3 && v < 5
  {
    if v < 2 then ova[v + 1] else ovb[v - 2]
  }

  /** The search key of a canonically ordered panel pair: five 3-vectors at offsets 0, 3, 6, 9 and 12. */
  function BuildKey(ova: seq<Vec3>, ovb: seq<Vec3>, sub: (Double, Double) -> Double): (k: Key)
    requires |ova| == 3 && |ovb| == 3
    ensures forall v, c | 0 <= v < 5 && 0 <= c < 3 :: k[3 * v + c] == sub(Corner(ova, ovb, v)[c], ova[0][c])
  {
    VecSub(ova[1], ova[0], sub) + VecSub(ova[2], ova[0], sub)
      + VecSub(ovb[0], ova[0], sub) + VecSub(ovb[1], ova[0], sub) + VecSub(ovb[2], ova[0], sub)
  }

  /** Two panel pairs whose five vertex differences agree component by
      component have the same key. */
  lemma SameDifferencesSameKey(ova: seq<Vec3>, ovb: seq<Vec3>, ova': seq<Vec3>, ovb': seq<Vec3>,
                               sub: (Double, Double) -> Double)
    requires |ova| == 3 && |ovb| == 3 && |ova'| == 3 && |ovb'| == 3
    requires forall v, c | 0 <= v < 5 && 0 <= c < 3 ::
               sub(Corner(ova', ovb', v)[c], ova'[0][c]) == sub(Corner(ova, ovb, v)[c], ova[0][c])
    ensures BuildKey(ova', ovb', sub) == BuildKey(ova, ovb, sub)
  {
    forall v | 0 <= v < 5
      ensures VecSub(Corner(ova', ovb', v), ova'[0], sub) == VecSub(Corner(ova, ovb, v), ova[0], sub)
    {
      assert forall c | 0 <= c < 3 :: sub(Corner(ova', ovb', v)[c], ova'[0][c]) == sub(Corner(ova, ovb, v)[c], ova[0][c]);
    }
    assert Corner(ova, ovb, 0) == ova[1] && Corner(ova', ovb', 0) == ova'[1];
    assert Corner(ova, ovb, 1) == ova[2] && Corner(ova', ovb', 1) == ova'[2];
    assert Corner(ova, ovb, 2) == ovb[0] && Corner(ova', ovb', 2) == ovb'[0];
    assert Corner(ova, ovb, 3) == ovb[1] && Corner(ova', ovb', 3) == ovb'[1];
    assert Corner(ova, ovb, 4) == ovb[2] && Corner(ova', ovb', 4) == ovb'[2];
  }

  /** A vertex moved by the vector `t`, with the floating-point addition given. */
  function Translate(x: Vec3, t: Vec3, add: (Double, Double) -> Double): Vec3 {
    [add(x[0], t[0]), add(x[1], t[1]), add(x[2], t[2])]
  }

  /** The vertices of a panel, each moved by `t`. */
  function TranslatePanel(ov: seq<Vec3>, t: Vec3, add: (Double, Double) -> Double): (r: seq<Vec3>)
    requires |ov| == 3
    ensures |r| == 3 && forall i | 0 <= i < 3 :: r[i] == Translate(ov[i], t, add)
  {
    [Translate(ov[0], t, add), Translate(ov[1], t, add), Translate(ov[2], t, add)]
  }

  /** Each component of each vertex of a translated pair is the original one
      moved by `t`. */
  lemma TranslatedCorner(ova: seq<Vec3>, ovb: seq<Vec3>, t: Vec3, add: (Double, Double) -> Double, v: nat, c: nat)
    requires |ova| == 3 && |ovb| == 3 && v < 5 && c < 3
    ensures var ova', ovb' := TranslatePanel(ova, t, add), TranslatePanel(ovb, t, add);
            Corner(ova', ovb', v)[c] == add(Corner(ova, ovb, v)[c], t[c]) && ova'[0][c] == add(ova[0][c], t[c])
  {
    var ova', ovb' := TranslatePanel(ova, t, add), TranslatePanel(ovb, t, add);
    assert Corner(ova', ovb', v) == Translate(Corner(ova, ovb, v), t, add);
  }

  /** Moving both panels of a pair by the same vector `t` leaves the key
      unchanged, provided the subtraction cancels the move in each coordinate
      (`(x + t) - (y + t) == x - y`). */
  lemma BuildKeyTranslationInvariant(ova: seq<Vec3>, ovb: seq<Vec3>, t: Vec3,
                                     add: (Double, Double) -> Double, sub: (Double, Double) -> Double)
    requires |ova| == 3 && |ovb| == 3
    requires forall x, y, c | 0 <= c < 3 :: sub(add(x, t[c]), add(y, t[c])) == sub(x, y)
    ensures BuildKey(TranslatePanel(ova, t, add), TranslatePanel(ovb, t, add), sub) == BuildKey(ova, ovb, sub)
  {
    var ova', ovb' := TranslatePanel(ova, t, add), TranslatePanel(ovb, t, add);
    forall v, c | 0 <= v < 5 && 0 <= c < 3
      ensures sub(Corner(ova', ovb', v)[c], ova'[0][c]) == sub(Corner(ova, ovb, v)[c], ova[0][c])
    {
      TranslatedCorner(ova, ovb, t, add, v, c);
      var x, y := Corner(ova, ovb, v)[c], ova[0][c];
      assert sub(add(x, t[c]), add(y, t[c])) == sub(x, y);
    }
    SameDifferencesSameKey(ova, ovb, ova', ovb', sub);
  }

  /** The comparator's verdict: every one of the fifteen components passes the
      given tolerance test `close(K1[nd], K2[nd])`. */
  predicate Equivalent(k1: Key, k2: Key, close: (Double, Double) -> bool) {
    forall nd | 0 <= nd < KeyLen :: close(k1[nd], k2[nd])
  }

  /** The tolerance test holds of every double with itself. */
  ghost predicate Reflexive(close: (Double, Double) -> bool) {
    forall x: Double :: close(x, x)
  }

  /** With a reflexive tolerance test every key is equivalent to itself. */
  lemma EquivalentReflexive(k: Key, close: (Double, Double) -> bool)
    requires Reflexive(close)
    ensures Equivalent(k, k, close)
  {
    forall nd | 0 <= nd < KeyLen
      ensures close(k[nd], k[nd])
    {
      var x := k[nd];
      assert close(x, x);
    }
  }

  /** `KeyCmp`: the loop that returns false at the first component failing the tolerance test. */
  method KeyCmp(k1: Key, k2: Key, close: (Double, Double) -> bool) returns (same: bool)
    ensures same <==> Equivalent(k1, k2, close)
  {
    var nd := 0;
    while nd < KeyLen
      invariant 0 <= nd <= KeyLen
      invariant forall m | 0 <= m < nd :: close(k1[m], k2[m])
    {
      if !close(k1[nd], k2[nd]) {
        return false;
      }
      nd := nd + 1;
    }
    return true;
  }
}
