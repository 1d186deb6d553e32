/**
  The key/record table behind the panel-pair cache: an unordered map keyed by
  the fifteen-double search key, hashed with its hasher (for the cache, the
  one-at-a-time hash of the key's bytes) and compared with the tolerance
  comparator.

  The table is the sequence of its entries, oldest first.  A key lands in
  bucket `hash % buckets`; looking a key up walks that bucket from the most
  recently inserted entry and stops at the first stored key the comparator
  accepts (the searched key is the comparator's first argument).  `insert`
  of a key the bucket already accepts is a no-op.  The number of buckets is a
  parameter that stays fixed (rehashing is not modelled); every property
  below holds for any bucket count.
*/
module FippiTable {
  import opened Outcomes
  import opened Jenkins
  import opened Fingerprint

  /** `sizeof(QIFIPPIData)`: the record's byte size is left abstract. */
  const PayloadLen: nat

  /** The bytes of one cached record, treated as opaque. */
  type Payload = p: seq<bv8> | |p| == PayloadLen witness seq(PayloadLen, _ => 0)

  type Positive = n: nat | n > 0 witness 1

  datatype Entry = Entry(key: Key, payload: Payload)

  /** How the map places and compares keys: its bucket count, its hasher and
      the per-component tolerance test of `KeyCmp`. */
  datatype Placement = Placement(buckets: Positive, hash: Key -> bv64, close: (Double, Double) -> bool)

  /** `HashFunction(Key)`: the hash of exactly the 120 key bytes. */
  function Hash(k: Key): bv64 {
    OneAtATime(KeyBytes(k))
  }

  /** `HashFunction`, computed by running the hash loop over the key's bytes. */
  method HashFunction(k: Key) returns (h: bv64)
    ensures h == Hash(k)
  {
    h := JenkinsHash(KeyBytes(k));
  }

  /** The map hashes with `KeyHash`, which hands the key to `HashFunction`. */
  ghost predicate HashesKeys(p: Placement) {
    forall k :: p.hash(k) == Hash(k)
  }

  /** Byte-identical keys always hash the same, and share a bucket. */
  lemma IdenticalBytesSameHash(p: Placement, k1: Key, k2: Key)
    requires KeyBytes(k1) == KeyBytes(k2)
    ensures Hash(k1) == Hash(k2)
    ensures Bucket(p, k1) == Bucket(p, k2)
  {
    KeyBytesInjective(k1, k2);
  }

  /** The bucket of a key: the hash read as an unsigned `size_t`, modulo the bucket count. */
  function Bucket(p: Placement, k: Key): nat {
    (p.hash(k) as nat) % p.buckets
  }

  /** Whether a search for `k` stops at the stored key `stored`. */
  predicate Probes(p: Placement, k: Key, stored: Key) {
    Bucket(p, k) == Bucket(p, stored) && Equivalent(k, stored, p.close)
  }

  /** No stored key is found by a search for `k`. */
  predicate Absent(p: Placement, es: seq<Entry>, k: Key) {
    forall i | 0 <= i < |es| :: !Probes(p, k, es[i].key)
  }

  /** `find`: the position of the most recently inserted entry a search for `k` stops at. */
  function Find(p: Placement, es: seq<Entry>, k: Key): (r: Option<nat>)
    ensures r.None? <==> Absent(p, es, k)
    ensures r.Some? ==> r.value < |es| && Probes(p, k, es[r.value].key)
    ensures r.Some? ==> forall j | r.value < j < |es| :: !Probes(p, k, es[j].key)
    decreases |es|
  {
    if es == [] then None
    else if Probes(p, k, es[|es| - 1].key) then Some(|es| - 1)
    else Find(p, es[..|es| - 1], k)
  }

  /** The record a search for `k` returns, if any. */
  function Lookup(p: Placement, es: seq<Entry>, k: Key): (r: Option<Payload>)
    ensures r.None? <==> Absent(p, es, k)
    ensures r.Some? ==> exists i | 0 <= i < |es| :: Probes(p, k, es[i].key) && es[i].payload == r.value
  {
    match Find(p, es, k)
    case None => None
    case Some(i) => Some(es[i].payload)
  }

  /** `insert` with unique keys: a no-op when a search for the new key finds a
      stored one, otherwise the entry is added. */
  function Insert(p: Placement, es: seq<Entry>, e: Entry): (r: seq<Entry>)
    ensures Absent(p, es, e.key) ==> r == es + [e]
    ensures !Absent(p, es, e.key) ==> r == es
  {
    if Find(p, es, e.key).Some? then es else es + [e]
  }

  /** The table invariant `insert` keeps: no entry is found by a search for a
      key inserted after it. */
  predicate Coherent(p: Placement, es: seq<Entry>) {
    forall i, j | 0 <= j < i < |es| :: !Probes(p, es[i].key, es[j].key)
  }

  lemma InsertKeepsCoherent(p: Placement, es: seq<Entry>, e: Entry)
    requires Coherent(p, es)
    ensures Coherent(p, Insert(p, es, e))
  {
  }

  /** The tolerance test of the table accepts every double with itself. */
  ghost predicate ReflexiveTest(p: Placement) {
    Fingerprint.Reflexive(p.close)
  }

  /** A search for a key finds any stored byte-identical key: it is never reported absent. */
  lemma StoredKeyIsFound(p: Placement, es: seq<Entry>, i: nat)
    requires ReflexiveTest(p) && i < |es|
    ensures Find(p, es, es[i].key).Some?
  {
    EquivalentReflexive(es[i].key, p.close);
  }

  /** In a coherent table with a reflexive test no key is stored twice. */
  lemma CoherentKeysDistinct(p: Placement, es: seq<Entry>, i: nat, j: nat)
    requires ReflexiveTest(p) && Coherent(p, es)
    requires j < i < |es|
    ensures es[i].key != es[j].key
  {
    EquivalentReflexive(es[i].key, p.close);
  }

  /** After inserting an entry whose key was absent, a search for that key returns its record. */
  lemma InsertThenLookup(p: Placement, es: seq<Entry>, e: Entry)
    requires ReflexiveTest(p) && Absent(p, es, e.key)
    ensures Lookup(p, Insert(p, es, e), e.key) == Some(e.payload)
  {
    EquivalentReflexive(e.key, p.close);
    assert Insert(p, es, e)[|es|] == e;
  }

  /** Inserting never removes or changes an entry: the old table is a prefix of the new. */
  lemma InsertExtends(p: Placement, es: seq<Entry>, e: Entry)
    ensures Insert(p, es, e)[..|es|] == es
  {
  }

  /** `insert` of each entry in turn, in order. */
  function InsertAll(p: Placement, es: seq<Entry>, xs: seq<Entry>): seq<Entry>
    decreases |xs|
  {
    if xs == [] then es else InsertAll(p, Insert(p, es, xs[0]), xs[1..])
  }

  /** Inserting a sequence and then one more entry is inserting the longer sequence. */
  lemma {:induction false} InsertAllSnoc(p: Placement, es: seq<Entry>, xs: seq<Entry>, x: Entry)
    ensures InsertAll(p, es, xs + [x]) == Insert(p, InsertAll(p, es, xs), x)
    decreases |xs|
  {
    if xs == [] {
      assert ([] + [x])[1..] == [];
    } else {
      assert (xs + [x])[1..] == xs[1..] + [x];
      InsertAllSnoc(p, Insert(p, es, xs[0]), xs[1..], x);
    }
  }

  /** Inserting into an empty table entries of which none is found by a search
      for a later one rebuilds exactly that sequence. */
  lemma {:induction false} InsertAllCoherent(p: Placement, xs: seq<Entry>)
    requires Coherent(p, xs)
    ensures InsertAll(p, [], xs) == xs
    decreases |xs|
  {
    if xs != [] {
      var init := xs[..|xs| - 1];
      var x := xs[|xs| - 1];
      assert xs == init + [x];
      assert Coherent(p, init);
      InsertAllCoherent(p, init);
      InsertAllSnoc(p, [], init, x);
      assert Absent(p, init, x.key);
    }
  }

  /** Inserting entries never shrinks the table; it grows by at most one entry per insertion. */
  lemma {:induction false} InsertAllBounds(p: Placement, es: seq<Entry>, xs: seq<Entry>)
    ensures |es| <= |InsertAll(p, es, xs)| <= |es| + |xs|
    ensures InsertAll(p, es, xs)[..|es|] == es
    decreases |xs|
  {
    if xs != [] {
      InsertAllBounds(p, Insert(p, es, xs[0]), xs[1..]);
      InsertExtends(p, es, xs[0]);
      var r := InsertAll(p, es, xs);
      assert r[..|es|] == r[..|Insert(p, es, xs[0])|][..|es|];
    }
  }

  /** A key a search finds stays found after any insertion. */
  lemma InsertKeepsFound(p: Placement, es: seq<Entry>, e: Entry, k: Key)
    requires Find(p, es, k).Some?
    ensures Find(p, Insert(p, es, e), k).Some?
  {
    var i := Find(p, es, k).value;
    assert Insert(p, es, e)[i] == es[i];
  }

  /** After a run of insertions (with a reflexive test) every key found
      before is still found, and so is the key of every entry inserted. */
  lemma {:induction false} InsertAllFinds(p: Placement, es: seq<Entry>, xs: seq<Entry>)
    requires ReflexiveTest(p)
    ensures forall k | Find(p, es, k).Some? :: Find(p, InsertAll(p, es, xs), k).Some?
    ensures forall i | 0 <= i < |xs| :: Find(p, InsertAll(p, es, xs), xs[i].key).Some?
    decreases |xs|
  {
    if xs != [] {
      var es' := Insert(p, es, xs[0]);
      if Find(p, es, xs[0].key).None? {
        InsertThenLookup(p, es, xs[0]);
      }
      assert Find(p, es', xs[0].key).Some?;
      forall k | Find(p, es, k).Some?
        ensures Find(p, es', k).Some?
      {
        InsertKeepsFound(p, es, xs[0], k);
      }
      InsertAllFinds(p, es', xs[1..]);
      forall i | 0 <= i < |xs|
        ensures Find(p, InsertAll(p, es, xs), xs[i].key).Some?
      {
        if i > 0 {
          assert xs[i] == xs[1..][i - 1];
        }
      }
    }
  }

  /** Insertions only ever store entries of the old table or of the inserted run. */
  lemma {:induction false} InsertAllFrom(p: Placement, es: seq<Entry>, xs: seq<Entry>)
    ensures forall e | e in InsertAll(p, es, xs) :: e in es || e in xs
    decreases |xs|
  {
    if xs != [] {
      InsertAllFrom(p, Insert(p, es, xs[0]), xs[1..]);
      assert forall e | e in xs[1..] :: e in xs;
    }
  }

  /** The tolerance test does not depend on the order of its arguments. */
  ghost predicate SymmetricTest(p: Placement) {
    forall x: Double, y: Double :: p.close(x, y) == p.close(y, x)
  }

  /** With a symmetric test, a search for either key of a pair finds the other
      exactly when a search for the other finds the first. */
  lemma ProbesSymmetric(p: Placement, k1: Key, k2: Key)
    requires SymmetricTest(p)
    ensures Probes(p, k1, k2) == Probes(p, k2, k1)
  {
    forall nd | 0 <= nd < KeyLen
      ensures p.close(k1[nd], k2[nd]) == p.close(k2[nd], k1[nd])
    {
      var x, y := k1[nd], k2[nd];
      assert p.close(x, y) == p.close(y, x);
    }
  }

  /** In a coherent table with a reflexive test, no entry occurs twice. */
  lemma {:induction false} CoherentEntriesOnce(p: Placement, es: seq<Entry>, x: Entry)
    requires ReflexiveTest(p) && Coherent(p, es)
    ensures multiset(es)[x] <= 1
    decreases |es|
  {
    if es != [] {
      var init, last := es[..|es| - 1], es[|es| - 1];
      assert es == init + [last];
      assert Coherent(p, init);
      CoherentEntriesOnce(p, init, x);
      if last == x && x in init {
        var j :| 0 <= j < |init| && init[j] == x;
        CoherentKeysDistinct(p, es, |es| - 1, j);
      }
    }
  }

  /** An entry at two positions of a sequence is counted twice. */
  lemma TwiceCounted(s: seq<Entry>, i: nat, j: nat)
    requires j < i < |s| && s[i] == s[j]
    ensures multiset(s)[s[i]] >= 2
  {
    assert s == s[..i] + [s[i]] + s[i + 1..];
    assert s[..i][j] == s[i];
  }

  /** With a reflexive and symmetric test, every ordering of a coherent table
      is coherent too. */
  lemma PermutedCoherent(p: Placement, es: seq<Entry>, view: seq<Entry>)
    requires ReflexiveTest(p) && SymmetricTest(p) && Coherent(p, es)
    requires multiset(view) == multiset(es)
    ensures Coherent(p, view)
  {
    forall i, j | 0 <= j < i < |view|
      ensures !Probes(p, view[i].key, view[j].key)
    {
      assert view[i] in multiset(es) && view[j] in multiset(es);
      var a :| 0 <= a < |es| && es[a] == view[i];
      var b :| 0 <= b < |es| && es[b] == view[j];
      if view[i] == view[j] {
        TwiceCounted(view, i, j);
        CoherentEntriesOnce(p, es, view[i]);
        assert false;
      }
      ProbesSymmetric(p, es[a].key, es[b].key);
    }
  }
}
