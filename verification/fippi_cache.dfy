/**
  The panel-pair cache object: a table of computed records keyed by the
  relative geometry of a canonically ordered pair of triangular panels, the
  `DoNotCompute` switch, the hit and miss counters, and the operations that
  dump the table to a cache file and preload it from one.

  The floating-point subtraction used for the key, the tolerance test and the
  routine that computes a record are given when the cache is created.  File
  operations take the outcome of each system call as an input.
*/
module FippiCache {
  import opened Outcomes
  import opened Fingerprint
  import opened FippiTable
  import opened FippiFile

  /** The checks `PreLoad` makes before reading any record, in the order it
      makes them; the first failure is the one reported. */
  method CheckFile(size: Option<nat>, data: seq<bv8>, allocOk: bool) returns (count: Result<nat, LoadError>)
    ensures count == RecordCount(size, data, allocOk)
  {
    var err: Option<LoadError> := None;
    if size.None? {
      err := Some(StatFailed);
    }
    var fileSize: nat := if size.Some? then size.value else 0;
    if err.None? && fileSize < SigLen {
      err := Some(ShorterThanSignature);
    }
    if err.None? && |data| < SigLen {
      err := Some(SignatureUnreadable);
    }
    if err.None? && !CStrEq(data[..SigLen], Signature) {
      err := Some(SignatureMismatch);
    }
    if err.None? && RecRem(fileSize - SigLen) != 0 {
      err := Some(SizeNotWholeRecords);
    }
    var numRecords: nat := if err.None? then RecQuot(fileSize - SigLen) % UIntRange else 0;
    if err.None? && !allocOk {
      err := Some(OutOfMemory);
    }
    if err.Some? {
      return Err(err.value);
    }
    return Ok(numRecords);
  }

  /** The process-wide `Found` and `NotFound` counters: zero when the program
      starts, shared by every cache, never reset. */
  class HitCounters {
    var found: int
    var notFound: int

    constructor ()
      ensures found == 0 && notFound == 0
    {
      found := 0;
      notFound := 0;
    }
  }

  class FIPPICache {
    /** The bucket count, hasher and tolerance test of the map. */
    const placement: Placement
    /** Floating-point subtraction of two doubles, as `VecSub` performs it. */
    const sub: (Double, Double) -> Double
    /** `ComputeQIFIPPIData(OVa, OVb, ncv, QIFD)`: the record it fills in. */
    const compute: (seq<Vec3>, seq<Vec3>, int) -> Payload

    /** The map's entries, oldest first. */
    var entries: seq<Entry>
    var doNotCompute: int
    /** The counters every lookup of every cache adds to. */
    const counters: HitCounters

    ghost predicate Valid()
      reads this
    {
      HashesKeys(placement) && Coherent(placement, entries)
    }

    /** A new cache: an empty table hashed with `KeyHash` into `buckets`
        buckets and compared with `close`, computing enabled; the shared
        counters are left as they are. */
    constructor (buckets: Positive, close: (Double, Double) -> bool, sub: (Double, Double) -> Double,
                 compute: (seq<Vec3>, seq<Vec3>, int) -> Payload, counters: HitCounters)
      ensures Valid()
      ensures placement.buckets == buckets && placement.close == close
      ensures this.sub == sub && this.compute == compute && this.counters == counters
      ensures entries == [] && doNotCompute == 0
      ensures unchanged(counters)
    {
      placement := Placement(buckets, Hash, close);
      this.sub := sub;
      this.compute := compute;
      this.counters := counters;
      entries := [];
      doNotCompute := 0;
    }

    /** The record for the panel pair `OVa`, `OVb`: the stored one on a hit;
        on a miss a new one, computed unless `DoNotCompute` is set (otherwise
        whatever `scratch` the fresh allocation holds), which is added to the
        table.  Either way the pair is afterwards cached with the returned
        record, as long as the tolerance test is reflexive. */
    method GetQIFIPPIData(ova: seq<Vec3>, ovb: seq<Vec3>, ncv: int, scratch: Payload) returns (rec: Payload)
      requires |ova| == 3 && |ovb| == 3
      requires Valid()
      modifies this`entries, counters
      ensures Valid()
      ensures var k := BuildKey(ova, ovb, sub);
              var hit := old(Find(placement, entries, k));
              (hit.Some? ==> entries == old(entries) && rec == old(entries)[hit.value].payload
                             && counters.found == old(counters.found) + 1 && counters.notFound == old(counters.notFound))
              && (hit.None? ==> entries == old(entries) + [Entry(k, rec)]
                                && rec == (if doNotCompute == 0 then compute(ova, ovb, ncv) else scratch)
                                && counters.notFound == old(counters.notFound) + 1
                                && counters.found == old(counters.found))
              && (ReflexiveTest(placement) ==> Lookup(placement, entries, k) == Some(rec))
    {
      var k := BuildKey(ova, ovb, sub);
      var p := Find(placement, entries, k);
      if p.Some? {
        counters.found := counters.found + 1;
        return entries[p.value].payload;
      }
      counters.notFound := counters.notFound + 1;
      rec := scratch;
      if doNotCompute == 0 {
        rec := compute(ova, ovb, ncv);
      }
      if ReflexiveTest(placement) {
        InsertThenLookup(placement, entries, Entry(k, rec));
      }
      InsertKeepsCoherent(placement, entries, Entry(k, rec));
      entries := Insert(placement, entries, Entry(k, rec));
    }

    /** `Store`: the file written, or None when it cannot be opened, and the
        number of records written.  `view` is the map's iteration order.  The
        signature write's outcome is ignored: `sigWritten` is how many of its
        bytes reach the file.  The record write numbered `failAt` (counting
        from 0) is the first that fails, if there is one, and leaves the first
        `torn` bytes of its record behind (fewer than a whole record). */
    method Store(openOk: bool, view: seq<Entry>, sigWritten: nat, failAt: nat, torn: nat)
      returns (file: Option<seq<bv8>>, count: nat)
      requires multiset(view) == multiset(entries)
      ensures !openOk ==> file.None? && count == 0
      ensures openOk ==> count == Min(failAt, |view|)
                         && file == Some(Signature[..Min(sigWritten, SigLen)] + Encode(view[..count])
                                         + (if failAt < |view| then EncodeEntry(view[failAt])[..Min(torn, RecLen - 1)]
                                            else []))
    {
      if !openOk {
        return None, 0;
      }
      var out: seq<bv8> := Signature[..Min(sigWritten, SigLen)];
      ghost var head := out;
      count := 0;
      while count < |view|
        invariant count <= |view| && count <= failAt
        invariant out == head + Encode(view[..count])
      {
        if count == failAt {
          return Some(out + EncodeEntry(view[count])[..Min(torn, RecLen - 1)]), count;
        }
        EncodePrefixStep(view, count);
        out := out + EncodeEntry(view[count]);
        count := count + 1;
      }
      assert out + [] == out;
      file := Some(out);
    }

    /** `PreLoad`: the validation chain, then one record read and inserted at
        a time; the table ends as `PreLoadResult` describes. */
    method PreLoad(openOk: bool, size: Option<nat>, data: seq<bv8>, allocOk: bool) returns (status: LoadStatus)
      requires Valid()
      modifies this`entries
      ensures Valid()
      ensures (entries, status) == PreLoadResult(placement, old(entries), openOk, size, data, allocOk)
    {
      if !openOk {
        return NotOpened;
      }
      var count := CheckFile(size, data, allocOk);
      if count.Err? {
        return Rejected(count.error);
      }
      var numRecords := count.value;
      PreLoadUnfold(placement, entries, size, data, allocOk);

      ghost var table := entries;
      ghost var recs := Records(data[SigLen..]);
      var rest := data[SigLen..];
      var nr: nat := 0;
      while nr < numRecords
        invariant nr <= numRecords && nr <= |recs|
        invariant Records(rest) == recs[nr..]
        invariant table == old(entries)
        invariant entries == InsertAll(placement, table, recs[..nr])
        invariant Valid()
      {
        if |rest| < RecLen {
          ReadShort(recs, nr, rest);
          return ShortRead(nr, numRecords);
        }
        ReadStep(recs, nr, rest);
        InsertStep(placement, table, recs, nr);
        var e := DecodeEntry(rest[..RecLen]);
        InsertKeepsCoherent(placement, entries, e);
        entries := Insert(placement, entries, e);
        rest := rest[RecLen..];
        nr := nr + 1;
      }
      return Loaded(numRecords);
    }
  }
}
