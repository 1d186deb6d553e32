/**
  The cache file: the 11-byte signature `"FIPPICACHE"` with its terminating
  zero, then one fixed-length record per table entry, each the 120 key bytes
  followed by the record's payload bytes.  A file is a byte sequence.

  This module states what writing and reading such a file does to a table;
  the cache class runs the same steps one write or read at a time.
*/
module FippiFile {
  import opened Outcomes
  import opened Fingerprint
  import opened FippiTable

  /** `FIPPICF_Signature`, with the terminating zero byte that `sizeof` counts. */
  const Signature: seq<bv8> := [0x46, 0x49, 0x50, 0x50, 0x49, 0x43, 0x41, 0x43, 0x48, 0x45, 0x00]
  /** `FIPPICF_SIGLEN`. */
  const SigLen: nat := 11
  /** `FIPPICF_RECLEN`: key bytes plus payload bytes, with no padding between them. */
  const RecLen: Positive := KeyBytesLen + PayloadLen

  /** The record image of one entry. */
  function EncodeEntry(e: Entry): (bs: seq<bv8>)
    ensures |bs| == RecLen
  {
    KeyBytes(e.key) + e.payload
  }

  /** The entry stored in one record. */
  function DecodeEntry(bs: seq<bv8>): Entry
    requires |bs| == RecLen
  {
    Entry(KeyOf(bs[..KeyBytesLen]), bs[KeyBytesLen..])
  }

  lemma EntryRoundTrip(e: Entry, bs: seq<bv8>)
    requires |bs| == RecLen
    ensures DecodeEntry(EncodeEntry(e)) == e
    ensures EncodeEntry(DecodeEntry(bs)) == bs
  {
    var es := EncodeEntry(e);
    assert es[..KeyBytesLen] == KeyBytes(e.key);
    assert es[KeyBytesLen..] == e.payload;
    KeyBytesRoundTrip(e.key, bs[..KeyBytesLen]);
    assert bs == bs[..KeyBytesLen] + bs[KeyBytesLen..];
  }

  /** The records of a sequence of entries, written one after another. */
  function Encode(es: seq<Entry>): (bs: seq<bv8>)
    decreases |es|
  {
    if es == [] then [] else EncodeEntry(es[0]) + Encode(es[1..])
  }

  /** Writing one more record appends its image. */
  lemma {:induction false} EncodeSnoc(es: seq<Entry>, e: Entry)
    ensures Encode(es + [e]) == Encode(es) + EncodeEntry(e)
    decreases |es|
  {
    if es == [] {
      assert ([] + [e])[1..] == [];
    } else {
      assert (es + [e])[1..] == es[1..] + [e];
      EncodeSnoc(es[1..], e);
    }
  }

  /** The entries stored in the whole records at the front of `bs`; a
      trailing fragment shorter than a record is not a record. */
  function Records(bs: seq<bv8>): seq<Entry>
    decreases |bs|
  {
    if |bs| < RecLen then [] else [DecodeEntry(bs[..RecLen])] + Records(bs[RecLen..])
  }

  /** Writing the records of a prefix of `view` and then the next one writes
      the longer prefix. */
  lemma EncodePrefixStep(view: seq<Entry>, n: nat)
    requires n < |view|
    ensures Encode(view[..n + 1]) == Encode(view[..n]) + EncodeEntry(view[n])
  {
    EncodeSnoc(view[..n], view[n]);
    assert view[..n + 1] == view[..n] + [view[n]];
  }

  /** Reading back what was written gives the entries in the same order. */
  lemma {:induction false} RecordsEncode(es: seq<Entry>)
    ensures Records(Encode(es)) == es
    decreases |es|
  {
    if es != [] {
      var bs := Encode(es);
      EntryRoundTrip(es[0], EncodeEntry(es[0]));
      assert bs[..RecLen] == EncodeEntry(es[0]);
      assert bs[RecLen..] == Encode(es[1..]);
      RecordsEncode(es[1..]);
    }
  }

  lemma MulAtLeast(d: int, r: Positive)
    requires d >= 1
    ensures d * r >= r
  {
    assert d * r == (d - 1) * r + r;
  }

  /** Euclidean quotient and remainder are unique. */
  lemma DivModUnique(x: int, r: Positive, q: int, m: int)
    requires x == q * r + m && 0 <= m < r
    ensures x / r == q && x % r == m
  {
    var q', m' := x / r, x % r;
    assert x == q' * r + m';
    assert (q - q') * r == m' - m;
    if q - q' >= 1 {
      MulAtLeast(q - q', r);
    } else if q' - q >= 1 {
      MulAtLeast(q' - q, r);
    }
  }

  /** `len / RECLEN` and `len % RECLEN`, by repeated subtraction of a record length. */
  function RecQuot(len: nat): nat
    decreases len
  {
    if len < RecLen then 0 else 1 + RecQuot(len - RecLen)
  }

  function RecRem(len: nat): (r: nat)
    ensures r < RecLen
    decreases len
  {
    if len < RecLen then len else RecRem(len - RecLen)
  }

  /** The two agree with C's unsigned `/` and `%` by the record length. */
  lemma {:induction false} RecQuotRem(len: nat)
    ensures RecQuot(len) == len / RecLen && RecRem(len) == len % RecLen
    decreases len
  {
    if len < RecLen {
      DivModUnique(len, RecLen, 0, len);
    } else {
      RecQuotRem(len - RecLen);
      assert len == RecQuot(len) * RecLen + RecRem(len) by {
        assert len - RecLen == RecQuot(len - RecLen) * RecLen + RecRem(len - RecLen);
        assert RecQuot(len) * RecLen == RecQuot(len - RecLen) * RecLen + RecLen;
      }
      DivModUnique(len, RecLen, RecQuot(len), RecRem(len));
    }
  }

  /** A whole number of records divides exactly. */
  lemma {:induction false} EncodeCount(es: seq<Entry>)
    ensures RecRem(|Encode(es)|) == 0 && RecQuot(|Encode(es)|) == |es|
    decreases |es|
  {
    if es != [] {
      EncodeCount(es[1..]);
    }
  }

  /** `strcmp(a, b) == 0`: the strings agree up to and including the first zero byte of `a`. */
  function CStrEq(a: seq<bv8>, b: seq<bv8>): bool
    decreases |a|
  {
    if a == [] || b == [] then false
    else if a[0] != b[0] then false
    else if a[0] == 0 then true
    else CStrEq(a[1..], b[1..])
  }

  /** A C string occupying all of `b`: its only zero byte is the last one. */
  predicate Terminated(b: seq<bv8>) {
    |b| > 0 && b[|b| - 1] == 0 && forall i | 0 <= i < |b| - 1 :: b[i] != 0
  }

  /** Against a string that fills its buffer, `strcmp` succeeds exactly on an identical buffer. */
  lemma {:induction false} CStrEqExact(a: seq<bv8>, b: seq<bv8>)
    requires |a| == |b| && Terminated(b)
    ensures CStrEq(a, b) <==> a == b
    decreases |a|
  {
    if |b| > 1 {
      assert b[0] != 0;
      assert Terminated(b[1..]);
      CStrEqExact(a[1..], b[1..]);
      if a[0] == b[0] && a[1..] == b[1..] {
        assert a == [a[0]] + a[1..] && b == [b[0]] + b[1..];
      }
    }
  }

  /** The signature fills its 11 bytes: one terminating zero at the end. */
  lemma SignatureTerminated()
    ensures Terminated(Signature)
  {
    forall i | 0 <= i < SigLen - 1
      ensures Signature[i] != 0
    {
    }
  }

  /** The signature test accepts an 11-byte read exactly when it is the signature. */
  lemma SignatureTest(bs: seq<bv8>)
    requires |bs| == SigLen
    ensures CStrEq(bs, Signature) <==> bs == Signature
  {
    SignatureTerminated();
    CStrEqExact(bs, Signature);
  }

  /** Why a cache file is refused before any record is read: the first four
      are reported as an invalid cache file, then an incorrect size, then
      insufficient memory. */
  datatype LoadError =
    | StatFailed
    | ShorterThanSignature
    | SignatureUnreadable
    | SignatureMismatch
    | SizeNotWholeRecords
    | OutOfMemory

  /** What a preload reports. */
  datatype LoadStatus =
    | NotOpened
    | Rejected(why: LoadError)
    | ShortRead(loaded: nat, expected: nat)
    | Loaded(count: nat)

  /** `unsigned int`: values are taken modulo 2^32. */
  const UIntRange: nat := 0x1_0000_0000

  /** The validation chain before any record is read: the size reported by
      `fstat` (None when it fails), the bytes the stream can deliver, and
      whether the record buffer could be allocated.  On success, the number of
      records to read, as the `unsigned int` the code stores it in. */
  function RecordCount(size: Option<nat>, data: seq<bv8>, allocOk: bool): (r: Result<nat, LoadError>)
    ensures r.Ok? ==> r.value < UIntRange
    ensures r.Ok? <==> size.Some? && size.value >= SigLen && |data| >= SigLen && data[..SigLen] == Signature
                       && RecRem(size.value - SigLen) == 0 && allocOk
  {
    if size.None? then Err(StatFailed)
    else if size.value < SigLen then Err(ShorterThanSignature)
    else if |data| < SigLen then Err(SignatureUnreadable)
    else if (SignatureTest(data[..SigLen]); !CStrEq(data[..SigLen], Signature)) then Err(SignatureMismatch)
    else if RecRem(size.value - SigLen) != 0 then Err(SizeNotWholeRecords)
    else if !allocOk then Err(OutOfMemory)
    else Ok(RecQuot(size.value - SigLen) % UIntRange)
  }

  /** A value below the modulus is its own remainder. */
  lemma SmallRemainder(x: nat, m: nat)
    requires x < m
    ensures x % m == x
  {
  }

  /** A file that passes every check holds the whole number of records its
      size gives, reduced to an `unsigned int`. */
  lemma RecordCountAccepts(size: Option<nat>, data: seq<bv8>, allocOk: bool)
    requires size.Some? && size.value >= SigLen && |data| >= SigLen && data[..SigLen] == Signature
    requires RecRem(size.value - SigLen) == 0 && allocOk
    ensures RecordCount(size, data, allocOk) == Ok(RecQuot(size.value - SigLen) % UIntRange)
  {
    SignatureTest(data[..SigLen]);
  }

  /** The table and report after `PreLoad`: unchanged on any refusal; otherwise
      the records are inserted in file order, and a short read stops after the
      last whole record with no rollback. */
  function PreLoadResult(p: Placement, table: seq<Entry>, openOk: bool, size: Option<nat>,
                         data: seq<bv8>, allocOk: bool): (seq<Entry>, LoadStatus)
  {
    if !openOk then (table, NotOpened)
    else match RecordCount(size, data, allocOk)
      case Err(why) => (table, Rejected(why))
      case Ok(n) =>
        var recs := Records(data[SigLen..]);
        if |recs| >= n then (InsertAll(p, table, recs[..n]), Loaded(n))
        else (InsertAll(p, table, recs), ShortRead(|recs|, n))
  }

  /** The result of a preload once the checks have passed, by whether the
      data holds as many whole records as the header promised. */
  lemma PreLoadUnfold(p: Placement, table: seq<Entry>, size: Option<nat>, data: seq<bv8>, allocOk: bool)
    requires RecordCount(size, data, allocOk).Ok?
    ensures |data| >= SigLen
    ensures var n := RecordCount(size, data, allocOk).value;
            var recs := Records(data[SigLen..]);
            PreLoadResult(p, table, true, size, data, allocOk)
              == if |recs| >= n then (InsertAll(p, table, recs[..n]), Loaded(n))
                 else (InsertAll(p, table, recs), ShortRead(|recs|, n))
  {
  }

  /** The whole records at the front of `bs` number `|bs| / RECLEN`. */
  lemma {:induction false} RecordsCount(bs: seq<bv8>)
    ensures |Records(bs)| == RecQuot(|bs|)
    decreases |bs|
  {
    if |bs| >= RecLen {
      RecordsCount(bs[RecLen..]);
    }
  }

  /** `len` bytes hold at least `n` whole records exactly when `len >= n * RECLEN`. */
  lemma {:induction false} RecQuotAtLeast(len: nat, n: nat)
    ensures RecQuot(len) >= n <==> len >= n * RecLen
    decreases n
  {
    if n > 0 {
      assert n * RecLen == (n - 1) * RecLen + RecLen;
      if len >= RecLen {
        RecQuotAtLeast(len - RecLen, n - 1);
      } else {
        MulAtLeast(n, RecLen);
      }
    }
  }

  /** The two outcomes of reading `n` records from a file holding the
      records `recs`, as one: the first `Min(n, |recs|)` are inserted, and
      the report is a success exactly when all `n` were there. */
  lemma ReadOutcome(p: Placement, table: seq<Entry>, recs: seq<Entry>, n: nat, r: (seq<Entry>, LoadStatus))
    requires r == if |recs| >= n then (InsertAll(p, table, recs[..n]), Loaded(n))
                  else (InsertAll(p, table, recs), ShortRead(|recs|, n))
    ensures Min(n, |recs|) <= |recs| && r.0 == InsertAll(p, table, recs[..Min(n, |recs|)])
    ensures r.1 == Loaded(n) <==> |recs| >= n
    ensures r.1 != Loaded(n) ==> r.1 == ShortRead(|recs|, n)
  {
    if |recs| < n {
      assert recs[..|recs|] == recs;
    }
  }

  /** A preload of an accepted file reports success exactly when the data
      after the signature holds the `n` whole records the size promised
      (by `RecQuotAtLeast`, at least `n * RECLEN` bytes), and
      otherwise a short read after the whole records present; either way the
      table gains, in file order, the first `Min(n, whole records present)`
      records of the file. */
  lemma PreLoadAccepted(p: Placement, table: seq<Entry>, size: Option<nat>, data: seq<bv8>, allocOk: bool)
    requires RecordCount(size, data, allocOk).Ok?
    ensures |data| >= SigLen
    ensures var n := RecordCount(size, data, allocOk).value;
            var present := RecQuot(|data| - SigLen);
            var recs := Records(data[SigLen..]);
            var r := PreLoadResult(p, table, true, size, data, allocOk);
            Min(n, present) <= |recs|
            && r.0 == InsertAll(p, table, recs[..Min(n, present)])
            && (r.1 == Loaded(n) <==> present >= n)
            && (r.1 != Loaded(n) ==> r.1 == ShortRead(present, n))
  {
    PreLoadUnfold(p, table, size, data, allocOk);
    RecordsCount(data[SigLen..]);
    ReadOutcome(p, table, Records(data[SigLen..]), RecordCount(size, data, allocOk).value,
                PreLoadResult(p, table, true, size, data, allocOk));
  }

  /** One record read: the next whole record of the remaining data is the
      next entry of the file, and the data after it holds the entries after it. */
  lemma ReadStep(recs: seq<Entry>, nr: nat, rest: seq<bv8>)
    requires nr <= |recs| && Records(rest) == recs[nr..] && |rest| >= RecLen
    ensures nr < |recs| && recs[nr] == DecodeEntry(rest[..RecLen])
    ensures Records(rest[RecLen..]) == recs[nr + 1..]
  {
    assert recs[nr..] == [recs[nr]] + recs[nr + 1..];
  }

  /** Inserting one more record extends the entries inserted so far. */
  lemma InsertStep(p: Placement, table: seq<Entry>, recs: seq<Entry>, nr: nat)
    requires nr < |recs|
    ensures InsertAll(p, table, recs[..nr + 1]) == Insert(p, InsertAll(p, table, recs[..nr]), recs[nr])
  {
    var done, next := recs[..nr], recs[nr];
    assert recs[..nr + 1] == done + [next];
    InsertAllSnoc(p, table, done, next);
  }

  /** Running out of data: no whole record is left, so every record has been inserted. */
  lemma ReadShort(recs: seq<Entry>, nr: nat, rest: seq<bv8>)
    requires nr <= |recs| && Records(rest) == recs[nr..] && |rest| < RecLen
    ensures nr == |recs| && recs[..nr] == recs
  {
  }

  /** Any refusal leaves the table as it was, and only a refusal, a failed
      open or a short read reports something other than success. */
  lemma RefusalLeavesTable(p: Placement, table: seq<Entry>, openOk: bool, size: Option<nat>,
                           data: seq<bv8>, allocOk: bool)
    ensures var (t, st) := PreLoadResult(p, table, openOk, size, data, allocOk);
            (st.NotOpened? || st.Rejected?) ==> t == table
    ensures !openOk ==> PreLoadResult(p, table, openOk, size, data, allocOk).1 == NotOpened
    ensures openOk && RecordCount(size, data, allocOk).Err? ==>
              PreLoadResult(p, table, openOk, size, data, allocOk).1 == Rejected(RecordCount(size, data, allocOk).error)
  {
  }

  /** A preload only adds entries: the old table is a prefix of the new one,
      and at most one entry is added per record read. */
  lemma PreLoadOnlyAdds(p: Placement, table: seq<Entry>, openOk: bool, size: Option<nat>,
                        data: seq<bv8>, allocOk: bool)
    ensures var r := PreLoadResult(p, table, openOk, size, data, allocOk);
            |table| <= |r.0| && r.0[..|table|] == table
            && (r.1.Loaded? ==> |r.0| <= |table| + r.1.count)
            && (r.1.ShortRead? ==> r.1.loaded < r.1.expected && |r.0| <= |table| + r.1.loaded)
  {
    var count := RecordCount(size, data, allocOk);
    if openOk && count.Ok? {
      var recs := Records(data[SigLen..]);
      if |recs| >= count.value {
        InsertAllBounds(p, table, recs[..count.value]);
      } else {
        InsertAllBounds(p, table, recs);
      }
    }
  }

  /** The file `Store` writes when every write succeeds. */
  function CacheFile(view: seq<Entry>): seq<bv8> {
    Signature + Encode(view)
  }

  /** The file written for `view` passes every check and holds `|view|` records: exactly `view`. */
  lemma CacheFileAccepted(view: seq<Entry>)
    requires |view| < UIntRange
    ensures var file := CacheFile(view);
            RecordCount(Some(|file|), file, true) == Ok(|view|)
            && |file| >= SigLen && Records(file[SigLen..]) == view
  {
    var file := CacheFile(view);
    assert file[..SigLen] == Signature;
    assert file[SigLen..] == Encode(view);
    EncodeCount(view);
    assert |file| - SigLen == |Encode(view)|;
    RecordCountAccepts(Some(|file|), file, true);
    SmallRemainder(|view|, UIntRange);
    RecordsEncode(view);
  }

  /** The file of an empty table is the bare signature; preloading it onto any
      table succeeds with no records and leaves that table as it was. */
  lemma EmptyCacheFile(p: Placement, table: seq<Entry>)
    ensures CacheFile([]) == Signature
    ensures PreLoadResult(p, table, true, Some(SigLen), Signature, true) == (table, Loaded(0))
  {
    assert CacheFile([]) == Signature + [];
    CacheFileAccepted([]);
  }

  /** Storing the entries of a table whose iteration order `view` has no entry
      found by a search for a later one, and preloading that file into an empty
      table, rebuilds the entries in that order. */
  lemma StoreThenPreLoad(p: Placement, view: seq<Entry>)
    requires Coherent(p, view)
    requires |view| < UIntRange
    ensures var file := CacheFile(view);
            PreLoadResult(p, [], true, Some(|file|), file, true) == (view, Loaded(|view|))
  {
    CacheFileAccepted(view);
    assert Records(CacheFile(view)[SigLen..])[..|view|] == view;
    InsertAllCoherent(p, view);
  }

  /** Preloading a file `Store` wrote completely into an empty cache, with a
      reflexive test: all records load, every key written is found afterwards,
      and every stored entry is one of the file's, at most one per record. */
  lemma StoreThenPreLoadFindsAll(p: Placement, view: seq<Entry>)
    requires ReflexiveTest(p)
    requires |view| < UIntRange
    ensures var file := CacheFile(view);
            var r := PreLoadResult(p, [], true, Some(|file|), file, true);
            r.1 == Loaded(|view|) && |r.0| <= |view|
            && (forall i | 0 <= i < |view| :: Find(p, r.0, view[i].key).Some?)
            && (forall e | e in r.0 :: e in view)
  {
    CacheFileAccepted(view);
    assert Records(CacheFile(view)[SigLen..])[..|view|] == view;
    InsertAllFinds(p, [], view);
    InsertAllFrom(p, [], view);
    InsertAllBounds(p, [], view);
  }

  /** With a symmetric test the order `Store` writes a valid table in does not
      matter: preloading the file into an empty cache rebuilds exactly the
      entries in that order. */
  lemma StoreThenPreLoadSymmetric(p: Placement, entries: seq<Entry>, view: seq<Entry>)
    requires ReflexiveTest(p) && SymmetricTest(p) && Coherent(p, entries)
    requires multiset(view) == multiset(entries) && |view| < UIntRange
    ensures var file := CacheFile(view);
            PreLoadResult(p, [], true, Some(|file|), file, true) == (view, Loaded(|view|))
  {
    PermutedCoherent(p, entries, view);
    StoreThenPreLoad(p, view);
  }

  /** Preloading the file written for `view` onto any table succeeds and
      inserts the entries of `view` in order. */
  lemma PreLoadOfCacheFile(p: Placement, table: seq<Entry>, view: seq<Entry>)
    requires |view| < UIntRange
    ensures var file := CacheFile(view);
            PreLoadResult(p, table, true, Some(|file|), file, true) == (InsertAll(p, table, view), Loaded(|view|))
  {
    var file := CacheFile(view);
    CacheFileAccepted(view);
    PreLoadUnfold(p, table, Some(|file|), file, true);
    assert view[..|view|] == view;
  }

  /** A tolerance test that accepts a searched 0 against a stored 1 and not
      the other way round. */
  predicate OneSidedClose(x: Double, y: Double) {
    x == y || (x == 0 && y == 1)
  }

  /** With that test and a single bucket, the table `[a, b]` (key all zeros,
      then key all ones) is coherent: a search for `b` does not accept `a`. */
  lemma OneSidedTable(pay: Payload)
    ensures var p := Placement(1, Hash, OneSidedClose);
            var a := Entry(seq(KeyLen, _ => 0), pay);
            var b := Entry(seq(KeyLen, _ => 1), pay);
            HashesKeys(p) && ReflexiveTest(p) && Coherent(p, [a, b]) && multiset([b, a]) == multiset([a, b])
  {
    var p := Placement(1, Hash, OneSidedClose);
    var a := Entry(seq(KeyLen, _ => 0), pay);
    var b := Entry(seq(KeyLen, _ => 1), pay);
    assert a.key[0] == 0 && b.key[0] == 1;
    assert !Equivalent(b.key, a.key, p.close);
  }

  /** Inserted in the order `[b, a]`, that table keeps only `b`: the search
      for `a` accepts `b`. */
  lemma OneSidedInsertLosesEntry(pay: Payload)
    ensures var p := Placement(1, Hash, OneSidedClose);
            var a := Entry(seq(KeyLen, _ => 0), pay);
            var b := Entry(seq(KeyLen, _ => 1), pay);
            InsertAll(p, [], [b, a]) == [b]
  {
    var p := Placement(1, Hash, OneSidedClose);
    var a := Entry(seq(KeyLen, _ => 0), pay);
    var b := Entry(seq(KeyLen, _ => 1), pay);
    assert Equivalent(a.key, b.key, p.close);
    assert Bucket(p, a.key) == 0 == Bucket(p, b.key);
    assert Insert(p, [], b) == [b];
    assert Find(p, [b], a.key) == Some(0);
    assert InsertAll(p, [b], [a]) == InsertAll(p, Insert(p, [b], a), []);
  }

  /** With a one-sided tolerance test (`KeyCmp`'s is one: it is relative to
      its first key) an entry can be lost across a store and preload.  Shown
      for the simple one-sided test `OneSidedClose`: the coherent table
      `[a, b]` of `OneSidedTable`, written in the order `[b, a]`, reloads as
      `[b]`. */
  lemma AsymmetricTestLosesEntry(pay: Payload)
    ensures var p := Placement(1, Hash, OneSidedClose);
            var a := Entry(seq(KeyLen, _ => 0), pay);
            var b := Entry(seq(KeyLen, _ => 1), pay);
            var file := CacheFile([b, a]);
            HashesKeys(p) && ReflexiveTest(p) && Coherent(p, [a, b]) && multiset([b, a]) == multiset([a, b])
            && PreLoadResult(p, [], true, Some(|file|), file, true) == ([b], Loaded(2))
  {
    var p := Placement(1, Hash, OneSidedClose);
    var a := Entry(seq(KeyLen, _ => 0), pay);
    var b := Entry(seq(KeyLen, _ => 1), pay);
    OneSidedTable(pay);
    OneSidedInsertLosesEntry(pay);
    PreLoadOfCacheFile(p, [], [b, a]);
  }

  /** The file a failing record write leaves behind, with part of that record
      written, is refused by `PreLoad`: its size is not whole records. */
  lemma TornRecordRefused(view: seq<Entry>, n: nat, w: nat)
    requires n < |view| && 0 < w < RecLen
    ensures var file := Signature + Encode(view[..n]) + EncodeEntry(view[n])[..w];
            RecordCount(Some(|file|), file, true) == Err(SizeNotWholeRecords)
  {
    var file := Signature + Encode(view[..n]) + EncodeEntry(view[n])[..w];
    assert file[..SigLen] == Signature;
    RecRemOfRecords(view[..n], w);
    assert |file| - SigLen == |Encode(view[..n])| + w;
    RecordCountRefusesSize(Some(|file|), file, true);
  }

  /** A file whose signature checks pass but whose remaining size is not
      whole records is refused for its size. */
  lemma RecordCountRefusesSize(size: Option<nat>, data: seq<bv8>, allocOk: bool)
    requires size.Some? && size.value >= SigLen && |data| >= SigLen && data[..SigLen] == Signature
    requires RecRem(size.value - SigLen) != 0
    ensures RecordCount(size, data, allocOk) == Err(SizeNotWholeRecords)
  {
    SignatureTest(data[..SigLen]);
  }

  /** Whole records followed by `w < RECLEN` bytes leave remainder `w`. */
  lemma {:induction false} RecRemOfRecords(es: seq<Entry>, w: nat)
    requires w < RecLen
    ensures RecRem(|Encode(es)| + w) == w
    decreases |es|
  {
    if es != [] {
      RecRemOfRecords(es[1..], w);
      assert |Encode(es)| + w == RecLen + (|Encode(es[1..])| + w);
    }
  }
}
