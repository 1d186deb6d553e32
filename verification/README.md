# Panel-pair cache and Gmsh mesh reader of libscuff

This project models two parts of libscuff, the boundary-element library of
SCUFF-EM, in Dafny and proves properties of the model.

**The panel-pair cache (`FIPPICache`).** It memoises the integral data of a
pair of triangular panels. The key is the relative geometry of the pair:
fifteen doubles, the five vertex differences taken relative to the first
vertex of the first panel. The table is an unordered map that hashes the
120 key bytes with Bob Jenkins' one-at-a-time hash and compares keys with a
per-component relative tolerance. `Store` dumps the table to a binary cache
file: an 11-byte signature `FIPPICACHE\0`, then one fixed-length record per
entry. `PreLoad` checks such a file and inserts its records one by one.

**The Gmsh reader (`RWGObject::ReadGMSHFile`).** It reads a surface mesh in
the legacy (`$NOD`/`$ELM`) or the current (`$Nodes`/`$Elements`) Gmsh
format. It scans for the nodes keyword, reads the node count and the node
lines, and maps Gmsh node numbers to vertex slots through `GMSH2HR`. It
applies the optional geometric transformation and merges coinciding
vertices. It checks the section keywords and reads the element lines: tags
are skipped in the current format, points become reference points (at most
100) and triangles become panels. Finally, when reference points exist, it
flips the panels that face the wrong way.

Modules and files:

| file | module | contents |
|---|---|---|
| `outcomes.dfy` | `Outcomes` | `Option`, `Result`, `Min` |
| `jenkins.dfy` | `Jenkins` | the hash on signed 64-bit words (`bv64`) with signed `char` bytes |
| `fingerprint.dfy` | `Fingerprint` | doubles as bit patterns, their little-endian bytes, the key, `KeyCmp` |
| `fippi_table.dfy` | `FippiTable` | the map as a sequence of entries, `find`, `insert`, its invariant |
| `fippi_file.dfy` | `FippiFile` | the cache-file format, the validation chain, what a preload yields |
| `fippi_cache.dfy` | `FippiCache` | the class `FIPPICache` with `GetQIFIPPIData`, `Store`, `PreLoad` |
| `gmsh_syntax.dfy` | `GmshSyntax` | lines and tokens, keywords, `atoi`, what each `sscanf` pattern converts |
| `gmsh_spec.dfy` | `GmshSpec` | the reader's phases as functions, and the lemmas about them |
| `gmsh_reader.dfy` | `GmshReader` | the step-by-step reader on arrays, and the class `RWGObject` |

Modelling choices:

- **Doubles and arithmetic.** A double is its 64-bit pattern. Three kinds of
  floating-point work are parameters:
  - the subtraction used for the key, and the tolerance test of `KeyCmp`;
  - the Gmsh transformation, the "vertices coincide" test (`VecDistance < 1e-6`), and the panel-normal test;
  - the routine that computes a record.
- **The map.** The unordered map is the sequence of its entries, oldest
  first. It has a fixed bucket count, and a key lands in bucket
  `hash % buckets`. A lookup stops at the most recently inserted entry in
  that bucket that the comparator accepts. The searched key is the
  comparator's first argument. Inserting a key the bucket already accepts
  does nothing.
- **The hasher.** The map's hasher is a field of `Placement`. `HashesKeys`
  ties it to `HashFunction`, and the cache's `Valid()` requires that tie.
- **System calls.** Opening, `fstat`, `fread`, `fwrite` and `malloc` enter as
  their outcomes: an "opened" flag, the size `fstat` reports, the bytes the
  stream delivers, the index of the first failing record write, how many
  bytes each failing write still left in the file, and an "allocation
  succeeded" flag.
- **The record count.** `NumRecords` is an `unsigned int`, so the count is
  reduced modulo 2^32.
- **The mesh file.** It is given as its lines, each with its text (for
  `strncmp` and `atoi`) and its whitespace-separated tokens (for `sscanf`).
- **The hit counters.** `Found` and `NotFound` are process-wide globals. They
  are the class `HitCounters`, created once and shared by every cache.
- **Fatal errors.** The reader's `RWGErrExit` calls are `Exit` outcomes.
- **Undefined behaviour.** Some inputs make the C code write or read outside
  an array. They are `Undefined` outcomes and are not hidden behind a
  precondition:
  - a negative node count;
  - a node number that is negative or equals `2*NumVertices` (the guard
    `NodeIndex>2*NumVertices` lets that value through to an out-of-bounds
    write);
  - an element's vertex number outside `GMSH2HR`, or a `VI` entry no line
    has set yet;
  - a triangle on a node that no node line named: its `GMSH2HR` entry is -1,
    and `NewRWGPanel` reads the vertex at `Vertices + 3*(-1)`
    (`UnmappedVertex`);
  - a reference point on such a node when there is at least one panel: it is
    stored as -1, and the normal pass reads `Vertices + 3*(-1)`
    (`UnmappedRefPoint`). Without panels that pass reads nothing.
- **The preload checks.** `PreLoad` refuses a file for six reasons, in this
  order: `fstat` fails (`StatFailed`); the file is shorter than the
  signature (`ShorterThanSignature`); the 11 signature bytes cannot be read
  (`SignatureUnreadable`); they differ from the signature
  (`SignatureMismatch`); the size after the signature is not a whole number
  of records (`SizeNotWholeRecords`); the record buffer cannot be allocated
  (`OutOfMemory`). The signature is compared with `strcmp`, and
  `SignatureTest` proves that this equals an exact 11-byte match.

## Model

| member | source | states |
|---|---|---|
| Jenkins.JenkinsHash | src/libs/libscuff/FIPPICache.cc:31-45 | the loop computes the one-at-a-time hash of the key bytes: `Absorb` over all bytes, then the three final mixing steps |
| Jenkins.SignExtend | src/libs/libscuff/FIPPICache.cc:37 | a signed `char` added to the `long` keeps its value as a signed number and its low byte |
| Jenkins.Sar6 | src/libs/libscuff/FIPPICache.cc:39 | `hash >> 6` on a signed `long` is an arithmetic shift: low bits are the shifted word, the top 6 bits copy the sign |
| Jenkins.Sar11 | src/libs/libscuff/FIPPICache.cc:42 | `hash >> 11` is an arithmetic shift: the top 11 bits copy the sign |
| Jenkins.AbsorbAppend | src/libs/libscuff/FIPPICache.cc:35-40 | the loop is incremental: absorbing `a + b` equals absorbing `a` and then `b` |
| Jenkins.AbsorbZeros | src/libs/libscuff/FIPPICache.cc:35-40 | any run of zero bytes keeps a zero accumulator at zero |
| Jenkins.ZeroKeyHashesToZero | src/libs/libscuff/FIPPICache.cc:31-45 | the all-zero key hashes to 0 |
| Jenkins.HighByteIsNegative | src/libs/libscuff/FIPPICache.cc:37 | a byte of 0x80 or above is added as a negative number, with all 56 upper bits set |
| Fingerprint.DoubleBytes | src/libs/libscuff/FIPPICache.cc:48 | a double's 8 bytes, read back little-endian, give the double |
| Fingerprint.DoubleBytesOf | src/libs/libscuff/FIPPICache.cc:48 | 8 bytes are the bytes of the double they encode |
| Fingerprint.Pack | src/libs/libscuff/FIPPICache.cc:48 | an array of doubles occupies 8 bytes per double |
| Fingerprint.Unpack | src/libs/libscuff/FIPPICache.cc:335 | whole doubles read from a byte string: one per 8 bytes |
| Fingerprint.UnpackPack | src/libs/libscuff/FIPPICache.cc:236 | reading the bytes of an array of doubles gives the array back |
| Fingerprint.PackUnpack | src/libs/libscuff/FIPPICache.cc:335 | every byte string of whole doubles is the image of the doubles read from it |
| Fingerprint.KeyBytes | src/libs/libscuff/FIPPICache.cc:47-49 | the hash reads exactly `KEYLEN*sizeof(double)` = 120 bytes |
| Fingerprint.KeyBytesRoundTrip | src/libs/libscuff/FIPPICache.cc:192-196 | a key and its 120-byte record image convert into each other both ways |
| Fingerprint.KeyBytesInjective | src/libs/libscuff/FIPPICache.cc:47-49 | two keys have the same bytes if and only if they are the same key |
| Fingerprint.BuildKey | src/libs/libscuff/FIPPICache.cc:126-131 | component `3v+c` of the key is `sub(V[c], OVa[0][c])` for the five vertices `OVa[1]`, `OVa[2]`, `OVb[0..2]` in that order |
| Fingerprint.SameDifferencesSameKey | src/libs/libscuff/FIPPICache.cc:126-131 | two panel pairs whose vertex differences from `OVa[0]` agree, component by component, have the same key |
| Fingerprint.BuildKeyTranslationInvariant | src/libs/libscuff/FIPPICache.cc:116-131 | translating both panels by the same vector `t` (with a given addition) leaves the key unchanged, whenever the subtraction cancels the translation: `sub(add(x, t_c), add(y, t_c)) == sub(x, y)` |
| Fingerprint.EquivalentReflexive | src/libs/libscuff/FIPPICache.cc:65-75 | with a reflexive tolerance test, every key is equivalent to itself |
| Fingerprint.KeyCmp | src/libs/libscuff/FIPPICache.cc:65-75 | the comparator returns true if and only if all 15 components pass the tolerance test |
| FippiTable.HashFunction | src/libs/libscuff/FIPPICache.cc:47-49 | `HashFunction` is the one-at-a-time hash of the key's 120 bytes |
| FippiTable.IdenticalBytesSameHash | src/libs/libscuff/FIPPICache.cc:60-63 | byte-identical keys hash the same and share a bucket |
| FippiTable.Find | src/libs/libscuff/FIPPICache.cc:139 | `find` fails if and only if no stored key is accepted; otherwise it returns an accepted entry, with no later entry accepted |
| FippiTable.Lookup | src/libs/libscuff/FIPPICache.cc:136-145 | the record returned is that of an accepted stored key; none exactly when none is accepted |
| FippiTable.Insert | src/libs/libscuff/FIPPICache.cc:159 | `insert` appends the entry when its key is absent, and is a no-op otherwise |
| FippiTable.InsertKeepsCoherent | src/libs/libscuff/FIPPICache.cc:159 | `insert` preserves the table invariant: no entry is accepted by a search for a later key |
| FippiTable.StoredKeyIsFound | src/libs/libscuff/FIPPICache.cc:139-145 | with a reflexive test, a search for a stored key always finds an entry |
| FippiTable.CoherentKeysDistinct | src/libs/libscuff/FIPPICache.cc:77-80 | in a coherent table with a reflexive test, no key is stored twice |
| FippiTable.InsertThenLookup | src/libs/libscuff/FIPPICache.cc:151-162 | after inserting an absent key, looking it up returns the inserted record |
| FippiTable.InsertExtends | src/libs/libscuff/FIPPICache.cc:159 | `insert` never removes or changes an entry: the old table is a prefix of the new one |
| FippiTable.InsertAllSnoc | src/libs/libscuff/FIPPICache.cc:326-336 | inserting `xs` and then `x` is inserting `xs + [x]` |
| FippiTable.InsertAllCoherent | src/libs/libscuff/FIPPICache.cc:326-336 | inserting a coherent sequence into an empty table rebuilds exactly that sequence |
| FippiTable.InsertAllBounds | src/libs/libscuff/FIPPICache.cc:326-336 | a run of insertions keeps the old table as a prefix and adds at most one entry per insertion |
| FippiTable.InsertKeepsFound | src/libs/libscuff/FIPPICache.cc:139-159 | a key that a search finds is still found after any `insert` |
| FippiTable.InsertAllFinds | src/libs/libscuff/FIPPICache.cc:326-336 | with a reflexive test, after a run of insertions every key found before is still found, and so is the key of every entry inserted |
| FippiTable.InsertAllFrom | src/libs/libscuff/FIPPICache.cc:326-336 | a run of insertions adds only entries of the inserted sequence |
| FippiTable.ProbesSymmetric | src/libs/libscuff/FIPPICache.cc:65-75 | with a symmetric tolerance test, whether a search for one key stops at another does not depend on which of the two is searched |
| FippiTable.CoherentEntriesOnce | src/libs/libscuff/FIPPICache.cc:77-80 | with a reflexive test, a coherent table holds each entry at most once |
| FippiTable.PermutedCoherent | src/libs/libscuff/FIPPICache.cc:229-241 | with a reflexive and symmetric test, every ordering of a coherent table's entries (any iteration order `Store` may use) is coherent |
| FippiFile.EncodeEntry | src/libs/libscuff/FIPPICache.cc:192-196 | a record image is `FIPPICF_RECLEN` bytes long |
| FippiFile.EntryRoundTrip | src/libs/libscuff/FIPPICache.cc:236-238 | an entry and its record image convert into each other both ways |
| FippiFile.EncodeSnoc | src/libs/libscuff/FIPPICache.cc:232-241 | writing one more record appends its image to the file |
| FippiFile.EncodePrefixStep | src/libs/libscuff/FIPPICache.cc:232-241 | the records of the first `n+1` entries are those of the first `n`, then entry `n` |
| FippiFile.RecordsEncode | src/libs/libscuff/FIPPICache.cc:326-335 | reading back the written records gives the entries in the order written |
| FippiFile.RecRem | src/libs/libscuff/FIPPICache.cc:291 | the remainder by the record length is below the record length |
| FippiFile.RecQuotRem | src/libs/libscuff/FIPPICache.cc:291-300 | the recursive quotient and remainder are C's `/` and `%` by `FIPPICF_RECLEN` |
| FippiFile.EncodeCount | src/libs/libscuff/FIPPICache.cc:288-300 | the records of `n` entries are a whole number of records, exactly `n` of them |
| FippiFile.CStrEqExact | src/libs/libscuff/FIPPICache.cc:285 | `strcmp` against a string that fills its buffer succeeds if and only if the buffers are identical |
| FippiFile.SignatureTerminated | src/libs/libscuff/FIPPICache.cc:185-186 | the signature's only zero byte is its last, the 11th |
| FippiFile.SignatureTest | src/libs/libscuff/FIPPICache.cc:283-286 | the `strcmp` test accepts the 11 bytes read if and only if they are the signature |
| FippiFile.RecordCount | src/libs/libscuff/FIPPICache.cc:274-306 | the checks pass if and only if `fstat` works, the file holds the signature, the rest is whole records and the buffer is allocated; the count fits an `unsigned int` |
| FippiFile.RecordCountAccepts | src/libs/libscuff/FIPPICache.cc:288-306 | a file passing every check yields `(size - SIGLEN) / RECLEN` modulo 2^32 |
| FippiFile.PreLoadAccepted | src/libs/libscuff/FIPPICache.cc:300-336 | once the checks pass with count `n`, the preload reports `Loaded(n)` exactly when the data after the signature holds `n` whole records, and otherwise `ShortRead(whole records present, n)`; either way the table gains the first `min(n, whole records present)` records, in file order |
| FippiFile.ReadOutcome | src/libs/libscuff/FIPPICache.cc:326-336 | reading `n` records from a stream holding the records `recs` inserts the first `min(n, |recs|)` and succeeds exactly when `|recs| >= n` |
| FippiFile.RecordsCount | src/libs/libscuff/FIPPICache.cc:326-335 | a stream of `len` bytes holds `len / FIPPICF_RECLEN` whole records |
| FippiFile.RecQuotAtLeast | src/libs/libscuff/FIPPICache.cc:288-300 | `len` bytes hold at least `n` whole records exactly when `len >= n * FIPPICF_RECLEN` |
| FippiFile.RecordCountRefusesSize | src/libs/libscuff/FIPPICache.cc:288-292 | a file whose signature checks pass but whose size after the signature is not whole records is refused as `SizeNotWholeRecords` |
| FippiFile.RecRemOfRecords | src/libs/libscuff/FIPPICache.cc:288-292 | whole records followed by `w < FIPPICF_RECLEN` bytes leave the remainder `w` |
| FippiFile.ReadStep | src/libs/libscuff/FIPPICache.cc:326-335 | a successful `fread` yields the next record of the file; the rest of the stream holds the records after it |
| FippiFile.InsertStep | src/libs/libscuff/FIPPICache.cc:335 | inserting record `nr` extends the table built from records `0 .. nr-1` |
| FippiFile.ReadShort | src/libs/libscuff/FIPPICache.cc:328-333 | a failed `fread` means every whole record present has already been inserted |
| FippiFile.RefusalLeavesTable | src/libs/libscuff/FIPPICache.cc:260-317 | a failed open or a refused file leaves the table unchanged, and the refusal reason is that of the first failing check |
| FippiFile.PreLoadOnlyAdds | src/libs/libscuff/FIPPICache.cc:252-345 | a preload keeps the old table as a prefix and adds at most one entry per record read; a short read loaded fewer records than expected |
| FippiFile.CacheFileAccepted | src/libs/libscuff/FIPPICache.cc:281-300 | the file `Store` writes passes every check, announces `|view|` records and holds exactly `view` |
| FippiFile.EmptyCacheFile | src/libs/libscuff/FIPPICache.cc:221 | the file of an empty table is the bare signature; preloading it loads 0 records and leaves any table unchanged |
| FippiFile.StoreThenPreLoad | src/libs/libscuff/FIPPICache.cc:198-345 | writing entries in an order where no entry is accepted by a search for a later one (`Coherent`), then preloading that file into an empty cache, succeeds with all records and rebuilds exactly those entries in that order |
| FippiFile.PreLoadOfCacheFile | src/libs/libscuff/FIPPICache.cc:198-345 | preloading the file written for `view` onto any table succeeds with `|view|` records and inserts the entries of `view` in order |
| FippiFile.StoreThenPreLoadFindsAll | src/libs/libscuff/FIPPICache.cc:198-345 | with a reflexive test and any write order: the preload succeeds with `|view|` records, every key written is found afterwards, and the table holds at most `|view|` entries, all from the file |
| FippiFile.StoreThenPreLoadSymmetric | src/libs/libscuff/FIPPICache.cc:198-345 | with a reflexive and symmetric test, a coherent table written in any iteration order (a permutation of its entries) is rebuilt exactly in that order |
| FippiFile.OneSidedTable | src/libs/libscuff/FIPPICache.cc:65-80 | under a one-sided tolerance test with one bucket, the table `[a, b]` (keys all 0, all 1) is coherent, hashed with `HashFunction`, and its test is reflexive |
| FippiFile.OneSidedInsertLosesEntry | src/libs/libscuff/FIPPICache.cc:65-75 | under that test, inserting `b` and then `a` keeps only `b`, since the search for `a` accepts `b` |
| FippiFile.AsymmetricTestLosesEntry | src/libs/libscuff/FIPPICache.cc:65-75 | what any one-sided tolerance test can do: with a test that accepts a stored 1 for a searched 0 but not the reverse, storing the coherent table `[a, b]` in the order `[b, a]` and preloading it reports 2 records loaded but rebuilds only `[b]` |
| FippiFile.TornRecordRefused | src/libs/libscuff/FIPPICache.cc:236-241 | a file whose last record write stopped after `0 < w < FIPPICF_RECLEN` bytes is refused for its size, so nothing of it is loaded |
| FippiCache.CheckFile | src/libs/libscuff/FIPPICache.cc:272-306 | the sequence of checks yields exactly `RecordCount`: the first failing check, or the record count |
| FippiCache.HitCounters.constructor | src/libs/libscuff/FIPPICache.cc:25-26 | the `Found` and `NotFound` counters start at zero with the program |
| FippiCache.FIPPICache.constructor | src/libs/libscuff/FIPPICache.cc:85-93 | a new cache has an empty table and `DoNotCompute` 0, shares the given counters without touching them, and satisfies the table invariant |
| FippiCache.FIPPICache.GetQIFIPPIData | src/libs/libscuff/FIPPICache.cc:113-163 | on a hit: the stored record, the shared `Found` incremented, table unchanged. On a miss: the computed record (or an unfilled one when `DoNotCompute` is set) is appended and the shared `NotFound` incremented. Afterwards the key looks up to the returned record, and the invariant is kept |
| FippiCache.FIPPICache.Store | src/libs/libscuff/FIPPICache.cc:198-250 | no file if the open fails; otherwise the signature bytes that were written, the records in iteration order up to the first failing write, then the part of that record the failing write left; the count is the number of whole records written |
| FippiCache.FIPPICache.PreLoad | src/libs/libscuff/FIPPICache.cc:252-345 | the table and the status are exactly `PreLoadResult`, and the table invariant is kept |
| GmshSyntax.SkipSpace | src/libs/libscuff/ReadGMSHFile.cc:77 | `atoi` skips a prefix of white space and stops at the first non-space character |
| GmshSyntax.DigitRunStops | src/libs/libscuff/ReadGMSHFile.cc:77 | `atoi`'s digit run ends at the first non-digit |
| GmshSyntax.AtoiOfKeyword | src/libs/libscuff/ReadGMSHFile.cc:77-78 | a line starting with `$` reads as the count 0, which is refused |
| GmshSyntax.ScanInts | src/libs/libscuff/ReadGMSHFile.cc:182-183 | a run of `%i` directives converts at most as many integers as it has directives, all from the line |
| GmshSyntax.ScanIntsSpec | src/libs/libscuff/ReadGMSHFile.cc:182-184 | the conversions are the leading integer tokens, and they stop only at the directive limit, the end of the line or a non-integer token |
| GmshSyntax.ScanIntsOfInts | src/libs/libscuff/ReadGMSHFile.cc:197 | `n` integer tokens in a row are all converted by `n` directives |
| GmshSyntax.NodeFields | src/libs/libscuff/ReadGMSHFile.cc:99-101 | a node line is accepted if and only if it converts four fields (an integer, then three numbers), and the node number is the first |
| GmshSyntax.LegacyElement | src/libs/libscuff/ReadGMSHFile.cc:182-185 | a legacy element line is accepted if and only if at least five integers convert; at most three vertex numbers follow them |
| GmshSyntax.AfterTags | src/libs/libscuff/ReadGMSHFile.cc:189-196 | the vertex numbers start after the three header fields and the skipped tags, within the line |
| GmshSyntax.NewElement | src/libs/libscuff/ReadGMSHFile.cc:189-201 | a current-format element line yields at most three vertex numbers |
| GmshSyntax.NewElementShape | src/libs/libscuff/ReadGMSHFile.cc:189-201 | an accepted line had three header integers and its type is the second; a triangle has 3 vertices and a point 1; any other type is accepted once the header converts |
| GmshSyntax.LegacyTriangleLine | src/libs/libscuff/ReadGMSHFile.cc:180-186 | a legacy triangle line yields its three vertex numbers after the five header integers |
| GmshSyntax.NewTriangleSkipsTags | src/libs/libscuff/ReadGMSHFile.cc:189-197 | however many tags a current-format triangle line has, its vertices are the three integers after them |
| GmshSyntax.UpdateVI | src/libs/libscuff/ReadGMSHFile.cc:183 | `VI` keeps three entries |
| GmshSpec.FindNodeKeyword | src/libs/libscuff/ReadGMSHFile.cc:65-76 | the scan either fails for lack of a keyword or stops after a line of the file |
| GmshSpec.FindNodeKeywordSpec | src/libs/libscuff/ReadGMSHFile.cc:65-76 | the scan fails if and only if no line opens the nodes section; otherwise it stops at the first line that does, and that line gives the format |
| GmshSpec.NodesLineSelectsNew | src/libs/libscuff/ReadGMSHFile.cc:72-75 | a `$Nodes` line selects the current format, not the legacy `$NOD` |
| GmshSpec.Unmapped | src/libs/libscuff/ReadGMSHFile.cc:92-94 | `GMSH2HR` is allocated with `2*NumVertices` slots, all -1 |
| GmshSpec.ReadNodes | src/libs/libscuff/ReadGMSHFile.cc:95-106 | a successful read keeps `2*NumVertices` slots and yields one vertex per node line |
| GmshSpec.NodesMap | src/libs/libscuff/ReadGMSHFile.cc:95-106 | afterwards each slot of `GMSH2HR` holds the position of the last node line naming that node (or -1), and vertex `k` is the point converted from node line `k` |
| GmshSpec.NodesAccepted | src/libs/libscuff/ReadGMSHFile.cc:101-105 | on success every node line named a node in `0 .. 2*NumVertices-1` |
| GmshSpec.NodesInRange | src/libs/libscuff/ReadGMSHFile.cc:95-106 | each node line stores a vertex position below `NumVertices`, so every `GMSH2HR` entry stays a vertex or -1 |
| GmshSpec.Remap | src/libs/libscuff/ReadGMSHFile.cc:123-125 | remapping keeps the size of `GMSH2HR` |
| GmshSpec.MergeRow | src/libs/libscuff/ReadGMSHFile.cc:119-129 | one row of the merge keeps the size of `GMSH2HR` and never decreases the count |
| GmshSpec.Merge | src/libs/libscuff/ReadGMSHFile.cc:117-129 | the merge keeps the size of `GMSH2HR` and never decreases the count |
| GmshSpec.RemapLowers | src/libs/libscuff/ReadGMSHFile.cc:122-125 | rewriting `j` to `i < j` keeps entries in range and only lowers set entries |
| GmshSpec.MergeRowLowers | src/libs/libscuff/ReadGMSHFile.cc:119-129 | a row of the merge keeps entries in range and only lowers them |
| GmshSpec.MergeLowers | src/libs/libscuff/ReadGMSHFile.cc:117-129 | the merge keeps every entry a vertex or -1, only moves references to lower vertices and leaves unset slots unset |
| GmshSpec.MergeNothingNear | src/libs/libscuff/ReadGMSHFile.cc:117-129 | with no coinciding pair, `GMSH2HR` and the redundant count are unchanged |
| GmshSpec.RowNothingNear | src/libs/libscuff/ReadGMSHFile.cc:119-129 | with no coinciding pair, a row changes nothing |
| GmshSpec.ThreeCoincident | src/libs/libscuff/ReadGMSHFile.cc:117-129 | three mutually coinciding vertices count as 3 redundant pairs, and every reference ends at vertex 0 |
| GmshSpec.MergeRowCount | src/libs/libscuff/ReadGMSHFile.cc:119-129 | row `i` adds one to `NumRedundantVertices` per later vertex coinciding with vertex `i`, whatever `GMSH2HR` holds |
| GmshSpec.MergeCount | src/libs/libscuff/ReadGMSHFile.cc:117-129 | `NumRedundantVertices` ends up as the number of coinciding pairs `a < b`, not the number of redundant vertices |
| GmshSpec.MixedKeywordsRefused | src/libs/libscuff/ReadGMSHFile.cc:140-147 | a legacy node section closed by `$EndNodes` is refused at that line |
| GmshSpec.ElementLines | src/libs/libscuff/ReadGMSHFile.cc:174-178 | there is one element line per declared element |
| GmshSpec.ElementLinesAt | src/libs/libscuff/ReadGMSHFile.cc:174-178 | element line `i` is line `pos + i` of the file |
| GmshSpec.DispatchBookkeeping | src/libs/libscuff/ReadGMSHFile.cc:205-231 | the switch adds at most one panel, indexed by its position, and never exceeds `MAXREFPTS` reference points |
| GmshSpec.ElementsBookkeeping | src/libs/libscuff/ReadGMSHFile.cc:172-232 | after the element lines, panel indices are positions, there are at most as many panels as lines, and at most `MAXREFPTS` reference points |
| GmshSpec.OneRefPointTooMany | src/libs/libscuff/ReadGMSHFile.cc:210-214 | a point element after `MAXREFPTS` reference points is an error on that line |
| GmshSpec.Swap02 | src/libs/libscuff/ReadGMSHFile.cc:269 | the flip exchanges vertices 0 and 2 and keeps vertex 1 and the index |
| GmshSpec.Swap02Involution | src/libs/libscuff/ReadGMSHFile.cc:262-270 | flipping twice restores the panel, and a flip keeps the panel's vertex multiset |
| GmshSpec.FlipAll | src/libs/libscuff/ReadGMSHFile.cc:238-274 | the normal pass keeps the number of panels; each panel is either kept or has vertices 0 and 2 exchanged, keeping its index and vertex 1; with no reference points nothing changes |
| GmshSpec.Transform | src/libs/libscuff/ReadGMSHFile.cc:111 | the transformation keeps the number of vertices |
| GmshSpec.ReadNodeSection | src/libs/libscuff/ReadGMSHFile.cc:65-106 | a read nodes section has `NumVertices` vertices and `2*NumVertices` slots |
| GmshSpec.ElementSectionBookkeeping | src/libs/libscuff/ReadGMSHFile.cc:172-232 | a read element section has well-indexed panels, no more of them than the element count, and at most `MAXREFPTS` reference points |
| GmshSpec.ReadMeshBookkeeping | src/libs/libscuff/ReadGMSHFile.cc:172-274 | a mesh that was read has well-indexed panels, at most one per element line, and at most `MAXREFPTS` reference points |
| GmshSpec.NodeSectionLayout | src/libs/libscuff/ReadGMSHFile.cc:65-79 | a read nodes section starts at the first keyword line, which gives the format, and the next line's `atoi` is the positive count |
| GmshSpec.ReadMeshLayout | src/libs/libscuff/ReadGMSHFile.cc:65-160 | a mesh that was read comes from a file laid out as its format requires: keyword, count, node lines, end-of-nodes keyword, elements keyword |
| GmshSpec.NodeSectionVertices | src/libs/libscuff/ReadGMSHFile.cc:65-106 | a nodes section that was read holds, as vertex `k`, the point on the `k`-th line after the count line |
| GmshSpec.NodeSectionInRange | src/libs/libscuff/ReadGMSHFile.cc:65-106 | after the nodes section every `GMSH2HR` entry is a vertex or -1 |
| GmshSpec.DispatchOnVertices | src/libs/libscuff/ReadGMSHFile.cc:205-231 | a triangle the switch accepts is on three vertices; a point adds a vertex or -1 |
| GmshSpec.ElementsOnVertices | src/libs/libscuff/ReadGMSHFile.cc:172-232 | after the element lines every panel is on three vertices and every reference point is a vertex or -1 |
| GmshSpec.ElementSectionOnVertices | src/libs/libscuff/ReadGMSHFile.cc:136-232 | the same for the whole element section, read against a `GMSH2HR` whose entries are vertices or -1 |
| GmshSpec.FlipAllOnVertices | src/libs/libscuff/ReadGMSHFile.cc:262-270 | flipping keeps every panel on the same vertices |
| GmshSpec.AssembledOnVertices | src/libs/libscuff/ReadGMSHFile.cc:238-274 | when there are panels and no reference point is -1, every reference point is a vertex, and the normal pass keeps every panel on its vertices |
| GmshSpec.ReadMeshOnVertices | src/libs/libscuff/ReadGMSHFile.cc:42-279 | every panel of a mesh that was read is on three of its vertices; every reference point is a vertex, or -1 only when there is no panel |
| GmshReader.ScanNodeKeyword | src/libs/libscuff/ReadGMSHFile.cc:65-76 | the scan loop computes `FindNodeKeyword` |
| GmshReader.ReadNodeLines | src/libs/libscuff/ReadGMSHFile.cc:95-106 | the node loop fills `GMSH2HR` in place and yields the vertices, or fails, exactly as `ReadNodes` describes |
| GmshReader.LoadNodeSection | src/libs/libscuff/ReadGMSHFile.cc:65-106 | the keyword scan, the count, the allocation and the node loop compute `ReadNodeSection`, with `GMSH2HR` in a fresh array |
| GmshReader.RemapReferences | src/libs/libscuff/ReadGMSHFile.cc:123-125 | every entry equal to `j` becomes `i` in place, and nothing else changes |
| GmshReader.MergeRedundant | src/libs/libscuff/ReadGMSHFile.cc:117-129 | the double loop over pairs leaves `GMSH2HR` and the redundant count as `Merge` describes |
| GmshReader.CheckHeaders | src/libs/libscuff/ReadGMSHFile.cc:136-167 | the keyword and count checks compute `Headers`, line numbers in errors included |
| GmshReader.SwitchElement | src/libs/libscuff/ReadGMSHFile.cc:205-231 | the switch writes the next panel or reference-point slot exactly as `Dispatch` describes |
| GmshReader.NextElement | src/libs/libscuff/ReadGMSHFile.cc:174-231 | one element line, read, parsed and switched, advances `ReadElements` by one line or ends it with its outcome |
| GmshReader.ReadElementLines | src/libs/libscuff/ReadGMSHFile.cc:172-232 | the element loop computes `ReadElements`, with the panels in a fresh table of `NumElements` slots |
| GmshReader.LoadElementSection | src/libs/libscuff/ReadGMSHFile.cc:136-232 | the keyword checks and the element loop compute `ReadElementSection` |
| GmshReader.FlipNormals | src/libs/libscuff/ReadGMSHFile.cc:238-274 | the panels in use become `FlipAll` of the old ones in place; the slots after them are unchanged |
| GmshReader.LoadMesh | src/libs/libscuff/ReadGMSHFile.cc:42-279 | the phases in order compute `ReadMesh`, with the panels in a fresh array |
| GmshReader.RWGObject.ReadGMSHFile | src/libs/libscuff/ReadGMSHFile.cc:42-279 | the outcome is `ReadMesh`; on success the object holds the vertices, the redundant count and the panel table, with `NumPanels` and `NumRefPts` set; on failure it is unchanged |

## Left out

- Locking: the read/write lock of `FIPPICache` is not modelled. Each operation is one atomic step, and concurrent callers are not modelled.
- Real file and stream I/O: each system call's outcome is an input. A short `fread` is data that ends mid-record. `malloc` of a key copy or a record is assumed to succeed in `GetQIFIPPIData`, as the code assumes.
- Memory layout: `FIPPICF_RECLEN` is the key bytes plus `sizeof(QIFIPPIData)` (an abstract `PayloadLen`). Struct padding is not modelled, and bytes are little-endian.
- `ComputeQIFIPPIData`: a given function. The record `malloc` returns when `DoNotCompute` is set is an input (`scratch`).
- Floating-point arithmetic: `VecSub`, `fabs` and the `1e-8` tolerance of `KeyCmp` are given functions. The cache lemmas that need it assume the test is reflexive; the C test is reflexive for every bit pattern.
- Bucket order: the map's bucket count is fixed and rehashing is not modelled. Where a lookup stops depends only on the bucket and on insertion order.
- `Store`'s iteration order: given as the input `view`, a permutation of the entries (the map's order is implementation-defined).
- FippiCache.FIPPICache.Store: the file holds what the `fwrite` calls accepted; a failure of the final flush in `fclose` is not modelled.
- FippiFile.StoreThenPreLoad: the exact rebuild needs a write order in which no entry is accepted by a search for a later one. `KeyCmp`'s test is relative to its first key, so it is one-sided: two components whose difference `d` satisfies `1e-8*|K2| < d <= 1e-8*|K1|` pass in one order and fail in the other. With a one-sided test a coherent table written in another order can lose entries on reload; `AsymmetricTestLosesEntry` shows this for a simple one-sided test, not for `KeyCmp`'s own. For any order, `StoreThenPreLoadFindsAll` gives the weaker guarantee that every key written is found. The bucket count is the same when writing and reading; rehashing is not modelled.
- FippiCache.FIPPICache.Store: its `int NumRecords` is unbounded here. Its overflow after 2^31-1 records is not modelled.
- FippiCache.FIPPICache.PreLoad: the loop counter `int nr` is unbounded here. It is compared against the `unsigned` `NumRecords` and would overflow after 2^31-1 records; this is not modelled, although the `unsigned` wrap of `NumRecords` itself is.
- FippiCache.HitCounters: `Found` and `NotFound` are unbounded here. The signed `int` overflow after 2^31-1 lookups is not modelled.
- FippiCache.FIPPICache.PreLoad: where the preloaded records live (the staging buffer the map points into) is not modelled; the inserted payloads are the record bytes.
- The warning and log texts (`fprintf`, `Log`), including the record number in the short-read warning: not modelled. `ShortRead` carries the number of records read and handed to `insert`; an insert whose key a search already accepts stores nothing.
- The destructor and the global wrappers (`GlobalFIPPICache`, `PreloadGlobalFIPPICache`, `StoreGlobalFIPPICache`) only forward to the class and are not modelled.
- `ApplyGTransformation`: a given function on vertices. The reader's `VecDistance(...) < 1e-6` test is a given predicate `near`.
- `NewRWGPanel`: only the vertex slots and `Index` of a panel are modelled. The centroid, normal, area and radius it computes are floating-point geometry.
- The normal-orientation test: the nearest-reference-point search and the displaced-centroid comparison are one given predicate `flips(panel, refs)`. The flip is modelled as the exchange of `VI[0]` and `VI[2]`; the sign change of `ZHat` is not modelled.
- `fgets` with a 100-byte buffer: a line longer than 99 characters is split into several reads. Here each input line is one read.
- `sscanf`: it works on tokens. `%i` reads only decimal integers (no hexadecimal or octal prefixes). A token that is not an integer stops the conversions. Tag skipping advances over `min(nTags, tokens left)` tokens; the stale `%n` value the C loop reuses after a failed tag conversion is not modelled.
- GmshSyntax.NewElement: its own contract states only the vertex bound. The acceptance conditions are stated in `NewElementShape` and `NewTriangleSkipsTags`.
- Integer widths in the reader: `int` counters and `2*NumVertices` are unbounded here. Overflow on files with more than 2^30 nodes is not modelled.
- The error exit: `RWGErrExit` terminates the program. The model returns the failure and leaves the object as it was; the `FileName` and `LineNum` in messages appear only as line numbers in the failure value.
- `Vertices`: a `seq` field of the object rather than a `double` array.
- `fclose` and `free` are not modelled.
