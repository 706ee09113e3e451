# PMTiles reader core in Dafny

A model of the integer core of the PMTiles JavaScript reader, with proofs about it. It covers:

- **Tile identifiers of the version 3 format.**
  - `zxyToTileId` and `tileIdToZxy` are modelled as imperative methods.
  - Each method is proved equal to a recursive definition: the count of tiles on the lower zoom levels, plus the Hilbert-curve rank inside the level.
  - Both round trips are proved, along with the error cases.
- **`readVarint`.**
  - A class `BufferPosition` with a cursor that advances in place.
  - Proved against a definition of unsigned LEB128 limited to ten bytes.
  - Proved to decode every value a writer encodes.
- **`findTile`.**
  - A binary search over directory entries.
  - Proved against a specification: the last entry at or below the id, if it is a leaf directory or its run reaches the id.
- **`getUint64`.**
  - A little-endian eight-byte read, with its round trip.
- **The sequential bookkeeping of `SharedPromiseCache`.**
  - A class whose `cache` map and use `counter` its methods update: `getHeader`, `getDirectory`, `invalidate`, `prune`.
  - Directory keys have the form source key | etag | offset | length. Two sources never share a key.
  - Eviction removes least recently used entries first.
  - Etag checks: a stale directory read is rejected. A soft reset drops the etag when the source's etag churns.
- **The legacy version 2 directory codec.**
  - `createDirectory` sorts an array of entries in place, then fills a byte array with 17-byte records.
  - `getUint24`, `getUint48`, `parseEntry`, `queryTile`, `queryLeafdir` and `deriveLeaf` read those records back.
  - Proved:
    - the records round-trip;
    - the written directory is sorted;
    - the output does not depend on input order;
    - a lookup finds exactly the entry written under its key.

The implementation files `js/src/index.ts` and `js/src/v2.ts` are not part of this model. The behaviour modelled is what the tests in `js/test/v3.test.ts` and `js/test/v2.test.ts` assert of them, read together with the format's design. Each concrete test becomes a lemma or method whose contract states the values the test checks. Where a test uses fixed keys or etags, the scenario is proved for all keys and etags that meet the test's conditions.

Files:

| file | contents |
|---|---|
| `wrappers.dfy` | `Option` and `Result` |
| `arith.dfy` | powers of two and of 256, division facts |
| `bytes.dfy` | little-endian reads and writes, `getUint64` |
| `tile_id.dfy` | tile identifiers and the Hilbert curve |
| `varint.dfy` | `readVarint` and its cursor |
| `directory.dfy` | `findTile` |
| `cache.dfy` | `SharedPromiseCache` |
| `legacy_v2.dfy` | the version 2 directory codec |

## Model

| member | source | states |
|---|---|---|
| TileId.TileIdOf | js/test/v3.test.ts:36-43 | The identifier of (z, x, y) exists exactly for valid tiles (z < 27, x and y below 2^z). Zoom 27 and above is the zoom error. A valid tile's identifier lies in its level's range [ZoomBase(z), ZoomBase(z) + 4^z). |
| TileId.ZxyOf | js/test/v3.test.ts:45-52 | An identifier names a tile exactly when it is below the limit (4^27 - 1) / 3, and the tile it names is valid. |
| TileId.ZxyToTileId | js/test/v3.test.ts:36-43 | The top-down loop of zxyToTileId returns what TileIdOf defines, error cases included. |
| TileId.TileIdToZxy | js/test/v3.test.ts:45-52 | The zoom scan of tileIdToZxy, followed by idOnLevel, returns what ZxyOf defines, error included. |
| TileId.IdOnLevel | js/test/v3.test.ts:45-52 | The bottom-up loop that rebuilds a tile from its rank on a level returns the Hilbert curve's point at that rank. |
| TileId.TileRoundTrip | js/test/v3.test.ts:54-79 | For every valid tile, tileIdToZxy(zxyToTileId(z, x, y)) returns (z, x, y). |
| TileId.IdRoundTrip | js/test/v3.test.ts:54-79 | For every identifier below the limit, the identifier of its tile is the identifier itself. |
| TileId.UnrankRank | js/test/v3.test.ts:54-65 | Unranking inverts ranking along the Hilbert curve of every order. |
| TileId.RankUnrank | js/test/v3.test.ts:54-65 | Ranking inverts unranking along the Hilbert curve of every order. |
| TileId.HilbertRank | js/test/v3.test.ts:38-41 | A tile's rank on a level of side 2^k lies below 4^k. |
| TileId.HilbertUnrank | js/test/v3.test.ts:45-50 | The point of a rank below 4^k lies on the level of side 2^k. |
| TileId.ZoomBaseClosedForm | js/test/v3.test.ts:36-52 | The first identifier of level z is (4^z - 1) / 3. |
| TileId.TilesIsSquare | js/test/v3.test.ts:56-57 | A level holds (1 << z) * (1 << z) = 4^z tiles. |
| TileId.ZoomBaseValues | js/test/v3.test.ts:37-42 | Levels 0, 1 and 2 start at identifiers 0, 1 and 5. |
| TileId.LevelOneRank | js/test/v3.test.ts:38-41 | On zoom 1 a tile's rank is its quadrant position: (0,0), (0,1), (1,1), (1,0) in that order. |
| TileId.LevelOneIdentifiers | js/test/v3.test.ts:38-50 | Zoom 1 tiles take identifiers 1 to 4 in Hilbert order, in both directions. |
| TileId.OriginRank | js/test/v3.test.ts:67-71 | The top-left tile is first on the curve of every order. |
| TileId.FirstOfLevel | js/test/v3.test.ts:67-71 | The top-left tile of each zoom level up to 26 carries the level's first identifier. |
| TileId.FirstIdOfLevel | js/test/v3.test.ts:67-71 | The first identifier of each zoom level up to 26 names the level's top-left tile. |
| TileId.ZoomOrder | js/test/v3.test.ts:36-52 | Identifiers of a lower zoom level sort before those of a higher one. |
| TileId.ZoomUnique | js/test/v3.test.ts:45-52 | An identifier lies in the range of exactly one zoom level. |
| TileId.IdLimitValue | js/test/v3.test.ts:82-84 | The identifier limit is 6004799503160661, which is below 2^53 - 1. |
| TileId.MaxSafeIntegerRejected | js/test/v3.test.ts:82-84 | tileIdToZxy(Number.MAX_SAFE_INTEGER) is an error. |
| TileId.InvalidTilesRejected | js/test/v3.test.ts:86-92 | zxyToTileId(27, 0, 0) is the zoom error. zxyToTileId(0, 1, 1) is the out-of-bounds error. |
| TileId.RotateInvolution | js/test/v3.test.ts:54-65 | The quadrant rotation undoes itself. |
| Varint.BufferPosition.ReadVarint | js/test/v3.test.ts:20-33 | readVarint returns the varint defined at the old cursor and moves the cursor just past it. With no terminating byte among the first ten, it fails and the cursor has moved ten bytes. |
| Varint.VarintRoundTrip | js/test/v3.test.ts:20-33 | Every value below 2^64, encoded anywhere in a buffer, decodes to itself. The position after it is the end of its encoding. |
| Varint.VarintBelow2To64 | js/test/v3.test.ts:20-33 | Whatever the bytes, a decoded value is below 2^64 and uses between one and ten bytes. |
| Varint.UnterminatedRejected | js/test/v3.test.ts:20-33 | A varint cut short by the end of the buffer, or running past ten bytes, is rejected. |
| Varint.SmallVarints | js/test/v3.test.ts:20-28 | The test buffer holds 0, 1, 127 and 624485, ending at positions 1, 2, 3 and 6. |
| Varint.ReadTestBuffer | js/test/v3.test.ts:20-28 | Four successive reads from one cursor return 0, 1, 127 and 624485, and leave the cursor at 1, 2, 3 and 6. |
| Varint.MaxSafeVarint | js/test/v3.test.ts:29-33 | Seven 0xff bytes then 0x0f decode to 2^53 - 1 in eight bytes. |
| Directory.FindTile | js/test/v3.test.ts:95-150 | The binary search returns an entry exactly when the specification finds one, and then the same entry: the last entry at or below id, if it is a leaf directory or its run covers id. |
| Directory.LastAtMost | js/test/v3.test.ts:110-141 | The index returned holds the last entry whose tile id is at most id. With no index, every entry is above id. |
| Directory.ExactMatch | js/test/v3.test.ts:100-108 | An entry whose tile id equals id is the one returned. |
| Directory.FoundCovers | js/test/v3.test.ts:110-150 | A returned entry is in the directory and starts at or before id. It is a leaf directory, or id < tileId + runLength. |
| Directory.FoundIsPredecessor | js/test/v3.test.ts:110-141 | No entry at or below id has a larger tile id than the returned one. |
| Directory.NotFound | js/test/v3.test.ts:95-108 | Nothing is returned exactly when every entry lies above id, or the last entry below id has a run that stops short of id. |
| Directory.EmptyDirectory | js/test/v3.test.ts:95-98 | An empty directory answers null. |
| Directory.SingleEntry | js/test/v3.test.ts:100-108 | A single run-length-1 entry at 100 answers 100 and not 101. |
| Directory.RunOfTwo | js/test/v3.test.ts:110-117 | Tile 4 is answered by the entry whose run is [3, 5). |
| Directory.RunsOfSeveralEntries | js/test/v3.test.ts:119-141 | Tiles 101, 151 and 51 are answered by the entries whose runs cover them. |
| Directory.LeafDirectory | js/test/v3.test.ts:143-150 | A run-length-0 entry at 100 answers 150. |
| Bytes.GetUint64 | js/test/v3.test.ts:212-220 | getUint64 is the little-endian value of the eight bytes at pos, below 2^64. |
| Bytes.GetUint64RoundTrip | js/test/v3.test.ts:212-220 | A value below 2^64, stored little-endian, reads back unchanged in the model's exact arithmetic. |
| Bytes.GetUint64Examples | js/test/v3.test.ts:212-220 | 0, 1 and 2^53 - 1 read back as stored. |
| Bytes.LEOfEncode | js/test/v3.test.ts:212-220 | Writing width bytes and reading them back gives the value reduced to that width. |
| Bytes.EncodeOfLE | js/test/v3.test.ts:212-220 | Reading bytes and writing them back at the same width reproduces them. |
| Cache.DirectoryKey | js/test/v3.test.ts:279-293 | A directory key contains the separator bar, which no header key (a source key) contains. |
| Cache.DirectoryKeyInjective | js/test/v3.test.ts:279-293 | Equal directory keys have the same source key, etag text, offset and length. |
| Cache.DistinctSourcesDistinctKeys | js/test/v3.test.ts:279-293 | Two sources with different keys never share a directory key. |
| Cache.HeaderKeyIsNotDirectoryKey | js/test/v3.test.ts:279-293 | A header key is never a directory key. |
| Cache.DecimalInjective | js/test/v3.test.ts:279-293 | Offsets and lengths printed in decimal are distinct when the numbers are distinct. |
| Cache.ReadHeader | js/test/v3.test.ts:295-354 | A header read fails exactly when the source's header bytes do not parse. The header keeps the source's etag when no etag is expected or the expected one matches. It carries no etag when an expected etag differs from the source's. Its root directory offset and length are the source's root location. |
| Cache.FetchDirectory | js/test/v3.test.ts:305-325 | A fetched directory is the source's non-empty entries at (offset, length). The fetch is an etag mismatch exactly when the header's etag is set and differs from the source's. It succeeds exactly when the directory is present and non-empty and no set header etag differs from the source's. |
| Cache.SharedPromiseCache.constructor | js/test/v3.test.ts:252-257 | A new cache is empty, keeps its budget and prefetch flag, and starts its counter at 1. |
| Cache.SharedPromiseCache.Default | js/test/v3.test.ts:279-293 | The default cache has budget 100 and prefetch on. |
| Cache.SharedPromiseCache.OldestKey | js/test/v3.test.ts:356-366 | The key found holds an entry used no later than any other. |
| Cache.SharedPromiseCache.Prune | js/test/v3.test.ts:356-366 | prune leaves a cache within budget unchanged. Otherwise exactly max entries are left, each unchanged, and every evicted entry was used no later than every kept one. |
| Cache.SharedPromiseCache.GetHeader | js/test/v3.test.ts:252-260 | A hit returns the cached header and restamps only that entry. A miss returns the header read and stores it. With prefetch, the root directory is stored at the next stamp. Then the cache is pruned. A failed read leaves the map unchanged. |
| Cache.SharedPromiseCache.LoadHeader | js/test/v3.test.ts:252-260 | The miss path of getHeader: the same contract for a key not yet cached. |
| Cache.SharedPromiseCache.StoreHeader | js/test/v3.test.ts:256-260 | The cache after storing a header (and a seeded root) and pruning is a pruning of the map with both stored. Stamps stay positive and below the counter. |
| Cache.SharedPromiseCache.Seed | js/test/v3.test.ts:256-260 | The header is stored under the source key at its stamp. With prefetch, the root directory is stored under its directory key at the next stamp. |
| Cache.SharedPromiseCache.GetDirectory | js/test/v3.test.ts:262-277 | A hit under (source, etag, offset, length) returns the cached entries and restamps only that entry. A miss returns the fetch result. A failure, the etag mismatch included, leaves the map unchanged. A success stores the entries and prunes. |
| Cache.SharedPromiseCache.Invalidate | js/test/v3.test.ts:316-317 | invalidate drops the source's header entry and reads the header again, expecting the current etag. The cache then holds a pruning of the re-read state. |
| Cache.StampedAfterTouch | js/test/v3.test.ts:274-276 | Restamping an entry keeps every stamp positive and below the counter. |
| Cache.StampedAfterRead | js/test/v3.test.ts:274-276 | A header read keeps every stamp positive and below the counter. |
| Cache.StampedAfterPrune | js/test/v3.test.ts:274-276 | Pruning keeps every stamp positive and below the counter. |
| Cache.KeepsNewest | js/test/v3.test.ts:356-366 | Any pruning of stamps 0, 1 and 2 to budget 2 keeps exactly keys "1" and "2". |
| Cache.PruneKeepsNewest | js/test/v3.test.ts:356-366 | Pruning a cache of budget 2 holding stamps 0, 1 and 2 keeps "1" and "2" and evicts "0". |
| Cache.HeaderOnly | js/test/v3.test.ts:252-254 | Without prefetch, a header read stores one entry. |
| Cache.PrefetchSeedsRoot | js/test/v3.test.ts:246-277 | With prefetch, a header read stores two entries. The root directory then reads back as the single entry (0, 0, 69, 1). The final map is exactly the header at stamp 1 and the root at stamp 3, so every stamp is positive. |
| Cache.TwoSourcesIndependent | js/test/v3.test.ts:279-293 | Two sources with different keys, read through one default cache, leave 2 entries and then 4. |
| Cache.HeaderThenStaleDirectory | js/test/v3.test.ts:295-314 | A header read under etag1 records etag1. A directory read after the source moved to etag2 is an etag mismatch and stores nothing. |
| Cache.EtagsArePartOfKey | js/test/v3.test.ts:295-326 | After invalidating with the new etag, the re-read header carries it, and the directory read succeeds. |
| Cache.SoftFailureOnEtagChurn | js/test/v3.test.ts:328-354 | When the source answers with an etag other than the one passed to invalidate, the re-read header carries no etag. |
| LegacyV2.GetUint24 | js/test/v2.test.ts:31-32 | getUint24 is the little-endian value of the three bytes at pos. |
| LegacyV2.GetUint48 | js/test/v2.test.ts:33 | getUint48 is the little-endian value of the six bytes at pos. |
| LegacyV2.Or128 | js/test/v2.test.ts:77 | z OR 0x80 is z + 128 for a zoom below 128. |
| LegacyV2.RecordCount | js/test/v2.test.ts:156-161 | The number of whole 17-byte records in a view. |
| LegacyV2.ParseRecord | js/test/v2.test.ts:156-161 | A parsed record has zoom below 128 and each field within its byte width. |
| LegacyV2.ParseEntry | js/test/v2.test.ts:156-161 | parseEntry yields an entry that fits its record. |
| LegacyV2.EncodeEntryParts | js/test/v2.test.ts:30-34 | A record holds the zoom byte at 0, x at 1, y at 4, offset at 7 and length at 13, each little-endian. |
| LegacyV2.FieldRoundTrip | js/test/v2.test.ts:31-34 | A field written at its width reads back when the value fits. |
| LegacyV2.ValidKey | js/test/v2.test.ts:35 | The zoom byte is z, plus 128 for a leaf directory. Its low seven bits give back z and its top bit gives back the flag. |
| LegacyV2.RecordRoundTrip | js/test/v2.test.ts:16-38 | The record written for a valid entry parses back to that entry, and carries that entry's key. |
| LegacyV2.Serialize | js/test/v2.test.ts:16-29 | A directory of n entries is 17n bytes. |
| LegacyV2.SerializedRecord | js/test/v2.test.ts:16-38 | Record i of a written directory is the encoding of entry i. |
| LegacyV2.SerializedCount | js/test/v2.test.ts:156-161 | A written directory holds one whole record per entry. |
| LegacyV2.ParseSerialized | js/test/v2.test.ts:156-161 | parseEntry(i) of a written directory is entry i, and record i carries entry i's key. |
| LegacyV2.EntryBefore | js/test/v2.test.ts:120-148 | entrySort never ranks an entry before one of the same key. Between a tile entry and a leaf directory, the tile entry comes first. |
| LegacyV2.EntryBeforeLexicographic | js/test/v2.test.ts:120-148 | entrySort is the lexicographic order of (directory flag, z, x, y). |
| LegacyV2.EntryBeforeTotalOrder | js/test/v2.test.ts:120-148 | entrySort is asymmetric and transitive, and it orders any two entries of different keys. |
| LegacyV2.Insert | js/test/v2.test.ts:120-148 | Insertion adds exactly one copy of the entry. |
| LegacyV2.SortEntries | js/test/v2.test.ts:120-148 | The sort is a permutation of its input. |
| LegacyV2.InsertSorted | js/test/v2.test.ts:120-148 | Inserting into a sorted sequence keeps it sorted. |
| LegacyV2.SortEntriesSorted | js/test/v2.test.ts:120-148 | The sort's output is in entrySort order: tiles before leaf directories, then by z, x and y. |
| LegacyV2.SortedHeadsEqual | js/test/v2.test.ts:120-162 | Two sorted arrangements of the same entries with distinct keys start with the same entry. |
| LegacyV2.SortedUnique | js/test/v2.test.ts:120-162 | Two sorted arrangements of the same entries with distinct keys are equal. |
| LegacyV2.OrderIndependent | js/test/v2.test.ts:149-154 | Permutations of the same entries with distinct keys are sorted and written identically. |
| LegacyV2.KeyOrder | js/test/v2.test.ts:40-85 | For entries that fit, entrySort order is the order of the record keys, and equal rank is an equal key. |
| LegacyV2.SerializedSorted | js/test/v2.test.ts:40-85 | Sorted valid entries are written as records in key order. |
| LegacyV2.WrittenDirectory | js/test/v2.test.ts:40-85 | A directory written from sorted valid entries is sorted, has one record per entry, and each record parses back to its entry and carries its key. |
| LegacyV2.UniqueKeyWritten | js/test/v2.test.ts:40-85 | An entry whose key no other entry shares is carried by exactly one record: its own. |
| LegacyV2.AbsentKeyWritten | js/test/v2.test.ts:61 | A key no entry carries is carried by no record. |
| LegacyV2.RecordKeyOfEntry | js/test/v2.test.ts:40-85 | A record's key is the key of the entry it parses to. |
| LegacyV2.DistinctRecordKeys | js/test/v2.test.ts:40-85 | Entries that rank differently carry different record keys. |
| LegacyV2.Compare | js/test/v2.test.ts:54 | The comparison is positive, negative or zero exactly when the record's key is below, above or equal to the search key. |
| LegacyV2.QueryView | js/test/v2.test.ts:54-61 | The bisection answers the offset and length of a record carrying the key. It answers nothing exactly when no record carries the key. |
| LegacyV2.BelowProbe | js/test/v2.test.ts:54-61 | In a sorted view, all records up to a probe below the key are below it. |
| LegacyV2.AboveProbe | js/test/v2.test.ts:54-61 | In a sorted view, all records from a probe above the key are above it. |
| LegacyV2.QueryTile | js/test/v2.test.ts:54-60 | queryTile answers a tile entry built from a record carrying (z, x, y). It answers null exactly when no record carries that key. |
| LegacyV2.QueryLeafdir | js/test/v2.test.ts:77-83 | queryLeafdir answers a leaf-directory entry built from a record carrying (z OR 0x80, x, y). It answers null exactly when no record carries that key. |
| LegacyV2.LookupTileWritten | js/test/v2.test.ts:54-60 | After createDirectory, queryTile of a written tile entry with a key no other entry shares answers that entry. |
| LegacyV2.LookupLeafdirWritten | js/test/v2.test.ts:77-83 | After createDirectory, queryLeafdir of a written leaf-directory entry with a key no other entry shares answers that entry. |
| LegacyV2.MissWritten | js/test/v2.test.ts:61 | After createDirectory, queryTile and queryLeafdir answer null for a key no written entry of that kind carries. |
| LegacyV2.WriteUint24 | js/test/v2.test.ts:31-32 | Writes the three little-endian bytes of v at pos. The bytes before pos and after the field are unchanged. |
| LegacyV2.WriteUint32 | js/test/v2.test.ts:34 | Writes the four little-endian bytes of v at pos. The bytes before pos and after the field are unchanged. |
| LegacyV2.WriteUint48 | js/test/v2.test.ts:33 | Writes the six little-endian bytes of v at pos. The bytes before pos and after the field are unchanged. |
| LegacyV2.WriteRecord | js/test/v2.test.ts:16-38 | Writes the record of the entry at base. The bytes before base and after the record are unchanged. |
| LegacyV2.CreateDirectory | js/test/v2.test.ts:16-29 | createDirectory sorts the entry array in place and returns a new buffer holding the records of the sorted entries. |
| LegacyV2.WriteRecords | js/test/v2.test.ts:16-29 | The record-writing loop fills a new buffer with the records of the entries, in order. |
| LegacyV2.CreateDirectoryFrom | js/test/v2.test.ts:16-29 | createDirectory on a new array holds the records of the input in entrySort order. |
| LegacyV2.ShiftDownBounds | js/test/v2.test.ts:100-103 | Halving d times finds the dyadic block of side 2^d that holds v. |
| LegacyV2.DeriveLeaf | js/test/v2.test.ts:87-118 | A derived leaf comes from a trailing leaf-directory record. Its zoom is at most the tile's zoom, and its square of side 2^(levels apart) contains the tile. A leaf is derived exactly when the trailing record is a leaf directory 0 to 30 levels above the tile. |
| LegacyV2.LastRecordWritten | js/test/v2.test.ts:87-118 | The trailing record of a written directory parses to the last entry written. |
| LegacyV2.DeriveLeafNeedsDirectory | js/test/v2.test.ts:104-117 | Without a trailing leaf-directory record, deriveLeaf answers null. |
| LegacyV2.TwoEntriesInOrder | js/test/v2.test.ts:16-29 | The two entries of the lookup tests are already in order, valid, and of distinct keys. |
| LegacyV2.StubData | js/test/v2.test.ts:16-38 | Record 1 of the written two-entry directory holds zoom byte 14, x = y = 16383, offset 999999 and length 999. |
| LegacyV2.GetEntry | js/test/v2.test.ts:40-62 | queryTile finds (14, 16383, 16383) with offset 999999, length 999 and is_dir false. queryLeafdir finds nothing. |
| LegacyV2.GetLeafdir | js/test/v2.test.ts:64-85 | queryLeafdir finds the leaf directory (14, 16383, 16383) with offset 999999, length 999 and is_dir true. queryTile finds nothing. |
| LegacyV2.DeriveTheLeafLevel | js/test/v2.test.ts:87-118 | Tile (7, 6, 6) derives leaf (6, 3, 3) from a trailing leaf directory at (6, 3, 3), and nothing when that entry is a tile. |
| LegacyV2.ConvertV1Order | js/test/v2.test.ts:120-148 | The three converted entries sort as (6,2,1), (6,2,2), then the leaf (7,3,3). |
| LegacyV2.ConvertV1Keys | js/test/v2.test.ts:120-148 | Those entries, in that order, are sorted, valid and of distinct keys. |
| LegacyV2.ConvertV1Directory | js/test/v2.test.ts:120-162 | The leaf (7,3,3) and the tiles (6,2,2) and (6,2,1) are found with offsets 3, 2 and 1. parseEntry 0, 1 and 2 give offsets 1, 2 and 3. |

## Left out

- I/O and promises: reading files and byte ranges, awaiting fetches, and sharing an in-flight promise between concurrent callers. A source is a value holding its key, current etag, parsed root location and directories by (offset, length). The cache is used by one caller at a time.
- Header parsing, decompression and the test fixtures' bytes. The magic-number, empty-file and future-version rejections become one parse failure (a source whose root location is None). The fixture becomes a source whose root directory at (127, 25) holds the single entry (0, 0, 69, 1).
- The other header fields, including the floating-point bounds, `PMTiles.getMetadata`, `getZxy` with its retry after the data is replaced, and `TestNodeFileSource`.
- `unshift` from `js/src/v2.ts`: the tests import it but never call it.
- Varint.BufferPosition.ReadVarint: decodes into an unbounded integer, exact for every value below 2^64. The reader's floating-point arithmetic, exact only up to 2^53, is not modelled above 2^53.
- Bytes.GetUint64: the value is exact for all eight bytes. The reader computes `high * 2^32 + low` in doubles, which rounds above 2^53, so eight 0xff bytes read as 2^64 there.
- Bytes.GetUint64RoundTrip: the round trip holds in exact arithmetic for every value below 2^64. In the reader it holds only up to 2^53 - 1. A stored 2^53 + 1 reads back as 2^53.
- Cache.SourceKey: source keys are assumed to contain no '|'. Header keys and directory keys therefore cannot collide. The reader does not check this.
- Cache.SharedPromiseCache.Prune: evicts until the cache is within budget, least recently used first. Which of several entries with equal stamps goes first is not specified.
- Cache.SharedPromiseCache.GetHeader: a failed header read stores nothing. The reader stores the rejected promise under the key.
- Cache.SharedPromiseCache.GetDirectory: a failed fetch stores nothing. On a hit, no etag check is made, because the key already includes the header's etag.
- Cache.SharedPromiseCache.Invalidate: drops only the source's header entry. Directory entries stay under keys that include the old etag.
- LegacyV2.DeriveLeaf: defined only when the leaf is 0 to 30 levels above the tile, the range in which JavaScript's `1 << d` equals 2^d. Other level differences, negative ones included, answer null.
- LegacyV2.CreateDirectory: the in-place `Array.sort` with entrySort is modelled as a stable insertion sort whose result is written back into the array. It is the same order whenever no two entries rank equal.
- LegacyV2.QueryView: only the whole 17-byte records of a view are searched. A trailing partial record is ignored.
- Tile coordinates, tile identifiers, offsets, lengths and run lengths are natural numbers. The reader accepts any JavaScript number, including negative and fractional ones.
- LegacyV2.ParseRecord: requires the record to lie inside the view, and so does LegacyV2.ParseEntry. A DataView read past the end throws a RangeError, which is not modelled.
- LegacyV2.CreateDirectory: a field wider than its bytes is truncated to them, as the byte stores truncate. The round-trip lemmas assume entries that fit (LegacyV2.ValidEntry). The writer itself does not check this.
- Scenario methods with fixed keys or etags are stated for every source key, and for every pair of distinct non-empty etags. The fixed values of the tests are one instance of these.
