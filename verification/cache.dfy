/**
 * The sequential bookkeeping of the reader's shared cache: a map from string
 * keys to the header or directory fetched for them, each stamped with a use
 * counter, an eviction of the least recently used entries under a budget, and
 * the resource-version (etag) checks that guard directory reads.
 */
module Cache {
  import opened Wrappers
  import opened Directory

  /** A source's identity: its key never contains the separator used in directory keys. */
  type SourceKey = s: string | '|' !in s

  /** Where the header places the root directory, as parsed from the header bytes. */
  datatype RootLocation = RootLocation(offset: nat, length: nat)

  /**
   * A backing store as the cache sees it: its identity, the etag its responses
   * currently carry, the root location its header bytes parse to (None when they
   * are too short, have the wrong magic number or a future version), and the
   * directories it serves by (offset, length).
   */
  datatype Source = Source(key: SourceKey, etag: Option<string>, root: Option<RootLocation>,
                           directories: map<(nat, nat), seq<Entry>>)

  /** The header fields the cache uses, with the etag captured when it was read. */
  datatype Header = Header(rootDirectoryOffset: nat, rootDirectoryLength: nat, etag: Option<string>)

  datatype CacheError = InvalidHeader | FetchFailed | EmptyDirectory | EtagMismatch

  datatype Cached = CachedHeader(header: Header) | CachedDirectory(entries: seq<Entry>)

  /** A cache entry: when it was last used and what it holds. */
  datatype CacheValue = CacheValue(lastUsed: nat, data: Cached)

  /** JavaScript truthiness of an optional string: present and not empty. */
  predicate Truthy(e: Option<string>)
  {
    e.Some? && e.value != ""
  }

  /** The etag as it appears in a key: empty when absent. */
  function EtagText(e: Option<string>): string
  {
    if e.Some? then e.value else ""
  }

  function DigitChar(d: nat): (c: char)
    requires d < 10
    ensures '0' <= c <= '9'
  {
    ('0' as int + d) as char
  }

  /** The decimal numeral of n, as a template literal prints it. */
  function Decimal(n: nat): (r: string)
    ensures |r| >= 1 && '|' !in r
    ensures n < 10 <==> |r| == 1
  {
    if n < 10 then [DigitChar(n)] else Decimal(n / 10) + [DigitChar(n % 10)]
  }

  /** Distinct numbers print distinctly. */
  lemma {:induction false} DecimalInjective(a: nat, b: nat)
    requires Decimal(a) == Decimal(b)
    ensures a == b
  {
    if a >= 10 && b >= 10 {
      var da, db := Decimal(a), Decimal(b);
      assert da[..|da| - 1] == Decimal(a / 10);
      assert db[..|db| - 1] == Decimal(b / 10);
      DecimalInjective(a / 10, b / 10);
      assert da[|da| - 1] == DigitChar(a % 10);
      assert db[|db| - 1] == DigitChar(b % 10);
    }
  }

  /** Two strings joined by the separator '|'. */
  function Join(a: string, b: string): (r: string)
    ensures |r| == |a| + 1 + |b| && r[|a|] == '|'
  {
    a + "|" + b
  }

  /** The key of a directory: source key, etag, offset and length joined by '|'. */
  function DirectoryKey(key: SourceKey, etag: Option<string>, offset: nat, length: nat): (r: string)
    ensures '|' in r
  {
    Join(key, Join(Join(EtagText(etag), Decimal(offset)), Decimal(length)))
  }

  /** Joining at a separator that the left parts do not contain can be undone. */
  lemma SplitAtFirstBar(a: string, b: string, c: string, d: string)
    requires '|' !in a && '|' !in c
    requires Join(a, b) == Join(c, d)
    ensures a == c && b == d
  {
    var s := Join(a, b);
    assert |a| == |c|;
    assert a == s[..|a|] && c == s[..|c|];
    assert b == s[|a| + 1..] && d == s[|c| + 1..];
  }

  /** Joining at a separator that the right parts do not contain can be undone. */
  lemma SplitAtLastBar(a: string, b: string, c: string, d: string)
    requires '|' !in b && '|' !in d
    requires Join(a, b) == Join(c, d)
    ensures a == c && b == d
  {
    var s := Join(a, b);
    assert |b| == |d|;
    assert b == s[|s| - |b|..] && d == s[|s| - |d|..];
    assert a == s[..|a|] && c == s[..|c|];
  }

  /**
   * Directory keys never collide: equal keys come from the same source, the same
   * etag text, offset and length. In particular two sources never share an entry.
   */
  lemma DirectoryKeyInjective(k1: SourceKey, e1: Option<string>, o1: nat, l1: nat,
                              k2: SourceKey, e2: Option<string>, o2: nat, l2: nat)
    requires DirectoryKey(k1, e1, o1, l1) == DirectoryKey(k2, e2, o2, l2)
    ensures k1 == k2 && EtagText(e1) == EtagText(e2) && o1 == o2 && l1 == l2
  {
    var r1, r2 := Join(EtagText(e1), Decimal(o1)), Join(EtagText(e2), Decimal(o2));
    SplitAtFirstBar(k1, Join(r1, Decimal(l1)), k2, Join(r2, Decimal(l2)));
    SplitAtLastBar(r1, Decimal(l1), r2, Decimal(l2));
    SplitAtLastBar(EtagText(e1), Decimal(o1), EtagText(e2), Decimal(o2));
    DecimalInjective(o1, o2);
    DecimalInjective(l1, l2);
  }

  /** Two distinct sources never share a directory key. */
  lemma DistinctSourcesDistinctKeys(k1: SourceKey, e1: Option<string>, o1: nat, l1: nat,
                                    k2: SourceKey, e2: Option<string>, o2: nat, l2: nat)
    requires k1 != k2
    ensures DirectoryKey(k1, e1, o1, l1) != DirectoryKey(k2, e2, o2, l2)
  {
    if DirectoryKey(k1, e1, o1, l1) == DirectoryKey(k2, e2, o2, l2) {
      DirectoryKeyInjective(k1, e1, o1, l1, k2, e2, o2, l2);
    }
  }

  /** A header key is never a directory key. */
  lemma HeaderKeyIsNotDirectoryKey(k: SourceKey, k2: SourceKey, e: Option<string>, o: nat, l: nat)
    ensures k != DirectoryKey(k2, e, o, l)
  {
  }

  /** Reading the header: the etag is dropped when the caller expected another one. */
  function ReadHeader(source: Source, prefixEtag: Option<string>): (r: Result<Header, CacheError>)
    ensures r.Err? <==> source.root.None?
    ensures r.Ok? ==> r.value.etag == source.etag || r.value.etag == None
    ensures r.Ok? && Truthy(prefixEtag) ==> r.value.etag == None || r.value.etag == prefixEtag
    ensures r.Ok? && !(Truthy(prefixEtag) && source.etag != prefixEtag) ==> r.value.etag == source.etag
    ensures r.Ok? && Truthy(prefixEtag) && source.etag != prefixEtag ==> r.value.etag == None
    ensures r.Ok? ==> r.value.rootDirectoryOffset == source.root.value.offset
    ensures r.Ok? ==> r.value.rootDirectoryLength == source.root.value.length
  {
    match source.root
    case None => Err(InvalidHeader)
    case Some(loc) =>
      var etag := if Truthy(prefixEtag) && source.etag != prefixEtag then None else source.etag;
      Ok(Header(loc.offset, loc.length, etag))
  }

  /** Fetching a directory: the bytes must exist, carry the header's etag, and decode to entries. */
  function FetchDirectory(source: Source, offset: nat, length: nat, header: Header): (r: Result<seq<Entry>, CacheError>)
    ensures r.Ok? ==> (offset, length) in source.directories && r.value == source.directories[(offset, length)]
    ensures r.Ok? ==> |r.value| > 0
    ensures r.Ok? && Truthy(header.etag) ==> source.etag == header.etag
    ensures r == Err(EtagMismatch) <==> (offset, length) in source.directories && Truthy(header.etag) && source.etag != header.etag
    ensures r.Ok? <==> && (offset, length) in source.directories
                       && !(Truthy(header.etag) && source.etag != header.etag)
                       && |source.directories[(offset, length)]| > 0
  {
    if (offset, length) !in source.directories then Err(FetchFailed)
    else if Truthy(header.etag) && source.etag != header.etag then Err(EtagMismatch)
    else if |source.directories[(offset, length)]| == 0 then Err(EmptyDirectory)
    else Ok(source.directories[(offset, length)])
  }

  /** Whether reading the header of source also seeds its root directory. */
  predicate SeedsRoot(source: Source, h: Header, prefetch: bool)
  {
    prefetch && (h.rootDirectoryOffset, h.rootDirectoryLength) in source.directories
  }

  /** The map after a header read: the header at stamp, and the root directory at stamp + 1 if seeded. */
  function AfterHeaderRead(m: map<string, CacheValue>, source: Source, h: Header, stamp: nat, prefetch: bool): map<string, CacheValue>
  {
    var withHeader := m[source.key := CacheValue(stamp, CachedHeader(h))];
    if SeedsRoot(source, h, prefetch) then
      withHeader[DirectoryKey(source.key, h.etag, h.rootDirectoryOffset, h.rootDirectoryLength) :=
                 CacheValue(stamp + 1, CachedDirectory(source.directories[(h.rootDirectoryOffset, h.rootDirectoryLength)]))]
    else withHeader
  }

  /**
   * after is what pruning before to budget max may leave: entries kept unchanged,
   * nothing removed when within budget, exactly max left otherwise, and every
   * evicted entry used no later than every kept one.
   */
  ghost predicate PrunedFrom(before: map<string, CacheValue>, after: map<string, CacheValue>, max: nat)
  {
    if |before| <= max then after == before
    else
      && |after| == max
      && (forall k :: k in after ==> k in before && after[k] == before[k])
      && (forall e, k :: e in before && e !in after && k in after ==> before[e].lastUsed <= after[k].lastUsed)
  }

  /** Every entry has been stamped, no stamp is in the future, and headers live exactly under keys without '|'. */
  ghost predicate WellStamped(m: map<string, CacheValue>, counter: nat)
  {
    forall k :: k in m ==> 1 <= m[k].lastUsed < counter && (m[k].data.CachedHeader? <==> '|' !in k)
  }

  /** Refreshing an entry with the current counter keeps the stamps in order. */
  lemma StampedAfterTouch(m: map<string, CacheValue>, counter: nat, k: string)
    requires WellStamped(m, counter) && k in m && counter >= 1
    ensures WellStamped(m[k := m[k].(lastUsed := counter)], counter + 1)
  {
  }

  /** A header read stamps its entries with the counter values it consumes. */
  lemma StampedAfterRead(m: map<string, CacheValue>, counter: nat, source: Source, h: Header, prefetch: bool)
    requires WellStamped(m, counter) && counter >= 1
    ensures WellStamped(AfterHeaderRead(m, source, h, counter, prefetch), counter + (if SeedsRoot(source, h, prefetch) then 2 else 1))
  {
    var m' := AfterHeaderRead(m, source, h, counter, prefetch);
    var c' := counter + (if SeedsRoot(source, h, prefetch) then 2 else 1);
    forall k | k in m'
      ensures 1 <= m'[k].lastUsed < c' && (m'[k].data.CachedHeader? <==> '|' !in k)
    {
      if k == source.key {
        assert '|' !in k;
      }
    }
  }

  /** Pruning only removes entries, so it keeps the stamps in order. */
  lemma StampedAfterPrune(before: map<string, CacheValue>, after: map<string, CacheValue>, max: nat, counter: nat)
    requires WellStamped(before, counter) && PrunedFrom(before, after, max)
    ensures WellStamped(after, counter)
  {
  }

  class SharedPromiseCache {
    var cache: map<string, CacheValue>
    const maxCacheEntries: nat
    const prefetch: bool
    var counter: nat

    ghost predicate Valid()
      reads this
    {
      counter >= 1 && WellStamped(cache, counter)
    }

    /** An empty cache whose counter starts at 1. */
    constructor(maxCacheEntries: nat, prefetch: bool)
      ensures Valid()
      ensures cache == map[] && counter == 1
      ensures this.maxCacheEntries == maxCacheEntries && this.prefetch == prefetch
    {
      cache := map[];
      this.maxCacheEntries := maxCacheEntries;
      this.prefetch := prefetch;
      counter := 1;
    }

    /** The cache built with the default arguments: 100 entries, root prefetch on. */
    constructor Default()
      ensures Valid()
      ensures cache == map[] && counter == 1
      ensures maxCacheEntries == 100 && prefetch
    {
      cache := map[];
      maxCacheEntries := 100;
      prefetch := true;
      counter := 1;
    }

    /** The key of an entry used no later than any other (the scan of prune). */
    method OldestKey() returns (k: string)
      requires cache != map[]
      ensures k in cache
      ensures forall j :: j in cache ==> cache[k].lastUsed <= cache[j].lastUsed
    {
      var remaining := cache.Keys;
      k :| k in remaining;
      remaining := remaining - {k};
      while remaining != {}
        invariant remaining <= cache.Keys && k in cache
        invariant forall j :: j in cache && j !in remaining ==> cache[k].lastUsed <= cache[j].lastUsed
        decreases |remaining|
      {
        var j :| j in remaining;
        if cache[j].lastUsed < cache[k].lastUsed {
          k := j;
        }
        remaining := remaining - {j};
      }
    }

    /** prune: evicts least recently used entries until the cache is within its budget. */
    method Prune()
      modifies this
      ensures PrunedFrom(old(cache), cache, maxCacheEntries)
      ensures counter == old(counter)
    {
      ghost var before := cache;
      while |cache| > maxCacheEntries
        invariant forall k :: k in cache ==> k in before && cache[k] == before[k]
        invariant cache == before || (|before| > maxCacheEntries && |cache| >= maxCacheEntries)
        invariant forall e, k :: e in before && e !in cache && k in cache ==> before[e].lastUsed <= cache[k].lastUsed
        invariant counter == old(counter)
        decreases |cache|
      {
        var k := OldestKey();
        var rest := cache - {k};
        assert cache.Keys == rest.Keys + {k};
        cache := rest;
      }
    }

    /** getHeader: a hit refreshes the entry; a miss reads the header, stores it, may seed the root, and prunes. */
    method GetHeader(source: Source, prefixEtag: Option<string>) returns (r: Result<Header, CacheError>)
      requires Valid()
      modifies this
      ensures Valid()
      ensures source.key in old(cache) ==>
                && r == Ok(old(cache)[source.key].data.header)
                && cache == old(cache)[source.key := old(cache)[source.key].(lastUsed := old(counter))]
                && counter == old(counter) + 1
      ensures source.key !in old(cache) ==> r == ReadHeader(source, prefixEtag)
      ensures source.key !in old(cache) && r.Err? ==> cache == old(cache) && counter == old(counter) + 1
      ensures source.key !in old(cache) && r.Ok? ==>
                && PrunedFrom(AfterHeaderRead(old(cache), source, r.value, old(counter), prefetch), cache, maxCacheEntries)
                && counter == old(counter) + (if SeedsRoot(source, r.value, prefetch) then 2 else 1)
    {
      var key: string := source.key;
      if key in cache {
        var v := cache[key];
        StampedAfterTouch(cache, counter, key);
        cache := cache[key := v.(lastUsed := counter)];
        counter := counter + 1;
        return Ok(v.data.header);
      }
      r := LoadHeader(source, prefixEtag);
    }

    /** The miss path of getHeader: take a stamp, read the header, and on success store it (and the root directory when prefetching), then prune. */
    method LoadHeader(source: Source, prefixEtag: Option<string>) returns (r: Result<Header, CacheError>)
      requires Valid() && source.key !in cache
      modifies this
      ensures Valid()
      ensures r == ReadHeader(source, prefixEtag)
      ensures r.Err? ==> cache == old(cache) && counter == old(counter) + 1
      ensures r.Ok? ==>
                && PrunedFrom(AfterHeaderRead(old(cache), source, r.value, old(counter), prefetch), cache, maxCacheEntries)
                && counter == old(counter) + (if SeedsRoot(source, r.value, prefetch) then 2 else 1)
    {
      var stamp := counter;
      counter := counter + 1;
      r := ReadHeader(source, prefixEtag);
      if r.Err? {
        return;
      }
      StoreHeader(source, r.value, stamp);
    }

    /** Stores a header read with the given stamp, seeds the root directory when prefetching, and prunes. */
    method StoreHeader(source: Source, h: Header, stamp: nat)
      requires stamp >= 1 && WellStamped(cache, stamp) && counter == stamp + 1
      modifies this
      ensures Valid()
      ensures PrunedFrom(AfterHeaderRead(old(cache), source, h, stamp, prefetch), cache, maxCacheEntries)
      ensures counter == stamp + (if SeedsRoot(source, h, prefetch) then 2 else 1)
    {
      Seed(source, h, stamp);
      ghost var seeded := cache;
      Prune();
      StampedAfterPrune(seeded, cache, maxCacheEntries, counter);
    }

    /** Stores the header at stamp and, when prefetching and the root directory exists, the root directory at the next stamp. */
    method Seed(source: Source, h: Header, stamp: nat)
      requires stamp >= 1 && WellStamped(cache, stamp) && counter == stamp + 1
      modifies this
      ensures cache == AfterHeaderRead(old(cache), source, h, stamp, prefetch)
      ensures counter == stamp + (if SeedsRoot(source, h, prefetch) then 2 else 1)
      ensures Valid()
    {
      StampedAfterRead(cache, stamp, source, h, prefetch);
      cache := cache[source.key := CacheValue(stamp, CachedHeader(h))];
      if prefetch && (h.rootDirectoryOffset, h.rootDirectoryLength) in source.directories {
        var dirKey := DirectoryKey(source.key, h.etag, h.rootDirectoryOffset, h.rootDirectoryLength);
        cache := cache[dirKey := CacheValue(counter, CachedDirectory(source.directories[(h.rootDirectoryOffset, h.rootDirectoryLength)]))];
        counter := counter + 1;
      }
    }

    /** getDirectory: a hit refreshes the entry; a miss fetches, checks the etag, stores the entries and prunes. */
    method GetDirectory(source: Source, offset: nat, length: nat, header: Header) returns (r: Result<seq<Entry>, CacheError>)
      requires Valid()
      modifies this
      ensures Valid()
      ensures counter == old(counter) + 1
      ensures DirectoryKey(source.key, header.etag, offset, length) in old(cache) ==>
                var key := DirectoryKey(source.key, header.etag, offset, length);
                && r == Ok(old(cache)[key].data.entries)
                && cache == old(cache)[key := old(cache)[key].(lastUsed := old(counter))]
      ensures DirectoryKey(source.key, header.etag, offset, length) !in old(cache) ==>
                r == FetchDirectory(source, offset, length, header)
      ensures DirectoryKey(source.key, header.etag, offset, length) !in old(cache) && r.Err? ==> cache == old(cache)
      ensures DirectoryKey(source.key, header.etag, offset, length) !in old(cache) && r.Ok? ==>
                PrunedFrom(old(cache)[DirectoryKey(source.key, header.etag, offset, length) := CacheValue(old(counter), CachedDirectory(r.value))],
                           cache, maxCacheEntries)
    {
      var key := DirectoryKey(source.key, header.etag, offset, length);
      if key in cache {
        var v := cache[key];
        StampedAfterTouch(cache, counter, key);
        cache := cache[key := v.(lastUsed := counter)];
        counter := counter + 1;
        return Ok(v.data.entries);
      }
      var stamp := counter;
      counter := counter + 1;
      r := FetchDirectory(source, offset, length, header);
      if r.Err? {
        return;
      }
      cache := cache[key := CacheValue(stamp, CachedDirectory(r.value))];
      ghost var stored := cache;
      Prune();
      StampedAfterPrune(stored, cache, maxCacheEntries, counter);
    }

    /** invalidate: drops the source's header entry and reads the header again, expecting currentEtag. */
    method Invalidate(source: Source, currentEtag: string) returns (r: Result<Header, CacheError>)
      requires Valid()
      modifies this
      ensures Valid()
      ensures r == ReadHeader(source, Some(currentEtag))
      ensures r.Err? ==> cache == old(cache) - {source.key}
      ensures r.Ok? ==> PrunedFrom(AfterHeaderRead(old(cache) - {source.key}, source, r.value, old(counter), prefetch),
                                   cache, maxCacheEntries)
    {
      cache := cache - {source.key};
      r := GetHeader(source, Some(currentEtag));
    }
  }

  /** The source of the one-tile fixture: root directory at bytes 127..152 holding one entry. */
  function Fixture(key: SourceKey, etag: Option<string>): Source
  {
    Source(key, etag, Some(RootLocation(127, 25)), map[(127, 25) := [Entry(0, 0, 69, 1)]])
  }

  /** The three entries the pruning scenario starts from: stamps 0, 1 and 2 under keys "0", "1" and "2". */
  function ThreeStamped(): map<string, CacheValue>
  {
    map["0" := CacheValue(0, CachedDirectory([])), "1" := CacheValue(1, CachedDirectory([])),
        "2" := CacheValue(2, CachedDirectory([]))]
  }

  /** Pruning those three entries to budget 2 evicts "0" and keeps "1" and "2". */
  lemma KeepsNewest(after: map<string, CacheValue>)
    requires PrunedFrom(ThreeStamped(), after, 2)
    ensures after.Keys == {"1", "2"}
  {
    var before := ThreeStamped();
    assert "0"[0] != "1"[0] && "1"[0] != "2"[0] && "0"[0] != "2"[0];
    assert before.Keys == {"0", "1", "2"};
    assert |before| == 3;
    assert |after| == 2;
    assert after.Keys <= before.Keys;
    assert "0" in after && "1" in after && "2" in after ==> after.Keys == before.Keys;
    assert "0" !in after;
    assert "1" in after ==> "2" in after || after.Keys == {"1"};
    assert "2" in after ==> "1" in after || after.Keys == {"2"};
    assert after.Keys != {};
  }

  /** Pruning a cache of budget 2 holding stamps 0, 1 and 2 keeps "1" and "2". */
  method PruneKeepsNewest() returns (kept: set<string>)
    ensures kept == {"1", "2"}
  {
    var c := new SharedPromiseCache(2, false);
    c.cache := c.cache["0" := CacheValue(0, CachedDirectory([]))];
    c.cache := c.cache["1" := CacheValue(1, CachedDirectory([]))];
    c.cache := c.cache["2" := CacheValue(2, CachedDirectory([]))];
    assert c.cache == ThreeStamped();
    c.Prune();
    KeepsNewest(c.cache);
    kept := c.cache.Keys;
  }

  /** Reading a header through a cache without prefetch stores the header alone. */
  method HeaderOnly(key: SourceKey) returns (size: nat)
    ensures size == 1
  {
    var plain := new SharedPromiseCache(6400, false);
    var h := plain.GetHeader(Fixture(key, None), None);
    assert plain.cache == map[key := CacheValue(1, CachedHeader(Header(127, 25, None)))];
    size := |plain.cache|;
  }

  /**
   * Reading a header without prefetch stores one entry; with prefetch the root
   * directory is stored as well, stamped right after the header, and reading it
   * is then a hit that restamps it: both entries end with positive stamps.
   */
  method PrefetchSeedsRoot(key: SourceKey) returns (sizeWithout: nat, sizeWith: nat, root: Result<seq<Entry>, CacheError>, contents: map<string, CacheValue>)
    ensures sizeWithout == 1 && sizeWith == 2
    ensures root == Ok([Entry(0, 0, 69, 1)])
    ensures contents == map[key := CacheValue(1, CachedHeader(Header(127, 25, None))),
                            DirectoryKey(key, None, 127, 25) := CacheValue(3, CachedDirectory([Entry(0, 0, 69, 1)]))]
  {
    sizeWithout := HeaderOnly(key);
    var source := Fixture(key, None);
    HeaderKeyIsNotDirectoryKey(key, key, None, 127, 25);
    var c := new SharedPromiseCache(6400, true);
    var h := c.GetHeader(source, None);
    assert h == Ok(Header(127, 25, None));
    var dk := DirectoryKey(key, None, 127, 25);
    var dir := [Entry(0, 0, 69, 1)];
    assert c.cache == map[key := CacheValue(1, CachedHeader(h.value)), dk := CacheValue(2, CachedDirectory(dir))];
    sizeWith := |c.cache|;
    root := c.GetDirectory(source, 127, 25, h.value);
    contents := c.cache;
  }

  /** Two sources read through one default cache get independent entries: two each. */
  method TwoSourcesIndependent(firstKey: SourceKey, secondKey: SourceKey) returns (sizeAfterFirst: nat, sizeAfterSecond: nat)
    requires firstKey != secondKey
    ensures sizeAfterFirst == 2 && sizeAfterSecond == 4
  {
    var first, second := Fixture(firstKey, None), Fixture(secondKey, None);
    HeaderKeyIsNotDirectoryKey(firstKey, firstKey, None, 127, 25);
    HeaderKeyIsNotDirectoryKey(secondKey, secondKey, None, 127, 25);
    HeaderKeyIsNotDirectoryKey(firstKey, secondKey, None, 127, 25);
    HeaderKeyIsNotDirectoryKey(secondKey, firstKey, None, 127, 25);
    DistinctSourcesDistinctKeys(firstKey, None, 127, 25, secondKey, None, 127, 25);
    var c := new SharedPromiseCache.Default();
    var h1 := c.GetHeader(first, None);
    sizeAfterFirst := |c.cache|;
    var h2 := c.GetHeader(second, None);
    sizeAfterSecond := |c.cache|;
  }

  /**
   * The opening shared by the etag scenarios: a header read under etag1 stores it
   * at stamp 1, and a directory read after the source's etag became etag2 is
   * rejected and stores nothing.
   */
  method HeaderThenStaleDirectory(c: SharedPromiseCache, key: SourceKey, etag1: string, etag2: string)
      returns (first: Result<Header, CacheError>, stale: Result<seq<Entry>, CacheError>)
    requires etag1 != "" && etag2 != "" && etag1 != etag2
    requires c.Valid() && c.cache == map[] && c.counter == 1 && c.maxCacheEntries == 6400 && !c.prefetch
    modifies c
    ensures first == Ok(Header(127, 25, Some(etag1)))
    ensures stale == Err(EtagMismatch)
    ensures c.Valid() && c.cache == map[key := CacheValue(1, CachedHeader(Header(127, 25, Some(etag1))))] && c.counter == 3
  {
    first := c.GetHeader(Fixture(key, Some(etag1)), None);
    assert c.cache == map[key := CacheValue(1, CachedHeader(Header(127, 25, Some(etag1))))];
    HeaderKeyIsNotDirectoryKey(key, key, Some(etag1), 127, 25);
    stale := c.GetDirectory(Fixture(key, Some(etag2)), 127, 25, first.value);
  }

  /**
   * A header read records the etag; a directory read after the source's etag changed
   * is rejected; invalidating with the new etag re-reads the header under it, and the
   * directory read then succeeds.
   */
  method EtagsArePartOfKey(key: SourceKey, etag1: string, etag2: string)
      returns (first: Result<Header, CacheError>, stale: Result<seq<Entry>, CacheError>,
               renewed: Result<Header, CacheError>, again: Result<seq<Entry>, CacheError>)
    requires etag1 != "" && etag2 != "" && etag1 != etag2
    ensures first.Ok? && first.value.etag == Some(etag1)
    ensures stale == Err(EtagMismatch)
    ensures renewed.Ok? && renewed.value.etag == Some(etag2)
    ensures again == Ok([Entry(0, 0, 69, 1)])
  {
    var c := new SharedPromiseCache(6400, false);
    first, stale := HeaderThenStaleDirectory(c, key, etag1, etag2);
    var source := Fixture(key, Some(etag2));
    var r := c.Invalidate(source, etag2);
    assert r == Ok(Header(127, 25, Some(etag2)));
    assert c.cache == map[key := CacheValue(3, CachedHeader(Header(127, 25, Some(etag2))))];
    renewed := c.GetHeader(source, None);
    HeaderKeyIsNotDirectoryKey(key, key, Some(etag2), 127, 25);
    again := c.GetDirectory(source, 127, 25, renewed.value);
  }

  /**
   * When the source answers with an etag other than the one passed to invalidate,
   * the re-read header carries no etag at all.
   */
  method SoftFailureOnEtagChurn(key: SourceKey, etag1: string, etag2: string)
      returns (stale: Result<seq<Entry>, CacheError>, renewed: Result<Header, CacheError>)
    requires etag1 != "" && etag2 != "" && etag1 != etag2
    ensures stale == Err(EtagMismatch)
    ensures renewed.Ok? && renewed.value.etag == None
  {
    var c := new SharedPromiseCache(6400, false);
    var first;
    first, stale := HeaderThenStaleDirectory(c, key, etag1, etag2);
    var source := Fixture(key, Some(etag1));
    var r := c.Invalidate(source, etag2);
    assert r == Ok(Header(127, 25, None));
    assert c.cache == map[key := CacheValue(3, CachedHeader(Header(127, 25, None)))];
    renewed := c.GetHeader(source, None);
  }
}
