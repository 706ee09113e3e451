/**
 * Directory lookup of the version 3 archive format: a directory is a list of
 * entries sorted by tile identifier, each covering a run of consecutive tiles
 * that share one payload, or pointing at a leaf directory when its run length
 * is zero.
 */
module Directory {
  import opened Wrappers

  /** A directory entry: the first tile of the run, the payload's place, and the run length (0: a leaf directory). */
  datatype Entry = Entry(tileId: nat, offset: nat, length: nat, runLength: nat)

  /** The entries of a directory, in strictly increasing order of tile identifier. */
  ghost predicate SortedById(entries: seq<Entry>)
  {
    forall i, j :: 0 <= i < j < |entries| ==> entries[i].tileId < entries[j].tileId
  }

  /** The index of the last entry whose tile identifier is at most id, if any. */
  function LastAtMost(entries: seq<Entry>, id: nat): (r: Option<nat>)
    ensures r.Some? ==> r.value < |entries| && entries[r.value].tileId <= id
    ensures r.Some? ==> forall k :: r.value < k < |entries| ==> entries[k].tileId > id
    ensures r.None? ==> forall k :: 0 <= k < |entries| ==> entries[k].tileId > id
    decreases |entries|
  {
    if |entries| == 0 then None
    else if entries[|entries| - 1].tileId <= id then Some(|entries| - 1)
    else LastAtMost(entries[..|entries| - 1], id)
  }

  /** Whether entry e answers a lookup of id that reached it: an exact match, a leaf directory, or a run that covers id. */
  predicate Covers(e: Entry, id: nat)
  {
    e.tileId == id || e.runLength == 0 || (e.tileId <= id && id - e.tileId < e.runLength)
  }

  /** What findTile answers: the last entry at or before id, when it covers id. */
  function FindTileSpec(entries: seq<Entry>, id: nat): Option<Entry>
  {
    match LastAtMost(entries, id)
    case None => None
    case Some(i) => if Covers(entries[i], id) then Some(entries[i]) else None
  }

  /**
   * findTile: binary search for an entry with tile identifier id; when there is none,
   * the entry just before the insertion point is returned if it is a leaf directory
   * or its run reaches id.
   */
  method FindTile(entries: seq<Entry>, id: nat) returns (r: Option<Entry>)
    requires SortedById(entries)
    ensures r.Some? == FindTileSpec(entries, id).Some?
    ensures r.Some? ==> r.value == FindTileSpec(entries, id).value
  {
    var m: int := 0;
    var n: int := |entries| - 1;
    while m <= n
      invariant 0 <= m <= |entries| && -1 <= n < |entries| && m <= n + 1
      invariant forall k :: 0 <= k < m ==> entries[k].tileId < id
      invariant forall k :: n < k < |entries| ==> entries[k].tileId > id
      decreases n - m
    {
      var k := (n + m) / 2;
      var cmp := id - entries[k].tileId;
      if cmp > 0 {
        m := k + 1;
      } else if cmp < 0 {
        n := k - 1;
      } else {
        ExactMatch(entries, id, k);
        return Some(entries[k]);
      }
    }
    Insertion(entries, id, n);
    if n >= 0 {
      if entries[n].runLength == 0 {
        return Some(entries[n]);
      }
      if id - entries[n].tileId < entries[n].runLength {
        return Some(entries[n]);
      }
    }
    return None;
  }

  /** After the search closes without a match, n is the last entry below id. */
  lemma Insertion(entries: seq<Entry>, id: nat, n: int)
    requires -1 <= n < |entries|
    requires forall k :: 0 <= k <= n ==> entries[k].tileId < id
    requires forall k :: n < k < |entries| ==> entries[k].tileId > id
    ensures n >= 0 ==> LastAtMost(entries, id) == Some(n) && entries[n].tileId < id
    ensures n < 0 ==> LastAtMost(entries, id) == None
  {
  }

  /** An entry whose tile identifier is id is what the lookup returns. */
  lemma ExactMatch(entries: seq<Entry>, id: nat, k: nat)
    requires SortedById(entries) && k < |entries| && entries[k].tileId == id
    ensures LastAtMost(entries, id) == Some(k)
    ensures FindTileSpec(entries, id) == Some(entries[k])
  {
  }

  /** A found entry lies in the directory, starts at or before id, and is a leaf directory or has a run reaching id. */
  lemma FoundCovers(entries: seq<Entry>, id: nat)
    ensures var r := FindTileSpec(entries, id);
            r.Some? ==> && r.value in entries
                        && r.value.tileId <= id
                        && (r.value.runLength == 0 || id < r.value.tileId + r.value.runLength)
  {
  }

  /** The found entry is the one with the largest tile identifier at or below id. */
  lemma FoundIsPredecessor(entries: seq<Entry>, id: nat, j: nat)
    requires SortedById(entries) && j < |entries| && entries[j].tileId <= id
    ensures var r := FindTileSpec(entries, id);
            r.Some? ==> entries[j].tileId <= r.value.tileId
  {
  }

  /** The lookup answers nothing exactly when no entry starts at or before id, or that entry's run stops short of id. */
  lemma NotFound(entries: seq<Entry>, id: nat)
    requires SortedById(entries)
    ensures FindTileSpec(entries, id).None? <==>
              (forall k :: 0 <= k < |entries| ==> entries[k].tileId > id) ||
              (exists k :: 0 <= k < |entries| && entries[k].tileId < id && entries[k].runLength > 0 &&
                 id - entries[k].tileId >= entries[k].runLength &&
                 forall k' :: k < k' < |entries| ==> entries[k'].tileId > id)
  {
    var r := LastAtMost(entries, id);
    if r.Some? {
      var i := r.value;
      if FindTileSpec(entries, id).None? {
        assert entries[i].tileId < id;
      } else {
        forall k | 0 <= k < |entries| && entries[k].tileId < id && forall k' :: k < k' < |entries| ==> entries[k'].tileId > id
          ensures k == i
        {
        }
      }
    }
  }

  /** An empty directory answers nothing. */
  lemma EmptyDirectory(id: nat)
    ensures FindTileSpec([], id) == None
  {
  }

  /** A single entry with run length 1 answers its own tile and not the next. */
  lemma SingleEntry()
    ensures var d := [Entry(100, 1, 1, 1)];
            FindTileSpec(d, 100) == Some(Entry(100, 1, 1, 1)) && FindTileSpec(d, 101) == None
  {
  }

  /** Tile 4 lies in the run [3, 5) of the first of two entries. */
  lemma RunOfTwo()
    ensures FindTileSpec([Entry(3, 3, 1, 2), Entry(5, 5, 1, 2)], 4) == Some(Entry(3, 3, 1, 2))
  {
  }

  /** Runs [100, 102), [150, 152) and [50, 52) answer 101, 151 and 51. */
  lemma RunsOfSeveralEntries()
    ensures FindTileSpec([Entry(100, 1, 1, 2)], 101) == Some(Entry(100, 1, 1, 2))
    ensures FindTileSpec([Entry(100, 1, 1, 1), Entry(150, 2, 2, 2)], 151) == Some(Entry(150, 2, 2, 2))
    ensures FindTileSpec([Entry(50, 1, 1, 2), Entry(100, 2, 2, 1), Entry(150, 3, 3, 1)], 51) == Some(Entry(50, 1, 1, 2))
  {
    var d := [Entry(50, 1, 1, 2), Entry(100, 2, 2, 1), Entry(150, 3, 3, 1)];
    assert d[..2] == [Entry(50, 1, 1, 2), Entry(100, 2, 2, 1)];
    assert d[..2][..1] == [Entry(50, 1, 1, 2)];
    assert LastAtMost(d, 51) == Some(0);
  }

  /** A leaf directory entry answers every tile after it. */
  lemma LeafDirectory()
    ensures FindTileSpec([Entry(100, 1, 1, 0)], 150) == Some(Entry(100, 1, 1, 0))
  {
  }
}
