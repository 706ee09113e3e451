/**
 * The legacy (version 2) directory: a run of 17-byte records, each a zoom byte
 * whose top bit marks a leaf directory, a 3-byte x, a 3-byte y, a 6-byte offset
 * and a 4-byte length, all little-endian, sorted so that lookups can bisect.
 */
module LegacyV2 {
  import opened Wrappers
  import opened Arith
  import opened Bytes

  /** Bytes per record. */
  const RecordSize: nat := 17

  /** An entry as the version 2 code handles it. */
  datatype EntryV2 = EntryV2(z: nat, x: nat, y: nat, offset: nat, length: nat, isDir: bool)

  datatype Zxy = Zxy(z: nat, x: nat, y: nat)

  /** What a record's bytes order by: the raw zoom byte, then x, then y. */
  datatype RecordKey = Key(zRaw: nat, x: nat, y: nat)

  /** An entry that fits its record: zoom below 128 and each field within its byte width. */
  predicate ValidEntry(e: EntryV2)
  {
    e.z < 128 && e.x < 0x100_0000 && e.y < 0x100_0000 &&
    e.offset < 0x1_0000_0000_0000 && e.length < 0x1_0000_0000
  }

  // ---------------------------------------------------------------------------
  // Reading
  // ---------------------------------------------------------------------------

  /** getUint24: the 16-bit word at pos + 1 shifted up by 8, plus the byte at pos. */
  function GetUint24(view: seq<byte>, pos: nat): (r: nat)
    requires pos + 3 <= |view|
    ensures r == LE(view[pos..pos + 3]) && r < 0x100_0000
  {
    SplitRead(view, pos, 1, 2);
    assert LE(view[pos..pos + 1]) == view[pos];
    LEBound(view[pos..pos + 3]);
    GetUint16(view, pos + 1) * 0x100 + GetUint8(view, pos)
  }

  /** getUint48: the 32-bit word at pos + 2 shifted up by 16, plus the 16-bit word at pos. */
  function GetUint48(view: seq<byte>, pos: nat): (r: nat)
    requires pos + 6 <= |view|
    ensures r == LE(view[pos..pos + 6]) && r < 0x1_0000_0000_0000
  {
    SplitRead(view, pos, 2, 4);
    LEBound(view[pos..pos + 6]);
    assert Pow256(2) == 0x1_0000 && Pow256(6) == 0x1_0000_0000_0000;
    GetUint32(view, pos + 2) * 0x1_0000 + GetUint16(view, pos)
  }

  /** z | 0x80: the zoom with its top bit set. */
  function Or128(z: nat): (r: nat)
    ensures z < 128 ==> r == z + 128
  {
    if (z / 128) % 2 == 1 then z else z + 128
  }

  /** The zoom byte a record stores: the zoom, with the top bit set for a leaf directory, truncated to 8 bits. */
  function ZByte(e: EntryV2): byte
  {
    (if e.isDir then Or128(e.z) else e.z) % 256
  }

  /** The key a record for e carries. */
  function KeyOf(e: EntryV2): RecordKey
  {
    Key(ZByte(e), e.x % 0x100_0000, e.y % 0x100_0000)
  }

  /** The key stored in the record at byte pos. */
  function KeyAt(view: seq<byte>, pos: nat): RecordKey
    requires pos + 7 <= |view|
  {
    Key(view[pos], GetUint24(view, pos + 1), GetUint24(view, pos + 4))
  }

  /** Lexicographic order of record keys. */
  predicate KeyLess(a: RecordKey, b: RecordKey)
  {
    a.zRaw < b.zRaw || (a.zRaw == b.zRaw && (a.x < b.x || (a.x == b.x && a.y < b.y)))
  }

  /** The number of whole records in a view. */
  function RecordCount(view: seq<byte>): (r: nat)
    ensures RecordSize * r <= |view| < RecordSize * r + RecordSize
  {
    |view| / RecordSize
  }

  /** The entry held by the 17 bytes at pos: the zoom is the low 7 bits, the top bit says leaf directory. */
  function ParseRecord(view: seq<byte>, pos: nat): (e: EntryV2)
    requires pos + RecordSize <= |view|
    ensures e.z < 128 && e.x < 0x100_0000 && e.y < 0x100_0000
    ensures e.offset < 0x1_0000_0000_0000 && e.length < 0x1_0000_0000
  {
    var zRaw := view[pos];
    LEBound(view[pos + 13..pos + 17]);
    assert Pow256(4) == 0x1_0000_0000;
    EntryV2(zRaw % 128, GetUint24(view, pos + 1), GetUint24(view, pos + 4),
            GetUint48(view, pos + 7), GetUint32(view, pos + 13), zRaw / 128 == 1)
  }

  /** parseEntry: the entry of record i. */
  function ParseEntry(view: seq<byte>, i: nat): (e: EntryV2)
    requires RecordSize * i + RecordSize <= |view|
    ensures ValidEntry(e)
  {
    ParseRecord(view, RecordSize * i)
  }

  // ---------------------------------------------------------------------------
  // Writing
  // ---------------------------------------------------------------------------

  /** The 17 bytes createDirectory writes for e. */
  function EncodeEntry(e: EntryV2): (r: seq<byte>)
    ensures |r| == RecordSize
  {
    [ZByte(e)] + EncodeLE(e.x, 3) + EncodeLE(e.y, 3) + EncodeLE(e.offset, 6) + EncodeLE(e.length, 4)
  }

  /** Where each field of an encoded record lies. */
  lemma EncodeEntryParts(e: EntryV2)
    ensures var r := EncodeEntry(e);
            && r[0] == ZByte(e)
            && r[1..4] == EncodeLE(e.x, 3)
            && r[4..7] == EncodeLE(e.y, 3)
            && r[7..13] == EncodeLE(e.offset, 6)
            && r[13..17] == EncodeLE(e.length, 4)
  {
    var a, b, c, d := EncodeLE(e.x, 3), EncodeLE(e.y, 3), EncodeLE(e.offset, 6), EncodeLE(e.length, 4);
    var r := EncodeEntry(e);
    assert r == [ZByte(e)] + a + b + c + d;
  }

  lemma SliceOfSlice(s: seq<byte>, a: nat, b: nat, c: nat, d: nat)
    requires a <= b <= |s| && c <= d <= b - a
    ensures s[a..b][c..d] == s[a + c..a + d]
  {
    assert forall k :: 0 <= k < d - c ==> s[a..b][c..d][k] == s[a + c..a + d][k];
  }

  /** A field written as width little-endian bytes of a value below 256^width reads back as that value. */
  lemma FieldRoundTrip(v: nat, width: nat)
    requires v < Pow256(width)
    ensures LE(EncodeLE(v, width)) == v
  {
    LEOfEncode(v, width);
    DivModUnique(v, Pow256(width), 0, v);
  }

  /** The zoom byte of an entry that fits: the zoom plus 128 for a leaf directory. */
  lemma ValidKey(e: EntryV2)
    requires ValidEntry(e)
    ensures ZByte(e) == e.z + (if e.isDir then 128 else 0)
    ensures ZByte(e) % 128 == e.z && (ZByte(e) / 128 == 1 <==> e.isDir)
    ensures KeyOf(e) == Key(e.z + (if e.isDir then 128 else 0), e.x, e.y)
  {
  }

  /** A record written for a valid entry parses back to that entry. */
  lemma RecordRoundTrip(view: seq<byte>, pos: nat, e: EntryV2)
    requires ValidEntry(e)
    requires pos + RecordSize <= |view| && view[pos..pos + RecordSize] == EncodeEntry(e)
    ensures ParseRecord(view, pos) == e
    ensures KeyAt(view, pos) == KeyOf(e)
  {
    EncodeEntryParts(e);
    assert view[pos] == view[pos..pos + RecordSize][0];
    assert Pow256(3) == 0x100_0000 && Pow256(4) == 0x1_0000_0000 && Pow256(6) == 0x1_0000_0000_0000;
    FieldAt(view, pos, 1, 3, e.x);
    FieldAt(view, pos, 4, 3, e.y);
    FieldAt(view, pos, 7, 6, e.offset);
    FieldAt(view, pos, 13, 4, e.length);
    ValidKey(e);
  }

  /** The field of width bytes at offset off of the record at pos, written for v, reads back as v. */
  lemma FieldAt(view: seq<byte>, pos: nat, off: nat, width: nat, v: nat)
    requires pos + RecordSize <= |view| && off + width <= RecordSize && v < Pow256(width)
    requires view[pos..pos + RecordSize][off..off + width] == EncodeLE(v, width)
    ensures LE(view[pos + off..pos + off + width]) == v
  {
    SliceOfSlice(view, pos, pos + RecordSize, off, off + width);
    FieldRoundTrip(v, width);
  }

  /** The bytes of a whole directory: the records of the entries, in order. */
  function Serialize(entries: seq<EntryV2>): (r: seq<byte>)
    ensures |r| == RecordSize * |entries|
  {
    if |entries| == 0 then [] else Serialize(entries[..|entries| - 1]) + EncodeEntry(entries[|entries| - 1])
  }

  /** Record i of a serialized directory is the encoding of entry i. */
  lemma {:induction false} SerializedRecord(entries: seq<EntryV2>, i: nat)
    requires i < |entries|
    ensures Serialize(entries)[RecordSize * i..RecordSize * i + RecordSize] == EncodeEntry(entries[i])
  {
    var n := |entries| - 1;
    var front := entries[..n];
    assert Serialize(entries) == Serialize(front) + EncodeEntry(entries[n]);
    if i < n {
      SerializedRecord(front, i);
      assert front[i] == entries[i];
    }
  }

  /** A serialized directory holds one whole record per entry. */
  lemma SerializedCount(entries: seq<EntryV2>)
    ensures RecordCount(Serialize(entries)) == |entries|
  {
    var n, r := |entries|, RecordCount(Serialize(entries));
    assert RecordSize * r <= RecordSize * n < RecordSize * r + RecordSize;
  }

  /** parseEntry reads back every entry createDirectory wrote, and the record keys are the entries' keys. */
  lemma ParseSerialized(entries: seq<EntryV2>, i: nat)
    requires i < |entries| && ValidEntry(entries[i])
    ensures RecordCount(Serialize(entries)) == |entries|
    ensures ParseEntry(Serialize(entries), i) == entries[i]
    ensures KeyAt(Serialize(entries), RecordSize * i) == KeyOf(entries[i])
  {
    SerializedCount(entries);
    SerializedRecord(entries, i);
    RecordRoundTrip(Serialize(entries), RecordSize * i, entries[i]);
  }

  // ---------------------------------------------------------------------------
  // Sorting
  // ---------------------------------------------------------------------------

  /** entrySort: tile entries before leaf directories, then by zoom, x and y. */
  function EntryBefore(a: EntryV2, b: EntryV2): (r: bool)
    ensures r ==> !SameKey(a, b)
    ensures a.isDir != b.isDir ==> (r <==> b.isDir)
  {
    (!a.isDir && b.isDir) ||
    (a.isDir == b.isDir && (a.z < b.z || (a.z == b.z && (a.x < b.x || (a.x == b.x && a.y < b.y)))))
  }

  /** The fields entrySort compares, most significant first: the directory flag, zoom, x and y. */
  function SortKey(e: EntryV2): seq<nat>
  {
    [if e.isDir then 1 else 0, e.z, e.x, e.y]
  }

  /** Lexicographic order on sequences of naturals of one length. */
  function LexLess(p: seq<nat>, q: seq<nat>): bool
    requires |p| == |q|
  {
    |p| > 0 && (p[0] < q[0] || (p[0] == q[0] && LexLess(p[1..], q[1..])))
  }

  /** entrySort is the lexicographic order of the sort keys. */
  lemma EntryBeforeLexicographic(a: EntryV2, b: EntryV2)
    ensures EntryBefore(a, b) <==> LexLess(SortKey(a), SortKey(b))
  {
    var p, q := SortKey(a), SortKey(b);
    assert p[1..] == [a.z, a.x, a.y] && q[1..] == [b.z, b.x, b.y];
    assert p[1..][1..] == [a.x, a.y] && q[1..][1..] == [b.x, b.y];
    assert p[1..][1..][1..] == [a.y] && q[1..][1..][1..] == [b.y];
    var ly := LexLess([a.y], [b.y]);
    assert ly == (a.y < b.y) by {
      var none: seq<nat> := [];
      assert [a.y][1..] == none && [b.y][1..] == none;
      assert !LexLess(none, none);
    }
    var lx := LexLess([a.x, a.y], [b.x, b.y]);
    assert lx == (a.x < b.x || (a.x == b.x && ly));
    var lz := LexLess([a.z, a.x, a.y], [b.z, b.x, b.y]);
    assert lz == (a.z < b.z || (a.z == b.z && lx));
    assert LexLess(p, q) == (p[0] < q[0] || (p[0] == q[0] && lz));
  }

  /** entrySort is a strict total order on keys: asymmetric, transitive, and comparing any two entries of different keys. */
  lemma EntryBeforeTotalOrder(a: EntryV2, b: EntryV2, c: EntryV2)
    ensures !(EntryBefore(a, b) && EntryBefore(b, a))
    ensures EntryBefore(a, b) && EntryBefore(b, c) ==> EntryBefore(a, c)
    ensures EntryBefore(a, b) || EntryBefore(b, a) || SameKey(a, b)
  {
  }

  /** Entries that entrySort ranks equal. */
  predicate SameKey(a: EntryV2, b: EntryV2)
  {
    a.isDir == b.isDir && a.z == b.z && a.x == b.x && a.y == b.y
  }

  ghost predicate SortedEntries(s: seq<EntryV2>)
  {
    forall i, j :: 0 <= i < j < |s| ==> !EntryBefore(s[j], s[i])
  }

  /** No two entries of m rank equal, and none occurs twice. */
  ghost predicate DistinctKeys(m: multiset<EntryV2>)
  {
    && (forall a :: a in m ==> m[a] == 1)
    && (forall a, b :: a in m && b in m && SameKey(a, b) ==> a == b)
  }

  /** Inserts e after every entry that does not rank after it (so equal entries keep their order). */
  function Insert(e: EntryV2, s: seq<EntryV2>): (r: seq<EntryV2>)
    ensures |r| == |s| + 1 && multiset(r) == multiset(s) + multiset{e}
  {
    if |s| == 0 then [e]
    else if EntryBefore(e, s[0]) then [e] + s
    else
      assert s == [s[0]] + s[1..];
      [s[0]] + Insert(e, s[1..])
  }

  lemma {:induction false} InsertSorted(e: EntryV2, s: seq<EntryV2>)
    requires SortedEntries(s)
    ensures SortedEntries(Insert(e, s))
  {
    if |s| > 0 && !EntryBefore(e, s[0]) {
      var t := Insert(e, s[1..]);
      InsertSorted(e, s[1..]);
      var r := Insert(e, s);
      assert r == [s[0]] + t;
      NothingBeforeHead(e, s);
      forall i, j | 0 <= i < j < |r|
        ensures !EntryBefore(r[j], r[i])
      {
        assert r[j] == t[j - 1];
        if i == 0 {
          assert t[j - 1] in multiset(t);
        } else {
          assert r[i] == t[i - 1];
        }
      }
    }
  }

  /** Inserting into the tail an entry that does not rank before the head leaves nothing ranking before the head. */
  lemma NothingBeforeHead(e: EntryV2, s: seq<EntryV2>)
    requires SortedEntries(s) && |s| > 0 && !EntryBefore(e, s[0])
    ensures forall x :: x in multiset(Insert(e, s[1..])) ==> !EntryBefore(x, s[0])
  {
    forall x | x in multiset(Insert(e, s[1..]))
      ensures !EntryBefore(x, s[0])
    {
      if x != e {
        assert x in multiset(s[1..]);
        var k :| 0 <= k < |s| - 1 && s[1..][k] == x;
        assert s[k + 1] == x;
      }
    }
  }

  /** The order createDirectory puts entries in: a stable insertion sort by entrySort. */
  function SortEntries(entries: seq<EntryV2>): (r: seq<EntryV2>)
    ensures |r| == |entries| && multiset(r) == multiset(entries)
  {
    if |entries| == 0 then []
    else
      var n := |entries| - 1;
      assert entries == entries[..n] + [entries[n]];
      Insert(entries[n], SortEntries(entries[..n]))
  }

  /** The sorted entries are in entrySort order. */
  lemma {:induction false} SortEntriesSorted(entries: seq<EntryV2>)
    ensures SortedEntries(SortEntries(entries))
  {
    if |entries| > 0 {
      var n := |entries| - 1;
      var prefix := SortEntries(entries[..n]);
      assert SortEntries(entries) == Insert(entries[n], prefix);
      SortEntriesSorted(entries[..n]);
      InsertSorted(entries[n], prefix);
    }
  }

  /** Two sorted arrangements of the same entries, no two ranking equal, start with the same entry. */
  lemma SortedHeadsEqual(a: seq<EntryV2>, b: seq<EntryV2>)
    requires SortedEntries(a) && SortedEntries(b) && |a| > 0
    requires multiset(a) == multiset(b) && DistinctKeys(multiset(a))
    ensures |b| > 0 && a[0] == b[0]
  {
    assert a[0] in multiset(b);
    var k :| 0 <= k < |b| && b[k] == a[0];
    assert b[0] in multiset(a);
    var l :| 0 <= l < |a| && a[l] == b[0];
    assert !EntryBefore(b[0], a[0]) by {
      if l > 0 {
        assert !EntryBefore(a[l], a[0]);
      }
    }
    assert !EntryBefore(a[0], b[0]) by {
      if k > 0 {
        assert !EntryBefore(b[k], b[0]);
      }
    }
  }

  /** Two sorted arrangements of the same entries, no two ranking equal, are the same sequence. */
  lemma {:induction false} SortedUnique(a: seq<EntryV2>, b: seq<EntryV2>)
    requires SortedEntries(a) && SortedEntries(b)
    requires multiset(a) == multiset(b) && DistinctKeys(multiset(a))
    ensures a == b
  {
    if |a| > 0 {
      SortedHeadsEqual(a, b);
      SortedTail(a);
      SortedTail(b);
      assert a == [a[0]] + a[1..] && b == [b[0]] + b[1..];
      assert multiset(a[1..]) == multiset(b[1..]) by {
        assert multiset(a) == multiset{a[0]} + multiset(a[1..]);
        assert multiset(b) == multiset{b[0]} + multiset(b[1..]);
        assert multiset(a[1..]) == multiset(a) - multiset{a[0]};
        assert multiset(b[1..]) == multiset(b) - multiset{b[0]};
      }
      DistinctKeysSub(multiset(a[1..]), multiset(a));
      SortedUnique(a[1..], b[1..]);
    } else {
      assert |b| == |multiset(b)| == 0;
    }
  }

  /** The tail of a sorted sequence is sorted. */
  lemma SortedTail(a: seq<EntryV2>)
    requires SortedEntries(a) && |a| > 0
    ensures SortedEntries(a[1..])
  {
    forall i, j | 0 <= i < j < |a| - 1
      ensures !EntryBefore(a[1..][j], a[1..][i])
    {
      assert a[1..][j] == a[j + 1] && a[1..][i] == a[i + 1];
    }
  }

  /** Part of a multiset of distinct keys has distinct keys. */
  lemma DistinctKeysSub(sub: multiset<EntryV2>, m: multiset<EntryV2>)
    requires sub <= m && DistinctKeys(m)
    ensures DistinctKeys(sub)
  {
  }

  /**
   * Lookups after createDirectory do not depend on the input order: permutations
   * of the same entries, no two ranking equal, are written as the same bytes.
   */
  lemma OrderIndependent(es1: seq<EntryV2>, es2: seq<EntryV2>)
    requires multiset(es1) == multiset(es2) && DistinctKeys(multiset(es1))
    ensures SortEntries(es1) == SortEntries(es2)
    ensures Serialize(SortEntries(es1)) == Serialize(SortEntries(es2))
  {
    SortEntriesSorted(es1);
    SortEntriesSorted(es2);
    SortedUnique(SortEntries(es1), SortEntries(es2));
  }

  /** For entries that fit their records, entrySort order is the order of the record keys. */
  lemma KeyOrder(a: EntryV2, b: EntryV2)
    requires ValidEntry(a) && ValidEntry(b)
    ensures EntryBefore(a, b) <==> KeyLess(KeyOf(a), KeyOf(b))
    ensures SameKey(a, b) <==> KeyOf(a) == KeyOf(b)
  {
  }

  /** Records whose keys never decrease: what the bisection of queryView needs. */
  ghost predicate SortedView(view: seq<byte>)
  {
    forall i, j :: 0 <= i < j < RecordCount(view) ==> !KeyLess(KeyAt(view, RecordSize * j), KeyAt(view, RecordSize * i))
  }

  /** Writing sorted valid entries yields records in key order. */
  lemma SerializedSorted(entries: seq<EntryV2>)
    requires SortedEntries(entries) && forall e :: e in entries ==> ValidEntry(e)
    ensures SortedView(Serialize(entries))
  {
    var view := Serialize(entries);
    forall i, j | 0 <= i < j < RecordCount(view)
      ensures !KeyLess(KeyAt(view, RecordSize * j), KeyAt(view, RecordSize * i))
    {
      ParseSerialized(entries, i);
      ParseSerialized(entries, j);
      KeyOrder(entries[j], entries[i]);
    }
  }

  /** Everything a reader can learn from a directory written from sorted, valid entries. */
  lemma WrittenDirectory(entries: seq<EntryV2>)
    requires SortedEntries(entries) && forall e :: e in entries ==> ValidEntry(e)
    ensures SortedView(Serialize(entries)) && RecordCount(Serialize(entries)) == |entries|
    ensures forall k :: 0 <= k < |entries| ==>
              ParseEntry(Serialize(entries), k) == entries[k] && KeyAt(Serialize(entries), RecordSize * k) == KeyOf(entries[k])
  {
    SerializedCount(entries);
    SerializedSorted(entries);
    forall k | 0 <= k < |entries|
      ensures ParseEntry(Serialize(entries), k) == entries[k] && KeyAt(Serialize(entries), RecordSize * k) == KeyOf(entries[k])
    {
      ParseSerialized(entries, k);
    }
  }

  /** In a directory written from sorted entries, an entry whose key no other entry shares is the one record carrying that key. */
  lemma UniqueKeyWritten(entries: seq<EntryV2>, i: nat)
    requires SortedEntries(entries) && forall e :: e in entries ==> ValidEntry(e)
    requires i < |entries| && forall j :: 0 <= j < |entries| && j != i ==> KeyOf(entries[j]) != KeyOf(entries[i])
    ensures SortedView(Serialize(entries)) && RecordCount(Serialize(entries)) == |entries|
    ensures forall k :: 0 <= k < |entries| ==> (KeyAt(Serialize(entries), RecordSize * k) == KeyOf(entries[i]) <==> k == i)
    ensures ParseEntry(Serialize(entries), i) == entries[i]
  {
    WrittenDirectory(entries);
  }

  /** A key that no entry carries is carried by no record of the written directory. */
  lemma AbsentKeyWritten(entries: seq<EntryV2>, key: RecordKey)
    requires SortedEntries(entries) && forall e :: e in entries ==> ValidEntry(e)
    requires forall j :: 0 <= j < |entries| ==> KeyOf(entries[j]) != key
    ensures SortedView(Serialize(entries))
    ensures forall k :: 0 <= k < RecordCount(Serialize(entries)) ==> KeyAt(Serialize(entries), RecordSize * k) != key
  {
    WrittenDirectory(entries);
  }

  /** The key of a record is the key of the entry it parses to. */
  lemma RecordKeyOfEntry(view: seq<byte>, k: nat)
    requires RecordSize * k + RecordSize <= |view|
    ensures KeyAt(view, RecordSize * k) == KeyOf(ParseEntry(view, k))
  {
    var zRaw := view[RecordSize * k];
    assert zRaw == zRaw % 128 + (if zRaw / 128 == 1 then 128 else 0);
    ValidKey(ParseEntry(view, k));
  }

  // ---------------------------------------------------------------------------
  // Lookup
  // ---------------------------------------------------------------------------

  /** compare: the sign of the search key against the key of the record at pos. */
  function Compare(tz: nat, tx: nat, ty: nat, view: seq<byte>, pos: nat): (r: int)
    requires pos + 7 <= |view|
    ensures r > 0 <==> KeyLess(KeyAt(view, pos), Key(tz, tx, ty))
    ensures r < 0 <==> KeyLess(Key(tz, tx, ty), KeyAt(view, pos))
    ensures r == 0 <==> KeyAt(view, pos) == Key(tz, tx, ty)
  {
    if tz != view[pos] then tz - view[pos]
    else if tx != GetUint24(view, pos + 1) then tx - GetUint24(view, pos + 1)
    else if ty != GetUint24(view, pos + 4) then ty - GetUint24(view, pos + 4)
    else 0
  }

  /**
   * queryView: bisects the records for the key (z, x, y) and answers the offset and
   * length of a record carrying it, or nothing when no record does.
   */
  method QueryView(view: seq<byte>, z: nat, x: nat, y: nat) returns (r: Option<(nat, nat)>)
    requires SortedView(view)
    ensures r.Some? ==> exists k :: 0 <= k < RecordCount(view) && KeyAt(view, RecordSize * k) == Key(z, x, y) &&
                                     r.value == (ParseEntry(view, k).offset, ParseEntry(view, k).length)
    ensures r.None? <==> forall k :: 0 <= k < RecordCount(view) ==> KeyAt(view, RecordSize * k) != Key(z, x, y)
  {
    var m: int := 0;
    var n: int := RecordCount(view) - 1;
    while m <= n
      invariant 0 <= m <= n + 1 <= RecordCount(view)
      invariant forall k :: 0 <= k < m ==> KeyLess(KeyAt(view, RecordSize * k), Key(z, x, y))
      invariant forall k :: n < k < RecordCount(view) ==> KeyLess(Key(z, x, y), KeyAt(view, RecordSize * k))
      decreases n - m
    {
      var k := (n + m) / 2;
      var cmp := Compare(z, x, y, view, RecordSize * k);
      if cmp > 0 {
        BelowProbe(view, Key(z, x, y), k);
        m := k + 1;
      } else if cmp < 0 {
        AboveProbe(view, Key(z, x, y), k);
        n := k - 1;
      } else {
        return Some((GetUint48(view, RecordSize * k + 7), GetUint32(view, RecordSize * k + 13)));
      }
    }
    return None;
  }

  /** In a sorted view, every record up to one whose key is below key has a key below key. */
  lemma BelowProbe(view: seq<byte>, key: RecordKey, k: nat)
    requires SortedView(view) && k < RecordCount(view) && KeyLess(KeyAt(view, RecordSize * k), key)
    ensures forall i :: 0 <= i <= k ==> KeyLess(KeyAt(view, RecordSize * i), key)
  {
    forall i | 0 <= i < k
      ensures KeyLess(KeyAt(view, RecordSize * i), key)
    {
      assert !KeyLess(KeyAt(view, RecordSize * k), KeyAt(view, RecordSize * i));
    }
  }

  /** In a sorted view, every record from one whose key is above key on has a key above key. */
  lemma AboveProbe(view: seq<byte>, key: RecordKey, k: nat)
    requires SortedView(view) && k < RecordCount(view) && KeyLess(key, KeyAt(view, RecordSize * k))
    ensures forall i :: k <= i < RecordCount(view) ==> KeyLess(key, KeyAt(view, RecordSize * i))
  {
    forall i | k < i < RecordCount(view)
      ensures KeyLess(key, KeyAt(view, RecordSize * i))
    {
      assert !KeyLess(KeyAt(view, RecordSize * i), KeyAt(view, RecordSize * k));
    }
  }

  /** queryTile: the tile entry for (z, x, y), looked up under the zoom byte z. */
  method QueryTile(view: seq<byte>, z: nat, x: nat, y: nat) returns (r: Option<EntryV2>)
    requires SortedView(view)
    ensures r.Some? ==> exists k :: 0 <= k < RecordCount(view) && KeyAt(view, RecordSize * k) == Key(z, x, y) &&
                                     r.value == EntryV2(z, x, y, ParseEntry(view, k).offset, ParseEntry(view, k).length, false)
    ensures r.None? <==> forall k :: 0 <= k < RecordCount(view) ==> KeyAt(view, RecordSize * k) != Key(z, x, y)
  {
    var found := QueryView(view, z, x, y);
    if found.Some? {
      return Some(EntryV2(z, x, y, found.value.0, found.value.1, false));
    }
    return None;
  }

  /** queryLeafdir: the leaf-directory entry for (z, x, y), looked up under the zoom byte z | 0x80. */
  method QueryLeafdir(view: seq<byte>, z: nat, x: nat, y: nat) returns (r: Option<EntryV2>)
    requires SortedView(view)
    ensures r.Some? ==> exists k :: 0 <= k < RecordCount(view) && KeyAt(view, RecordSize * k) == Key(Or128(z), x, y) &&
                                     r.value == EntryV2(z, x, y, ParseEntry(view, k).offset, ParseEntry(view, k).length, true)
    ensures r.None? <==> forall k :: 0 <= k < RecordCount(view) ==> KeyAt(view, RecordSize * k) != Key(Or128(z), x, y)
  {
    var found := QueryView(view, Or128(z), x, y);
    if found.Some? {
      return Some(EntryV2(z, x, y, found.value.0, found.value.1, true));
    }
    return None;
  }

  /** view is the directory createDirectory writes from the sorted, valid entries. */
  ghost predicate WrittenFrom(view: seq<byte>, entries: seq<EntryV2>)
  {
    SortedEntries(entries) && (forall e :: e in entries ==> ValidEntry(e)) && view == Serialize(entries)
  }

  /** No two entries rank equal under entrySort. */
  ghost predicate KeysDistinct(entries: seq<EntryV2>)
  {
    forall i, j :: 0 <= i < j < |entries| ==> !SameKey(entries[i], entries[j])
  }

  /** A tile written by createDirectory, under a key no other entry carries, is what queryTile answers for it. */
  method LookupTileWritten(view: seq<byte>, entries: seq<EntryV2>, i: nat) returns (r: Option<EntryV2>)
    requires WrittenFrom(view, entries) && KeysDistinct(entries) && i < |entries| && !entries[i].isDir
    ensures r == Some(entries[i])
  {
    var e := entries[i];
    ValidKey(e);
    DistinctRecordKeys(entries, i);
    UniqueKeyWritten(entries, i);
    r := QueryTile(view, e.z, e.x, e.y);
    var k :| 0 <= k < RecordCount(view) && KeyAt(view, RecordSize * k) == Key(e.z, e.x, e.y) &&
             r.value == EntryV2(e.z, e.x, e.y, ParseEntry(view, k).offset, ParseEntry(view, k).length, false);
    assert k == i;
  }

  /** A leaf directory written by createDirectory, under a key no other entry carries, is what queryLeafdir answers for it. */
  method LookupLeafdirWritten(view: seq<byte>, entries: seq<EntryV2>, i: nat) returns (r: Option<EntryV2>)
    requires WrittenFrom(view, entries) && KeysDistinct(entries) && i < |entries| && entries[i].isDir
    ensures r == Some(entries[i])
  {
    var e := entries[i];
    ValidKey(e);
    DistinctRecordKeys(entries, i);
    UniqueKeyWritten(entries, i);
    r := QueryLeafdir(view, e.z, e.x, e.y);
    var k :| 0 <= k < RecordCount(view) && KeyAt(view, RecordSize * k) == Key(Or128(e.z), e.x, e.y) &&
             r.value == EntryV2(e.z, e.x, e.y, ParseEntry(view, k).offset, ParseEntry(view, k).length, true);
    assert k == i;
  }

  /** Entries that rank differently carry different record keys. */
  lemma DistinctRecordKeys(entries: seq<EntryV2>, i: nat)
    requires (forall e :: e in entries ==> ValidEntry(e)) && KeysDistinct(entries) && i < |entries|
    ensures forall j :: 0 <= j < |entries| && j != i ==> KeyOf(entries[j]) != KeyOf(entries[i])
  {
    forall j | 0 <= j < |entries| && j != i
      ensures KeyOf(entries[j]) != KeyOf(entries[i])
    {
      assert !SameKey(entries[j], entries[i]) by {
        if j < i { assert !SameKey(entries[j], entries[i]); } else { assert !SameKey(entries[i], entries[j]); }
      }
      KeyOrder(entries[j], entries[i]);
    }
  }

  /**
   * Neither lookup answers a valid (z, x, y) that no entry of the written directory
   * carries: queryTile when no tile has it, queryLeafdir when no leaf directory has it.
   */
  method MissWritten(view: seq<byte>, entries: seq<EntryV2>, z: nat, x: nat, y: nat) returns (tile: Option<EntryV2>, leaf: Option<EntryV2>)
    requires WrittenFrom(view, entries) && ValidEntry(EntryV2(z, x, y, 0, 0, false))
    ensures (forall j :: 0 <= j < |entries| ==> !SameKey(entries[j], EntryV2(z, x, y, 0, 0, false))) ==> tile == None
    ensures (forall j :: 0 <= j < |entries| ==> !SameKey(entries[j], EntryV2(z, x, y, 0, 0, true))) ==> leaf == None
  {
    var t, d := EntryV2(z, x, y, 0, 0, false), EntryV2(z, x, y, 0, 0, true);
    ValidKey(t);
    ValidKey(d);
    forall j | 0 <= j < |entries|
      ensures SameKey(entries[j], t) <==> KeyOf(entries[j]) == Key(z, x, y)
      ensures SameKey(entries[j], d) <==> KeyOf(entries[j]) == Key(Or128(z), x, y)
    {
      KeyOrder(entries[j], t);
      KeyOrder(entries[j], d);
    }
    WrittenDirectory(entries);
    tile := QueryTile(view, z, x, y);
    leaf := QueryLeafdir(view, z, x, y);
  }

  // ---------------------------------------------------------------------------
  // Writing a directory
  // ---------------------------------------------------------------------------

  /** The bytes of a record, one by one; each `v >> 8k & 0xff` is the byte v / 256^k % 256. */
  lemma EncodeLE3(v: nat)
    ensures EncodeLE(v, 3) == [v % 256, v / 256 % 256, v / 256 / 256 % 256]
  {
    assert EncodeLE(v / 256 / 256, 1) == [v / 256 / 256 % 256];
  }

  lemma EncodeLE4(v: nat)
    ensures EncodeLE(v, 4) == [v % 256, v / 256 % 256, v / 256 / 256 % 256, v / 256 / 256 / 256 % 256]
  {
    EncodeLE3(v / 256);
  }

  lemma EncodeLE6(v: nat)
    ensures EncodeLE(v, 6) == [v % 256, v / 256 % 256, v / 256 / 256 % 256, v / 256 / 256 / 256 % 256,
                               v / 256 / 256 / 256 / 256 % 256, v / 256 / 256 / 256 / 256 / 256 % 256]
  {
    EncodeLE3(v / 256 / 256 / 256);
    assert EncodeLE(v / 256 / 256, 4) == [v / 256 / 256 % 256] + EncodeLE(v / 256 / 256 / 256, 3);
  }

  /** Writes v as 3 little-endian bytes at pos: `v & 0xff`, `v >> 8 & 0xff`, `v >> 16 & 0xff`. */
  method WriteUint24(buffer: array<byte>, pos: nat, v: nat)
    requires pos + 3 <= buffer.Length
    modifies buffer
    ensures forall i :: 0 <= i < pos ==> buffer[i] == old(buffer[i])
    ensures buffer[pos..pos + 3] == EncodeLE(v, 3)
    ensures forall i :: pos + 3 <= i < buffer.Length ==> buffer[i] == old(buffer[i])
  {
    buffer[pos] := v % 256;
    buffer[pos + 1] := v / 256 % 256;
    buffer[pos + 2] := v / 256 / 256 % 256;
    EncodeLE3(v);
  }

  /** Writes v as 4 little-endian bytes at pos. */
  method WriteUint32(buffer: array<byte>, pos: nat, v: nat)
    requires pos + 4 <= buffer.Length
    modifies buffer
    ensures forall i :: 0 <= i < pos ==> buffer[i] == old(buffer[i])
    ensures buffer[pos..pos + 4] == EncodeLE(v, 4)
    ensures forall i :: pos + 4 <= i < buffer.Length ==> buffer[i] == old(buffer[i])
  {
    buffer[pos] := v % 256;
    buffer[pos + 1] := v / 256 % 256;
    buffer[pos + 2] := v / 256 / 256 % 256;
    buffer[pos + 3] := v / 256 / 256 / 256 % 256;
    EncodeLE4(v);
  }

  /** Writes v as 6 little-endian bytes at pos: byte k is v divided by 256^k, modulo 256, exact for every natural v. */
  method WriteUint48(buffer: array<byte>, pos: nat, v: nat)
    requires pos + 6 <= buffer.Length
    modifies buffer
    ensures forall i :: 0 <= i < pos ==> buffer[i] == old(buffer[i])
    ensures buffer[pos..pos + 6] == EncodeLE(v, 6)
    ensures forall i :: pos + 6 <= i < buffer.Length ==> buffer[i] == old(buffer[i])
  {
    buffer[pos] := v % 256;
    buffer[pos + 1] := v / 256 % 256;
    buffer[pos + 2] := v / 256 / 256 % 256;
    buffer[pos + 3] := v / 256 / 256 / 256 % 256;
    buffer[pos + 4] := v / 256 / 256 / 256 / 256 % 256;
    buffer[pos + 5] := v / 256 / 256 / 256 / 256 / 256 % 256;
    EncodeLE6(v);
  }

  /** Fills the 17 bytes at base with the record of e, as the loop body of createDirectory does. */
  method WriteRecord(buffer: array<byte>, base: nat, e: EntryV2)
    requires base + RecordSize <= buffer.Length
    modifies buffer
    ensures forall i :: 0 <= i < base ==> buffer[i] == old(buffer[i])
    ensures buffer[base..base + RecordSize] == EncodeEntry(e)
    ensures forall i :: base + RecordSize <= i < buffer.Length ==> buffer[i] == old(buffer[i])
  {
    var z := if e.isDir then Or128(e.z) else e.z;
    buffer[base] := z % 256;
    WriteUint24(buffer, base + 1, e.x);
    ghost var x := buffer[base + 1..base + 4];
    WriteUint24(buffer, base + 4, e.y);
    ghost var y := buffer[base + 4..base + 7];
    assert buffer[base + 1..base + 4] == x;
    WriteUint48(buffer, base + 7, e.offset);
    ghost var offset := buffer[base + 7..base + 13];
    assert buffer[base + 1..base + 4] == x && buffer[base + 4..base + 7] == y;
    WriteUint32(buffer, base + 13, e.length);
    assert buffer[base + 1..base + 4] == x && buffer[base + 4..base + 7] == y && buffer[base + 7..base + 13] == offset;
    RecordParts(buffer[..], base);
  }

  /** The 17 bytes at base, cut where the record's fields meet. */
  lemma RecordParts(s: seq<byte>, base: nat)
    requires base + RecordSize <= |s|
    ensures s[base..base + RecordSize] ==
            [s[base]] + s[base + 1..base + 4] + s[base + 4..base + 7] + s[base + 7..base + 13] + s[base + 13..base + 17]
  {
  }

  /**
   * createDirectory: sorts the entries in place with entrySort, then writes one
   * 17-byte record per entry into a fresh buffer.
   */
  method CreateDirectory(entries: array<EntryV2>) returns (buffer: array<byte>)
    modifies entries
    ensures entries[..] == SortEntries(old(entries[..]))
    ensures fresh(buffer) && buffer[..] == Serialize(entries[..])
  {
    var sorted := SortEntries(entries[..]);
    var i := 0;
    while i < entries.Length
      invariant 0 <= i <= entries.Length
      invariant forall j :: 0 <= j < i ==> entries[j] == sorted[j]
    {
      entries[i] := sorted[i];
      i := i + 1;
    }
    assert entries[..] == sorted;
    buffer := WriteRecords(sorted);
  }

  /** The record-writing loop of createDirectory over the sorted entries. */
  method WriteRecords(entries: seq<EntryV2>) returns (buffer: array<byte>)
    ensures fresh(buffer) && buffer[..] == Serialize(entries)
  {
    buffer := new byte[RecordSize * |entries|];
    var k := 0;
    while k < |entries|
      invariant 0 <= k <= |entries| && buffer.Length == RecordSize * |entries|
      invariant buffer[..RecordSize * k] == Serialize(entries[..k])
    {
      ghost var written := buffer[..RecordSize * k];
      WriteRecord(buffer, RecordSize * k, entries[k]);
      assert buffer[..RecordSize * k] == written;
      assert buffer[..RecordSize * k + RecordSize] == buffer[..RecordSize * k] + buffer[RecordSize * k..RecordSize * k + RecordSize];
      assert entries[..k + 1][..k] == entries[..k];
      k := k + 1;
    }
    assert entries[..k] == entries;
    assert buffer[..RecordSize * k] == buffer[..];
  }

  /** createDirectory on a new array holding entries: the records of the entries in entrySort order. */
  method CreateDirectoryFrom(entries: seq<EntryV2>) returns (view: seq<byte>)
    ensures view == Serialize(SortEntries(entries))
  {
    var a := new EntryV2[|entries|](i requires 0 <= i < |entries| => entries[i]);
    assert a[..] == entries;
    var buffer := CreateDirectory(a);
    view := buffer[..];
  }

  // ---------------------------------------------------------------------------
  // Leaf level
  // ---------------------------------------------------------------------------

  /**
   * deriveLeaf: when the last record of the directory is a leaf directory, the
   * ancestor of tile at that leaf's zoom; JavaScript's `1 << d` is only modelled
   * for 0 <= d <= 30, and other level differences answer nothing.
   */
  function DeriveLeaf(view: seq<byte>, tile: Zxy): (r: Option<Zxy>)
    ensures r.Some? ==> && |view| >= RecordSize
                        && ParseRecord(view, |view| - RecordSize).isDir
                        && r.value.z == ParseRecord(view, |view| - RecordSize).z <= tile.z
                        && Pow2(tile.z - r.value.z) * r.value.x <= tile.x < Pow2(tile.z - r.value.z) * (r.value.x + 1)
                        && Pow2(tile.z - r.value.z) * r.value.y <= tile.y < Pow2(tile.z - r.value.z) * (r.value.y + 1)
    ensures r.Some? <==> && |view| >= RecordSize
                         && ParseRecord(view, |view| - RecordSize).isDir
                         && ParseRecord(view, |view| - RecordSize).z <= tile.z <= ParseRecord(view, |view| - RecordSize).z + 30
  {
    if |view| < RecordSize then None
    else
      var entry := ParseRecord(view, |view| - RecordSize);
      if !entry.isDir || tile.z < entry.z || tile.z - entry.z > 30 then None
      else
        var d := tile.z - entry.z;
        ShiftDownBounds(tile.x, d);
        ShiftDownBounds(tile.y, d);
        Some(Zxy(entry.z, ShiftDown(tile.x, d), ShiftDown(tile.y, d)))
  }

  /** v / 2^d rounded down (Math.trunc of a non-negative quotient), halving d times. */
  function ShiftDown(v: nat, d: nat): nat
  {
    if d == 0 then v else ShiftDown(v / 2, d - 1)
  }

  lemma Twice(p: int, r: int)
    ensures (2 * p) * r == 2 * (p * r)
  {
  }

  /** v lies in the d-th dyadic block numbered ShiftDown(v, d). */
  lemma {:induction false} ShiftDownBounds(v: nat, d: nat)
    ensures Pow2(d) * ShiftDown(v, d) <= v < Pow2(d) * (ShiftDown(v, d) + 1)
  {
    if d > 0 {
      var r, p := ShiftDown(v / 2, d - 1), Pow2(d - 1);
      assert ShiftDown(v, d) == r && Pow2(d) == 2 * p;
      ShiftDownBounds(v / 2, d - 1);
      var lo, hi := p * r, p * (r + 1);
      assert lo <= v / 2 < hi;
      Twice(p, r);
      Twice(p, r + 1);
    }
  }

  /** The trailing record deriveLeaf reads back from a written directory is the last entry written. */
  lemma LastRecordWritten(entries: seq<EntryV2>)
    requires |entries| > 0 && ValidEntry(entries[|entries| - 1])
    ensures |Serialize(entries)| >= RecordSize
    ensures ParseRecord(Serialize(entries), |Serialize(entries)| - RecordSize) == entries[|entries| - 1]
  {
    var n, view := |entries| - 1, Serialize(entries);
    assert |view| - RecordSize == RecordSize * n;
    ParseSerialized(entries, n);
  }

  lemma DeriveLeafFromLast(view: seq<byte>, tile: Zxy, last: EntryV2)
    requires |view| >= RecordSize && ParseRecord(view, |view| - RecordSize) == last
    ensures DeriveLeaf(view, tile) ==
              if !last.isDir || tile.z < last.z || tile.z - last.z > 30 then None
              else Some(Zxy(last.z, ShiftDown(tile.x, tile.z - last.z), ShiftDown(tile.y, tile.z - last.z)))
  {
  }

  /** Without a trailing leaf-directory record there is no leaf level. */
  lemma DeriveLeafNeedsDirectory(view: seq<byte>, tile: Zxy)
    requires |view| < RecordSize || !ParseRecord(view, |view| - RecordSize).isDir
    ensures DeriveLeaf(view, tile) == None
  {
  }

  // ---------------------------------------------------------------------------
  // The directories of the version 2 tests
  // ---------------------------------------------------------------------------

  /** The two entries of the lookup tests are already in entrySort order. */
  lemma TwoEntriesInOrder()
    ensures var input := [EntryV2(5, 1000, 2000, 1000, 2000, false), EntryV2(14, 16383, 16383, 999999, 999, false)];
            SortEntries(input) == input && SortedEntries(input) && KeysDistinct(input) &&
            forall e :: e in input ==> ValidEntry(e)
  {
    var input := [EntryV2(5, 1000, 2000, 1000, 2000, false), EntryV2(14, 16383, 16383, 999999, 999, false)];
    assert SortEntries(input) == input;
    SortEntriesSorted(input);
  }

  /** A single entry is trivially in entrySort order. */
  lemma OneEntryInOrder(e: EntryV2)
    ensures SortEntries([e]) == [e] && SortedEntries([e]) && KeysDistinct([e])
  {
    assert [e][..0] == [];
  }

  /** Record 1 of a two-entry directory holds zoom byte 14 and x = y = 16383, then offset and length. */
  method StubData() returns (zRaw: nat, x: nat, y: nat, offset: nat, length: nat)
    ensures zRaw == 14 && x == 16383 && y == 16383 && offset == 999999 && length == 999
  {
    var input := [EntryV2(5, 1000, 2000, 1000, 2000, false), EntryV2(14, 16383, 16383, 999999, 999, false)];
    TwoEntriesInOrder();
    var view := CreateDirectoryFrom(input);
    SerializedRecord(input, 1);
    RecordRoundTrip(view, RecordSize, input[1]);
    zRaw := view[RecordSize + 0];
    x := GetUint24(view, RecordSize + 1);
    y := GetUint24(view, RecordSize + 4);
    offset := GetUint48(view, RecordSize + 7);
    length := GetUint32(view, RecordSize + 13);
  }

  /** A tile entry is found by queryTile with its offset and length, and not by queryLeafdir. */
  method GetEntry() returns (tile: Option<EntryV2>, leaf: Option<EntryV2>)
    ensures tile == Some(EntryV2(14, 16383, 16383, 999999, 999, false))
    ensures leaf == None
  {
    var input := [EntryV2(5, 1000, 2000, 1000, 2000, false), EntryV2(14, 16383, 16383, 999999, 999, false)];
    TwoEntriesInOrder();
    var view := CreateDirectoryFrom(input);
    tile := LookupTileWritten(view, input, 1);
    var _, miss := MissWritten(view, input, 14, 16383, 16383);
    leaf := miss;
  }

  /** A leaf-directory entry is found by queryLeafdir with its offset and length, and not by queryTile. */
  method GetLeafdir() returns (leaf: Option<EntryV2>, tile: Option<EntryV2>)
    ensures leaf == Some(EntryV2(14, 16383, 16383, 999999, 999, true))
    ensures tile == None
  {
    var e := EntryV2(14, 16383, 16383, 999999, 999, true);
    OneEntryInOrder(e);
    var view := CreateDirectoryFrom([e]);
    leaf := LookupLeafdirWritten(view, [e], 0);
    var miss, _ := MissWritten(view, [e], 14, 16383, 16383);
    tile := miss;
  }

  /**
   * Tile (7, 6, 6) under a directory whose last record is a leaf directory at
   * (6, 3, 3) derives leaf (6, 3, 3); when that record is a tile there is none.
   */
  method DeriveTheLeafLevel() returns (leaf: Option<Zxy>, none: Option<Zxy>)
    ensures leaf == Some(Zxy(6, 3, 3))
    ensures none == None
  {
    var dir, tile := EntryV2(6, 3, 3, 0, 0, true), EntryV2(6, 3, 3, 0, 0, false);
    OneEntryInOrder(dir);
    OneEntryInOrder(tile);
    var dirView := CreateDirectoryFrom([dir]);
    var tileView := CreateDirectoryFrom([tile]);
    LastRecordWritten([dir]);
    LastRecordWritten([tile]);
    DeriveLeafFromLast(dirView, Zxy(7, 6, 6), dir);
    DeriveLeafFromLast(tileView, Zxy(7, 6, 6), tile);
    assert ShiftDown(6, 1) == 3;
    leaf := DeriveLeaf(dirView, Zxy(7, 6, 6));
    none := DeriveLeaf(tileView, Zxy(7, 6, 6));
  }

  /** entrySort orders (7,3,3) leaf, (6,2,2) and (6,2,1) as (6,2,1), (6,2,2), then the leaf (7,3,3). */
  lemma ConvertV1Order()
    ensures SortEntries([EntryV2(7, 3, 3, 3, 3, true), EntryV2(6, 2, 2, 2, 2, false), EntryV2(6, 2, 1, 1, 1, false)]) ==
            [EntryV2(6, 2, 1, 1, 1, false), EntryV2(6, 2, 2, 2, 2, false), EntryV2(7, 3, 3, 3, 3, true)]
  {
    var input := [EntryV2(7, 3, 3, 3, 3, true), EntryV2(6, 2, 2, 2, 2, false), EntryV2(6, 2, 1, 1, 1, false)];
    assert input[..2][..1] == [EntryV2(7, 3, 3, 3, 3, true)];
    assert input[..2] == [EntryV2(7, 3, 3, 3, 3, true), EntryV2(6, 2, 2, 2, 2, false)];
    assert SortEntries(input[..2]) == [EntryV2(6, 2, 2, 2, 2, false), EntryV2(7, 3, 3, 3, 3, true)];
  }

  /** The converted entries, in that order, are sorted, valid and rank pairwise differently. */
  lemma ConvertV1Keys(sorted: seq<EntryV2>)
    requires sorted == [EntryV2(6, 2, 1, 1, 1, false), EntryV2(6, 2, 2, 2, 2, false), EntryV2(7, 3, 3, 3, 3, true)]
    ensures SortedEntries(sorted) && KeysDistinct(sorted) && forall e :: e in sorted ==> ValidEntry(e)
  {
  }

  /**
   * In the directory createDirectory writes from those entries every lookup answers
   * the offset written for its key, and parseEntry reads offsets 1, 2, 3 in record order.
   */
  method ConvertV1Directory() returns (leaf: Option<EntryV2>, tile22: Option<EntryV2>, tile21: Option<EntryV2>, parsed: seq<nat>)
    ensures leaf.Some? && leaf.value.offset == 3
    ensures tile22.Some? && tile22.value.offset == 2
    ensures tile21.Some? && tile21.value.offset == 1
    ensures parsed == [1, 2, 3]
  {
    var input := [EntryV2(7, 3, 3, 3, 3, true), EntryV2(6, 2, 2, 2, 2, false), EntryV2(6, 2, 1, 1, 1, false)];
    var sorted := [EntryV2(6, 2, 1, 1, 1, false), EntryV2(6, 2, 2, 2, 2, false), EntryV2(7, 3, 3, 3, 3, true)];
    ConvertV1Order();
    ConvertV1Keys(sorted);
    var view := CreateDirectoryFrom(input);
    leaf := LookupLeafdirWritten(view, sorted, 2);
    tile22 := LookupTileWritten(view, sorted, 1);
    tile21 := LookupTileWritten(view, sorted, 0);
    ParseSerialized(sorted, 0);
    ParseSerialized(sorted, 1);
    ParseSerialized(sorted, 2);
    parsed := [ParseEntry(view, 0).offset, ParseEntry(view, 1).offset, ParseEntry(view, 2).offset];
  }
}
