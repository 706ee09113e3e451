/**
 * Bytes as the reader sees them: unsigned 8-bit values, the little-endian
 * integer a run of them denotes, and the DataView reads built on top.
 */
module Bytes {
  import opened Arith

  type byte = b: int | 0 <= b < 256

  /** The little-endian value of a byte string. */
  function LE(s: seq<byte>): nat
  {
    if |s| == 0 then 0 else s[0] + 256 * LE(s[1..])
  }

  /** The `width` low-order bytes of `v`, least significant first (what a store into a typed array writes). */
  function EncodeLE(v: nat, width: nat): (r: seq<byte>)
    ensures |r| == width
  {
    if width == 0 then [] else [v % 256] + EncodeLE(v / 256, width - 1)
  }

  lemma {:induction false} LEBound(s: seq<byte>)
    ensures LE(s) < Pow256(|s|)
  {
    if |s| > 0 {
      LEBound(s[1..]);
      assert LE(s) <= 255 + 256 * (Pow256(|s| - 1) - 1) by {
        MulMonotone(256, LE(s[1..]), Pow256(|s| - 1) - 1);
      }
    }
  }

  /** Writing `width` bytes and reading them back yields `v` reduced to that width. */
  lemma {:induction false} LEOfEncode(v: nat, width: nat)
    ensures LE(EncodeLE(v, width)) == v % Pow256(width)
  {
    if width > 0 {
      LEOfEncode(v / 256, width - 1);
      var e := EncodeLE(v, width);
      assert e[1..] == EncodeLE(v / 256, width - 1);
      ModMul(v, 256, Pow256(width - 1));
    }
  }

  /** Reading a byte string and writing it back at the same width reproduces it. */
  lemma {:induction false} EncodeOfLE(s: seq<byte>)
    ensures EncodeLE(LE(s), |s|) == s
  {
    if |s| > 0 {
      EncodeOfLE(s[1..]);
      var v := LE(s);
      DivModUnique(v, 256, LE(s[1..]), s[0]);
    }
  }

  lemma {:induction false} LEConcat(s: seq<byte>, t: seq<byte>)
    ensures LE(s + t) == LE(s) + Pow256(|s|) * LE(t)
  {
    if |s| > 0 {
      var a, p, l := LE(s[1..]), Pow256(|s| - 1), LE(t);
      assert LE(s + t) == s[0] + 256 * LE(s[1..] + t) by {
        assert (s + t)[0] == s[0];
        assert (s + t)[1..] == s[1..] + t;
      }
      LEConcat(s[1..], t);
      ScaleSum(256, a, p, l);
    } else {
      assert s + t == t;
    }
  }

  /** DataView.getUint8. */
  function GetUint8(view: seq<byte>, pos: nat): byte
    requires pos < |view|
  {
    view[pos]
  }

  /** DataView.getUint16 with the little-endian flag. */
  function GetUint16(view: seq<byte>, pos: nat): nat
    requires pos + 2 <= |view|
  {
    LE(view[pos..pos + 2])
  }

  /** DataView.getUint32 with the little-endian flag. */
  function GetUint32(view: seq<byte>, pos: nat): nat
    requires pos + 4 <= |view|
  {
    LE(view[pos..pos + 4])
  }

  /** Splits an aligned little-endian read into its low and high halves. */
  lemma SplitRead(view: seq<byte>, pos: nat, low: nat, high: nat)
    requires pos + low + high <= |view|
    ensures LE(view[pos..pos + low + high])
         == LE(view[pos..pos + low]) + Pow256(low) * LE(view[pos + low..pos + low + high])
  {
    assert view[pos..pos + low + high] == view[pos..pos + low] + view[pos + low..pos + low + high];
    LEConcat(view[pos..pos + low], view[pos + low..pos + low + high]);
  }

  /**
   * The 8-byte little-endian read: the high 32-bit word scaled by 2^32 plus the
   * low word, which is the little-endian value of all eight bytes.
   */
  function GetUint64(view: seq<byte>, pos: nat): (r: nat)
    requires pos + 8 <= |view|
    ensures r == LE(view[pos..pos + 8])
    ensures r < 0x1_0000_0000_0000_0000
  {
    SplitRead(view, pos, 4, 4);
    LEBound(view[pos..pos + 8]);
    assert Pow256(8) == 0x1_0000_0000_0000_0000;
    GetUint32(view, pos + 4) * 0x1_0000_0000 + GetUint32(view, pos)
  }

  /** A value stored with setBigUint64(…, true) reads back unchanged, in exact arithmetic. */
  lemma GetUint64RoundTrip(v: nat)
    requires v < 0x1_0000_0000_0000_0000
    ensures GetUint64(EncodeLE(v, 8), 0) == v
  {
    var e := EncodeLE(v, 8);
    assert e[0..8] == e;
    LEOfEncode(v, 8);
    assert Pow256(8) == 0x1_0000_0000_0000_0000;
  }

  /** The three values the reader's test stores and reads back. */
  lemma GetUint64Examples()
    ensures GetUint64(EncodeLE(0, 8), 0) == 0
    ensures GetUint64(EncodeLE(1, 8), 0) == 1
    ensures GetUint64(EncodeLE(9007199254740991, 8), 0) == 9007199254740991
  {
    GetUint64RoundTrip(0);
    GetUint64RoundTrip(1);
    GetUint64RoundTrip(9007199254740991);
  }
}
