/**
 * readVarint: the base-128 little-endian variable-length integers of the
 * directory encoding (unsigned LEB128), read through a cursor that advances
 * in place. At most ten bytes are read; the tenth contributes only its lowest
 * bit, so the value always fits in 64 bits.
 */
module Varint {
  import opened Arith
  import opened Bytes
  import opened Wrappers

  /** The longest varint the reader accepts. */
  const MaxVarintBytes: nat := 10

  datatype VarintError = TooLong  // no terminating byte among the first ten

  function Pow128(n: nat): (r: nat)
    ensures r >= 1
  {
    if n == 0 then 1 else 128 * Pow128(n - 1)
  }

  /**
   * What the reader sees at index i: the byte, or past the end of the buffer a value
   * that behaves like the undefined element a typed array yields there: its low seven
   * bits are zero and it does not compare below 0x80.
   */
  function ByteAt(buf: seq<byte>, i: nat): nat
  {
    if i < |buf| then buf[i] else 0x80
  }

  /** The payload the reader takes from the j-th byte: seven bits, and one bit of the tenth. */
  function Digit(b: nat, j: nat): nat
  {
    if j == MaxVarintBytes - 1 then b % 2 else b % 128
  }

  /** The index, counted from pos and at least k, of the first byte below 0x80 among the first ten. */
  function Terminator(buf: seq<byte>, pos: nat, k: nat): (r: Option<nat>)
    ensures r.Some? ==> k <= r.value < MaxVarintBytes && ByteAt(buf, pos + r.value) < 0x80
    decreases MaxVarintBytes - k
  {
    if k >= MaxVarintBytes then None
    else if ByteAt(buf, pos + k) < 0x80 then Some(k)
    else Terminator(buf, pos, k + 1)
  }

  /** The value of the payloads of bytes j to n - 1 of the varint at pos, least significant first. */
  function Leb(buf: seq<byte>, pos: nat, j: nat, n: nat): nat
    decreases n - j
  {
    if j >= n then 0 else Digit(ByteAt(buf, pos + j), j) + 128 * Leb(buf, pos, j + 1, n)
  }

  /** The varint at pos: its value and the position after it, or the error the reader throws. */
  function VarintAt(buf: seq<byte>, pos: nat): Result<(nat, nat), VarintError>
  {
    match Terminator(buf, pos, 0)
    case None => Err(TooLong)
    case Some(k) => Ok((Leb(buf, pos, 0, k + 1), pos + k + 1))
  }

  /** The encoding a writer produces: seven bits per byte, the high bit set on every byte but the last. */
  function EncodeVarint(v: nat): (e: seq<byte>)
    ensures |e| >= 1
    decreases v
  {
    if v < 128 then [v] else [128 + v % 128] + EncodeVarint(v / 128)
  }

  /** The largest value plus one that bytes j onwards can hold: 2^64 from the first byte. */
  function Capacity(j: nat): (c: nat)
    ensures c >= 1
    decreases MaxVarintBytes - j
  {
    if j >= MaxVarintBytes then 1
    else if j == MaxVarintBytes - 1 then 2
    else 128 * Capacity(j + 1)
  }

  lemma CapacityOfVarint()
    ensures Capacity(0) == 0x1_0000_0000_0000_0000
  {
  }

  lemma {:induction false} LebBound(buf: seq<byte>, pos: nat, j: nat, n: nat)
    requires n <= MaxVarintBytes
    ensures Leb(buf, pos, j, n) < Capacity(j)
    decreases n - j
  {
    if j < n {
      LebBound(buf, pos, j + 1, n);
    }
  }

  /** Whatever the bytes, a value the reader returns fits in 64 bits. */
  lemma VarintBelow2To64(buf: seq<byte>, pos: nat)
    ensures VarintAt(buf, pos).Ok? ==> VarintAt(buf, pos).value.0 < 0x1_0000_0000_0000_0000
    ensures VarintAt(buf, pos).Ok? ==> pos < VarintAt(buf, pos).value.1 <= pos + MaxVarintBytes
  {
    match Terminator(buf, pos, 0)
    case None =>
    case Some(k) =>
      LebBound(buf, pos, 0, k + 1);
      CapacityOfVarint();
  }

  /** Adding the payload of byte n at its weight extends the value by one byte. */
  lemma {:induction false} LebSnoc(buf: seq<byte>, pos: nat, j: nat, n: nat)
    requires j <= n
    ensures Leb(buf, pos, j, n + 1) == Leb(buf, pos, j, n) + Digit(ByteAt(buf, pos + n), n) * Pow128(n - j)
    decreases n - j
  {
    if j < n {
      LebSnoc(buf, pos, j + 1, n);
      var a, d, t := Leb(buf, pos, j + 1, n), Digit(ByteAt(buf, pos + n), n), Pow128(n - j - 1);
      assert Leb(buf, pos, j, n + 1) == Digit(ByteAt(buf, pos + j), j) + 128 * (a + d * t);
      assert 128 * (a + d * t) == 128 * a + d * Pow128(n - j) by {
        ScaleSum(128, a, d, t);
        assert Pow128(n - j) == 128 * t;
        MulShift(d, t);
      }
    }
  }

  lemma MulShift(d: int, t: int)
    ensures (128 * d) * t == d * (128 * t)
  {
  }

  /** The encoding of a value below Capacity(j) fits in the bytes from j to the tenth. */
  lemma {:induction false} EncodeFits(j: nat, v: nat)
    requires j < MaxVarintBytes && v < Capacity(j)
    ensures j + |EncodeVarint(v)| <= MaxVarintBytes
    ensures v >= 128 ==> j + 1 < MaxVarintBytes && v / 128 < Capacity(j + 1)
    decreases v
  {
    if v >= 128 {
      var c := Capacity(j + 1);
      assert j + 1 < MaxVarintBytes && Capacity(j) == 128 * c;
      EncodeFits(j + 1, v / 128);
    }
  }

  /** The bytes after the first of an encoding sit one position further on. */
  lemma EncodeTail(buf: seq<byte>, pos: nat, j: nat, v: nat)
    requires v >= 128 && pos + j + |EncodeVarint(v)| <= |buf|
    requires buf[pos + j..pos + j + |EncodeVarint(v)|] == EncodeVarint(v)
    ensures ByteAt(buf, pos + j) == 128 + v % 128
    ensures var rest := EncodeVarint(v / 128);
            |EncodeVarint(v)| == 1 + |rest| && buf[pos + j + 1..pos + j + 1 + |rest|] == rest
  {
    var e, rest := EncodeVarint(v), EncodeVarint(v / 128);
    assert e == [128 + v % 128] + rest;
    assert ByteAt(buf, pos + j) == e[0];
    assert buf[pos + j + 1..pos + j + 1 + |rest|] == e[1..];
  }

  /** The first byte below 0x80 at or after byte j is the last byte of the encoding placed there. */
  lemma {:induction false} EncodeTerminates(buf: seq<byte>, pos: nat, j: nat, v: nat)
    requires j < MaxVarintBytes && v < Capacity(j)
    requires pos + j + |EncodeVarint(v)| <= |buf|
    requires buf[pos + j..pos + j + |EncodeVarint(v)|] == EncodeVarint(v)
    ensures Terminator(buf, pos, j) == Some(j + |EncodeVarint(v)| - 1)
    decreases v
  {
    EncodeFits(j, v);
    if v >= 128 {
      EncodeTail(buf, pos, j, v);
      EncodeTerminates(buf, pos, j + 1, v / 128);
    } else {
      assert ByteAt(buf, pos + j) == EncodeVarint(v)[0];
    }
  }

  /** The payloads of the encoding placed at byte j add up to v. */
  lemma {:induction false} EncodeValue(buf: seq<byte>, pos: nat, j: nat, v: nat)
    requires j < MaxVarintBytes && v < Capacity(j)
    requires pos + j + |EncodeVarint(v)| <= |buf|
    requires buf[pos + j..pos + j + |EncodeVarint(v)|] == EncodeVarint(v)
    ensures Leb(buf, pos, j, j + |EncodeVarint(v)|) == v
    decreases v
  {
    EncodeFits(j, v);
    var n := j + |EncodeVarint(v)|;
    if v >= 128 {
      EncodeTail(buf, pos, j, v);
      EncodeValue(buf, pos, j + 1, v / 128);
      LebStep(buf, pos, j, n, v);
    } else {
      assert ByteAt(buf, pos + j) == EncodeVarint(v)[0];
      LebLast(buf, pos, j, v);
    }
  }

  /** A continuation byte carrying v % 128, followed by bytes worth v / 128, is worth v. */
  lemma LebStep(buf: seq<byte>, pos: nat, j: nat, n: nat, v: nat)
    requires j + 1 < MaxVarintBytes && j < n
    requires ByteAt(buf, pos + j) == 128 + v % 128
    requires Leb(buf, pos, j + 1, n) == v / 128
    ensures Leb(buf, pos, j, n) == v
  {
    assert Digit(128 + v % 128, j) == v % 128;
  }

  /** A final byte v below 128 (below 2 in the tenth place) is worth v. */
  lemma LebLast(buf: seq<byte>, pos: nat, j: nat, v: nat)
    requires j < MaxVarintBytes && v < 128 && v < Capacity(j)
    requires ByteAt(buf, pos + j) == v
    ensures Leb(buf, pos, j, j + 1) == v
  {
    assert Digit(v, j) == v;
  }

  /** Round trip: the reader decodes every 64-bit value from its encoding, wherever it sits in the buffer. */
  lemma VarintRoundTrip(before: seq<byte>, v: nat, after: seq<byte>)
    requires v < 0x1_0000_0000_0000_0000
    ensures |EncodeVarint(v)| <= MaxVarintBytes
    ensures var r := VarintAt(before + EncodeVarint(v) + after, |before|);
            r.Ok? && r.value.0 == v && r.value.1 == |before| + |EncodeVarint(v)|
  {
    var e := EncodeVarint(v);
    var buf := before + e + after;
    assert buf[|before|..|before| + |e|] == e;
    CapacityOfVarint();
    EncodeFits(0, v);
    EncodeTerminates(buf, |before|, 0, v);
    EncodeValue(buf, |before|, 0, v);
  }

  lemma {:induction false} NoTerminator(buf: seq<byte>, pos: nat, k: nat)
    requires forall i :: pos <= i < |buf| ==> buf[i] >= 0x80
    ensures Terminator(buf, pos, k) == None
    decreases MaxVarintBytes - k
  {
    if k < MaxVarintBytes {
      NoTerminator(buf, pos, k + 1);
    }
  }

  /** A varint that the end of the buffer cuts short, or that runs on for ten bytes, is rejected. */
  lemma UnterminatedRejected(buf: seq<byte>, pos: nat)
    requires forall i :: pos <= i < |buf| ==> buf[i] >= 0x80
    ensures VarintAt(buf, pos) == Err(TooLong)
  {
    NoTerminator(buf, pos, 0);
  }

  /** The reader's test buffer: one-byte values 0, 1 and 127, then 624485 in three bytes. */
  lemma SmallVarints()
    ensures var buf: seq<byte> := [0, 1, 127, 0xe5, 0x8e, 0x26];
            && VarintAt(buf, 0).Ok? && VarintAt(buf, 0).value == (0, 1)
            && VarintAt(buf, 1).Ok? && VarintAt(buf, 1).value == (1, 2)
            && VarintAt(buf, 2).Ok? && VarintAt(buf, 2).value == (127, 3)
            && VarintAt(buf, 3).Ok? && VarintAt(buf, 3).value == (624485, 6)
  {
  }

  /** Seven 0xff bytes and then 0x0f hold the largest safe integer, 2^53 - 1. */
  lemma MaxSafeVarint()
    ensures var buf: seq<byte> := [0xff, 0xff, 0xff, 0xff, 0xff, 0xff, 0xff, 0x0f];
            VarintAt(buf, 0).Ok? && VarintAt(buf, 0).value == (9007199254740991, 8)
  {
  }

  /** A cursor over a byte buffer: the buffer never changes, the position advances as values are read. */
  class BufferPosition {
    const buf: seq<byte>
    var pos: nat

    constructor(buf: seq<byte>, pos: nat)
      ensures this.buf == buf && this.pos == pos
    {
      this.buf := buf;
      this.pos := pos;
    }

    /**
     * readVarint: takes one byte at a time, adding its payload at the next seven-bit
     * weight, until a byte below 0x80 ends the value; the tenth byte without an end
     * is an error. The position moves past every byte taken.
     */
    method ReadVarint() returns (r: Result<nat, VarintError>)
      modifies this
      ensures r.Ok? == VarintAt(buf, old(pos)).Ok?
      ensures r.Ok? ==> r.value == VarintAt(buf, old(pos)).value.0 && pos == VarintAt(buf, old(pos)).value.1
      ensures r.Err? ==> r.error == TooLong && pos == old(pos) + MaxVarintBytes
    {
      ghost var start := pos;
      var val: int := 0;
      var shift: int := 1;
      var i: nat := 0;
      while i < MaxVarintBytes
        invariant i <= MaxVarintBytes && pos == start + i
        invariant Terminator(buf, start, 0) == Terminator(buf, start, i)
        invariant val == Leb(buf, start, 0, i) && shift == Pow128(i)
        decreases MaxVarintBytes - i
      {
        var b: nat := if pos < |buf| then buf[pos] else 0x80;
        pos := pos + 1;
        var digit := if i == MaxVarintBytes - 1 then b % 2 else b % 128;
        ReadStep(buf, start, i, b, digit, val, shift);
        val := val + digit * shift;
        if b < 0x80 {
          return Ok(val);
        }
        shift := shift * 128;
        i := i + 1;
      }
      return Err(TooLong);
    }
  }

  /** One byte of readVarint, in the shape the reader computes it, against the definition. */
  lemma ReadStep(buf: seq<byte>, start: nat, i: nat, b: nat, digit: nat, val: int, shift: int)
    requires i < MaxVarintBytes && b == ByteAt(buf, start + i)
    requires digit == Digit(b, i) && val == Leb(buf, start, 0, i) && shift == Pow128(i)
    requires Terminator(buf, start, 0) == Terminator(buf, start, i)
    ensures val + digit * shift == Leb(buf, start, 0, i + 1) && shift * 128 == Pow128(i + 1)
    ensures b < 0x80 ==> VarintAt(buf, start).Ok? && VarintAt(buf, start).value == (val + digit * shift, start + i + 1)
    ensures b >= 0x80 ==> Terminator(buf, start, 0) == Terminator(buf, start, i + 1)
    ensures b >= 0x80 && i + 1 == MaxVarintBytes ==> VarintAt(buf, start).Err?
  {
    LebSnoc(buf, start, 0, i);
  }

  /** The reader's test: four values read in turn from one cursor, each moving it past its own bytes. */
  method ReadTestBuffer() returns (values: seq<nat>, positions: seq<nat>)
    ensures values == [0, 1, 127, 624485] && positions == [1, 2, 3, 6]
  {
    var b := new BufferPosition([0, 1, 127, 0xe5, 0x8e, 0x26], 0);
    SmallVarints();
    var r0 := b.ReadVarint();
    var p0 := b.pos;
    var r1 := b.ReadVarint();
    var p1 := b.pos;
    var r2 := b.ReadVarint();
    var p2 := b.pos;
    var r3 := b.ReadVarint();
    var p3 := b.pos;
    values := [r0.value, r1.value, r2.value, r3.value];
    positions := [p0, p1, p2, p3];
  }
}
