/** The circular buffer helpers arm_circularWrite_* and arm_circularRead_*, which
    differ only in the sample type T. Offsets wrap by one subtraction, the
    destination pointer by an equality test. */
module CircularBuffer {
  import opened Bits

  // ----- offsets -----

  /** One update of wOffset or rOffset. */
  function Advance(offset: int, inc: int, L: int): int {
    if offset + inc >= L then offset + inc - L else offset + inc
  }

  /** The offset after k updates. */
  function Offset(start: int, inc: int, L: int, k: nat): int {
    if k == 0 then start else Advance(Offset(start, inc, L, k - 1), inc, L)
  }

  /** The destination index after k updates: back to the base exactly when the
      end pointer is hit. */
  function DstIndex(start: int, inc: int, length: int, k: nat): int {
    if k == 0 then start
    else
      var p := DstIndex(start, inc, length, k - 1) + inc;
      if p == length then 0 else p
  }

  /** The first n buffer accesses are inside a buffer of the given size. */
  ghost predicate OffsetsInside(start: int, inc: int, L: int, n: nat, size: nat) {
    forall k :: 0 <= k < n ==> 0 <= Offset(start, inc, L, k) < size
  }

  ghost predicate DstInside(start: int, inc: int, length: int, n: nat, size: nat) {
    forall k :: 0 <= k < n ==> 0 <= DstIndex(start, inc, length, k) < size
  }

  // ----- write -----

  /** The buffer after storing a block from the given offset on. */
  ghost function Written<T>(buf: seq<T>, L: int, start: int, inc: int, block: seq<T>): (r: seq<T>)
    requires OffsetsInside(start, inc, L, |block|, |buf|)
    ensures |r| == |buf|
  {
    if block == [] then buf
    else
      var n := |block| - 1;
      Written(buf, L, start, inc, block[..n])[Offset(start, inc, L, n) := block[n]]
  }

  /** The n samples at src, src + srcInc, src + 2 * srcInc, ... */
  ghost function Samples<T>(src: seq<T>, first: int, srcInc: int, n: nat): (r: seq<T>)
    requires forall k :: 0 <= k < n ==> 0 <= first + k * srcInc < |src|
    ensures |r| == n
    ensures forall k :: 0 <= k < n ==> r[k] == src[first + k * srcInc]
  {
    if n == 0 then [] else Samples(src, first, srcInc, n - 1) + [src[first + (n - 1) * srcInc]]
  }

  lemma WrittenNothing<T>(buf: seq<T>, L: int, start: int, inc: int, block: seq<T>)
    ensures Written(buf, L, start, inc, block[..0]) == buf
  {
  }

  lemma WriteOne<T>(buf: seq<T>, L: int, start: int, inc: int, block: seq<T>, k: nat)
    requires k < |block| && OffsetsInside(start, inc, L, |block|, |buf|)
    ensures Written(buf, L, start, inc, block[..k + 1])
         == Written(buf, L, start, inc, block[..k])[Offset(start, inc, L, k) := block[k]]
  {
    assert block[..k + 1][..k] == block[..k];
  }

  method CircularWrite<T>(circBuffer: array<T>, L: int, writeOffset: nat, bufferInc: int,
                          src: seq<T>, first: int, srcInc: int, blockSize: nat)
    returns (newOffset: nat)
    requires writeOffset < 0x1_0000
    requires OffsetsInside(writeOffset, bufferInc, L, blockSize, circBuffer.Length)
    requires forall k :: 0 <= k < blockSize ==> 0 <= first + k * srcInc < |src|
    modifies circBuffer
    ensures circBuffer[..] == Written(old(circBuffer[..]), L, writeOffset, bufferInc,
                                      Samples(src, first, srcInc, blockSize))
    ensures newOffset == Offset(writeOffset, bufferInc, L, blockSize) % 0x1_0000
  {
    hide Written;
    var wOffset: int := writeOffset;
    var p := first;
    var i := blockSize;
    ghost var was := circBuffer[..];
    ghost var block := Samples(src, first, srcInc, blockSize);
    WrittenNothing(was, L, writeOffset, bufferInc, block);
    while i > 0
      invariant 0 <= i <= blockSize
      invariant wOffset == Offset(writeOffset, bufferInc, L, blockSize - i)
      invariant p == first + (blockSize - i) * srcInc
      invariant circBuffer[..] == Written(was, L, writeOffset, bufferInc, block[..blockSize - i])
    {
      ghost var k := blockSize - i;
      WriteOne(was, L, writeOffset, bufferInc, block, k);
      assert src[p] == block[k];
      circBuffer[wOffset] := src[p];
      p := p + srcInc;
      wOffset := wOffset + bufferInc;
      if wOffset >= L {
        wOffset := wOffset - L;
      }
      i := i - 1;
      assert (k + 1) * srcInc == k * srcInc + srcInc;
    }
    assert block[..blockSize] == block;
    newOffset := wOffset % 0x1_0000;
  }

  // ----- read -----

  /** The n samples read from the given offset on. */
  ghost function Gathered<T>(buf: seq<T>, L: int, start: int, inc: int, n: nat): (r: seq<T>)
    requires OffsetsInside(start, inc, L, n, |buf|)
    ensures |r| == n
    ensures forall k :: 0 <= k < n ==> r[k] == buf[Offset(start, inc, L, k)]
  {
    if n == 0 then [] else Gathered(buf, L, start, inc, n - 1) + [buf[Offset(start, inc, L, n - 1)]]
  }

  /** The destination after storing a block from index start on. */
  ghost function Delivered<T>(dst: seq<T>, start: int, inc: int, length: int, block: seq<T>): (r: seq<T>)
    requires DstInside(start, inc, length, |block|, |dst|)
    ensures |r| == |dst|
  {
    if block == [] then dst
    else
      var n := |block| - 1;
      Delivered(dst, start, inc, length, block[..n])[DstIndex(start, inc, length, n) := block[n]]
  }

  lemma DeliveredNothing<T>(dst: seq<T>, start: int, inc: int, length: int, block: seq<T>)
    ensures Delivered(dst, start, inc, length, block[..0]) == dst
  {
  }

  lemma DeliverOne<T>(dst: seq<T>, start: int, inc: int, length: int, block: seq<T>, k: nat)
    requires k < |block| && DstInside(start, inc, length, |block|, |dst|)
    ensures Delivered(dst, start, inc, length, block[..k + 1])
         == Delivered(dst, start, inc, length, block[..k])[DstIndex(start, inc, length, k) := block[k]]
  {
    assert block[..k + 1][..k] == block[..k];
  }

  method CircularRead<T>(circBuffer: array<T>, L: int, readOffset: int, bufferInc: int,
                         dst: array<T>, dstStart: int, dstLength: int, dstInc: int, blockSize: nat)
    returns (newOffset: int)
    requires circBuffer != dst
    requires OffsetsInside(readOffset, bufferInc, L, blockSize, circBuffer.Length)
    requires DstInside(dstStart, dstInc, dstLength, blockSize, dst.Length)
    modifies dst
    ensures dst[..] == Delivered(old(dst[..]), dstStart, dstInc, dstLength,
                                 Gathered(circBuffer[..], L, readOffset, bufferInc, blockSize))
    ensures newOffset == Offset(readOffset, bufferInc, L, blockSize)
  {
    hide Gathered, Delivered;
    var rOffset := readOffset;
    var d := dstStart;
    var i := blockSize;
    ghost var was := dst[..];
    ghost var buf := circBuffer[..];
    ghost var block := Gathered(buf, L, readOffset, bufferInc, blockSize);
    DeliveredNothing(was, dstStart, dstInc, dstLength, block);
    while i > 0
      invariant 0 <= i <= blockSize
      invariant rOffset == Offset(readOffset, bufferInc, L, blockSize - i)
      invariant d == DstIndex(dstStart, dstInc, dstLength, blockSize - i)
      invariant circBuffer[..] == buf
      invariant dst[..] == Delivered(was, dstStart, dstInc, dstLength, block[..blockSize - i])
    {
      ghost var k := blockSize - i;
      DeliverOne(was, dstStart, dstInc, dstLength, block, k);
      assert block[k] == buf[rOffset] == circBuffer[rOffset];
      dst[d] := circBuffer[rOffset];
      d := d + dstInc;
      if d == dstLength {
        d := 0;
      }
      rOffset := rOffset + bufferInc;
      if rOffset >= L {
        rOffset := rOffset - L;
      }
      i := i - 1;
    }
    assert block[..blockSize] == block;
    newOffset := rOffset;
  }

  // ----- where the offsets go -----

  /** For an increment between 0 and L one subtraction is a full reduction. */
  lemma {:induction false} OffsetClosed(start: int, inc: int, L: int, k: nat)
    requires 0 <= start < L && 0 <= inc <= L
    ensures Offset(start, inc, L, k) == (start + k * inc) % L
    ensures 0 <= Offset(start, inc, L, k) < L
  {
    if k == 0 {
      DivModUnique(start, L, 0, start);
    } else {
      OffsetClosed(start, inc, L, k - 1);
      Distribute(k - 1, 1, inc);
      AdvanceReduces(start + (k - 1) * inc, inc, L);
    }
  }

  lemma AdvanceReduces(x: int, inc: int, L: int)
    requires 0 < L && 0 <= inc <= L
    ensures Advance(x % L, inc, L) == (x + inc) % L
    ensures 0 <= (x + inc) % L < L
  {
    var q, r := x / L, x % L;
    EuclidDivision(x, L);
    Distribute(q, 1, L);
    if r + inc >= L {
      DivModUnique(x + inc, L, q + 1, r + inc - L);
    } else {
      DivModUnique(x + inc, L, q, r + inc);
    }
  }

  lemma OffsetsAlwaysInside(start: int, inc: int, L: int, n: nat, size: nat)
    requires 0 <= start < L <= size && 0 <= inc <= L
    ensures OffsetsInside(start, inc, L, n, size)
  {
    forall k | 0 <= k < n
      ensures 0 <= Offset(start, inc, L, k) < size
    {
      OffsetClosed(start, inc, L, k);
    }
  }

  /** The offset for every increment: below 0 it falls without a limit, above L one
      subtraction per step is not enough and it climbs by the difference. */
  lemma {:induction false} OffsetEverywhere(start: int, inc: int, L: int, k: nat)
    requires 0 <= start < L
    ensures Offset(start, inc, L, k) == if inc < 0 then start + k * inc
                                       else if inc <= L then (start + k * inc) % L
                                       else start + k * (inc - L)
  {
    if 0 <= inc <= L {
      OffsetClosed(start, inc, L, k);
    } else if k > 0 {
      OffsetEverywhere(start, inc, L, k - 1);
      Distribute(k - 1, 1, inc);
      Distribute(k - 1, 1, inc - L);
      if inc < 0 {
        MulMonotone(inc, 0, k - 1);
      } else {
        MulMonotone(0, inc - L, k - 1);
      }
    }
  }

  ghost predicate OffsetNeverEscapes(start: int, inc: int, L: int) {
    forall k: nat :: 0 <= Offset(start, inc, L, k) < L
  }

  /** The one comparison per step watches one end only: the offset stays inside for
      ever exactly for increments from 0 to L. */
  lemma OffsetNeverEscapesExactly(start: int, inc: int, L: int)
    requires 0 <= start < L
    ensures OffsetNeverEscapes(start, inc, L) <==> 0 <= inc <= L
  {
    if 0 <= inc <= L {
      forall k: nat
        ensures 0 <= Offset(start, inc, L, k) < L
      {
        OffsetClosed(start, inc, L, k);
      }
    } else if inc < 0 {
      OffsetEverywhere(start, inc, L, start + 1);
      MulMonotone(inc, -1, start + 1);
      assert Offset(start, inc, L, start + 1) < 0;
    } else {
      OffsetEverywhere(start, inc, L, L);
      MulMonotone(1, inc - L, L);
      assert Offset(start, inc, L, L) >= L;
    }
  }

  /** The stored uint16_t offset is the true one for buffers up to 65536 samples. */
  lemma StoredOffsetFits(start: int, inc: int, L: int, k: nat)
    requires 0 <= start < L <= 0x1_0000 && 0 <= inc <= L
    ensures Offset(start, inc, L, k) % 0x1_0000 == Offset(start, inc, L, k)
  {
    OffsetClosed(start, inc, L, k);
  }

  // ----- refinement of an unbounded stream -----

  /** The buffer holds the end of the stream, the newest sample just before off. */
  ghost predicate HoldsEnd<T>(buf: seq<T>, L: nat, off: nat, stream: seq<T>) {
    off < L <= |buf|
    && forall k :: 0 <= k < L && k < |stream| ==>
         buf[Back(off, L, k)] == stream[|stream| - 1 - k]
  }

  /** The cell k + 1 places before off, around the buffer. */
  function Back(off: nat, L: nat, k: nat): (c: nat)
    requires off < L && k < L
    ensures c < L
  {
    if k < off then off - 1 - k else off - 1 - k + L
  }

  lemma {:induction false} WriteExtendsStream<T>(buf: seq<T>, L: nat, off: nat, stream: seq<T>, block: seq<T>)
    requires HoldsEnd(buf, L, off, stream)
    ensures OffsetsInside(off, 1, L, |block|, |buf|)
    ensures 0 <= Offset(off, 1, L, |block|) < L
    ensures HoldsEnd(Written(buf, L, off, 1, block), L, Offset(off, 1, L, |block|), stream + block)
    decreases |block|
  {
    OffsetsAlwaysInside(off, 1, L, |block|, |buf|);
    OffsetClosed(off, 1, L, |block|);
    if block == [] {
      assert stream + block == stream;
    } else {
      var n := |block| - 1;
      WriteExtendsStream(buf, L, off, stream, block[..n]);
      var mid, o := Written(buf, L, off, 1, block[..n]), Offset(off, 1, L, n);
      StoreExtendsStream(mid, L, o, stream + block[..n], block[n]);
      assert stream + block == (stream + block[..n]) + [block[n]];
    }
  }

  lemma StoreExtendsStream<T>(buf: seq<T>, L: nat, off: nat, stream: seq<T>, v: T)
    requires HoldsEnd(buf, L, off, stream)
    ensures 0 <= Advance(off, 1, L) < L
    ensures HoldsEnd(buf[off := v], L, Advance(off, 1, L), stream + [v])
  {
    var off' := Advance(off, 1, L);
    var stream' := stream + [v];
    forall k | 0 <= k < L && k < |stream'|
      ensures buf[off := v][Back(off', L, k)] == stream'[|stream'| - 1 - k]
    {
      if k > 0 {
        assert Back(off', L, k) == Back(off, L, k - 1);
        assert buf[Back(off, L, k - 1)] == stream[|stream| - 1 - (k - 1)];
      }
    }
  }

  /** Reading a full turn from the write offset yields the last L samples of the
      stream, oldest first. */
  lemma FullTurnReadsEnd<T>(buf: seq<T>, L: nat, off: nat, stream: seq<T>)
    requires HoldsEnd(buf, L, off, stream) && L <= |stream|
    ensures OffsetsInside(off, 1, L, L, |buf|)
    ensures Gathered(buf, L, off, 1, L) == stream[|stream| - L..]
  {
    OffsetsAlwaysInside(off, 1, L, L, |buf|);
    forall j | 0 <= j < L
      ensures Gathered(buf, L, off, 1, L)[j] == stream[|stream| - L..][j]
    {
      OffsetFullTurn(off, L, j);
      assert buf[Back(off, L, L - 1 - j)] == stream[|stream| - 1 - (L - 1 - j)];
    }
  }

  lemma OffsetFullTurn(off: nat, L: nat, j: nat)
    requires off < L && j < L
    ensures Offset(off, 1, L, j) == Back(off, L, L - 1 - j)
  {
    OffsetClosed(off, 1, L, j);
    if off + j < L {
      DivModUnique(off + j, L, 0, off + j);
    } else {
      DivModUnique(off + j, L, 1, off + j - L);
    }
  }

  /** One unit-stride write: the buffer and the offset stored as uint16_t. */
  ghost function WriteBlock<T>(buf: seq<T>, L: nat, off: nat, block: seq<T>): (r: (seq<T>, nat))
    requires off < L <= |buf|
    ensures |r.0| == |buf| && r.1 < L && r.1 < 0x1_0000
  {
    OffsetsAlwaysInside(off, 1, L, |block|, |buf|);
    OffsetClosed(off, 1, L, |block|);
    (Written(buf, L, off, 1, block), Offset(off, 1, L, |block|) % 0x1_0000)
  }

  /** A sequence of such writes, each starting from the stored offset. */
  ghost function WriteAll<T>(buf: seq<T>, L: nat, off: nat, blocks: seq<seq<T>>): (r: (seq<T>, nat))
    requires off < L <= |buf| && off < 0x1_0000
    ensures |r.0| == |buf| && r.1 < L && r.1 < 0x1_0000
  {
    if blocks == [] then (buf, off)
    else
      var n := |blocks| - 1;
      var (b, o) := WriteAll(buf, L, off, blocks[..n]);
      WriteBlock(b, L, o, blocks[n])
  }

  ghost function Concat<T>(blocks: seq<seq<T>>): seq<T> {
    if blocks == [] then [] else Concat(blocks[..|blocks| - 1]) + blocks[|blocks| - 1]
  }

  lemma {:induction false} WriteAllHoldsEnd<T>(buf: seq<T>, L: nat, off: nat, blocks: seq<seq<T>>)
    requires off < L <= |buf| && L <= 0x1_0000
    ensures var (b, o) := WriteAll(buf, L, off, blocks); HoldsEnd(b, L, o, Concat(blocks))
  {
    if blocks != [] {
      var n := |blocks| - 1;
      WriteAllHoldsEnd(buf, L, off, blocks[..n]);
      var (b, o) := WriteAll(buf, L, off, blocks[..n]);
      WriteExtendsStream(b, L, o, Concat(blocks[..n]), blocks[n]);
      StoredOffsetFits(o, 1, L, |blocks[n]|);
    }
  }

  /** A read of L samples from off returns the last L samples of the stream, in order. */
  ghost predicate ReadsEnd<T>(buf: seq<T>, L: nat, off: nat, stream: seq<T>)
    requires L <= |stream|
  {
    OffsetsInside(off, 1, L, L, |buf|) && Gathered(buf, L, off, 1, L) == stream[|stream| - L..]
  }

  /** Whatever the buffer held and wherever it started: after unit-stride writes of
      at least L samples in blocks of any sizes, a read of L samples from the stored
      write offset returns exactly the last L samples written, in order, for every
      buffer of at most 65536 samples. */
  lemma BufferRefinesStream<T>(buf: seq<T>, L: nat, off: nat, blocks: seq<seq<T>>)
    requires off < L <= |buf| && L <= 0x1_0000
    requires L <= |Concat(blocks)|
    ensures var (b, o) := WriteAll(buf, L, off, blocks); ReadsEnd(b, L, o, Concat(blocks))
  {
    hide WriteAll, Concat, Gathered, Offset, HoldsEnd;
    WriteAllHoldsEnd(buf, L, off, blocks);
    var (b, o) := WriteAll(buf, L, off, blocks);
    FullTurnReadsEnd(b, L, o, Concat(blocks));
  }

  /** A buffer of L samples refines the stream for every start and all blocks. */
  ghost predicate RefinesStreams(L: nat) {
    forall buf: seq<int>, off: nat, blocks: seq<seq<int>> ::
      off < L <= |buf| && off < 0x1_0000 && L <= |Concat(blocks)| ==>
        ReadsEnd(WriteAll(buf, L, off, blocks).0, L, WriteAll(buf, L, off, blocks).1, Concat(blocks))
  }

  /** The uint16_t offset limits the buffer to 65536 samples: every longer one fails. */
  lemma RefinesStreamsExactly(L: nat)
    ensures RefinesStreams(L) <==> L <= 0x1_0000
  {
    hide WriteAll, Concat, ReadsEnd;
    if L <= 0x1_0000 {
      forall buf: seq<int>, off: nat, blocks: seq<seq<int>>
        | off < L <= |buf| && off < 0x1_0000 && L <= |Concat(blocks)|
        ensures ReadsEnd(WriteAll(buf, L, off, blocks).0, L, WriteAll(buf, L, off, blocks).1, Concat(blocks))
      {
        BufferRefinesStream(buf, L, off, blocks);
      }
    } else {
      LongBufferLosesPlace(L);
    }
  }

  /** L + 65536 samples written from offset 0 stop at cell 65536; the stored offset is
      0, where a younger sample than the oldest one lies. */
  lemma LongBufferLosesPlace(L: nat)
    requires L > 0x1_0000
    ensures !RefinesStreams(L)
  {
    hide WriteAll, WriteBlock, Concat, Written, Gathered, Offset;
    var buf: seq<int> := seq(L, _ => 0);
    var block: seq<int> := seq(L + 0x1_0000, i => i);
    OneBlock(buf, L, block);
    OverrunCell(buf, L, block);
    OffsetsAlwaysInside(0, 1, L, L, L);
    OffsetClosed(0, 1, L, 0);
    var b := Written(buf, L, 0, 1, block);
    assert Gathered(b, L, 0, 1, L)[0] == L;
    assert block[|block| - L..][0] == 0x1_0000;
    assert !ReadsEnd(b, L, 0, block);
  }

  lemma OverrunCell(buf: seq<int>, L: nat, block: seq<int>)
    requires 0x1_0000 < L == |buf| && |block| == L + 0x1_0000
    ensures OffsetsInside(0, 1, L, |block|, L)
    ensures Offset(0, 1, L, |block|) == 0x1_0000
    ensures Written(buf, L, 0, 1, block)[0] == block[L]
  {
    hide Written, Offset;
    OffsetClosed(0, 1, L, |block|);
    DivModUnique(L + 0x1_0000, L, 1, 0x1_0000);
    WriteExtendsStream(buf, L, 0, [], block);
    assert [] + block == block;
    assert Back(0x1_0000, L, 0xFFFF) == 0;
  }

  lemma OneBlock<T>(buf: seq<T>, L: nat, block: seq<T>)
    requires 0 < L <= |buf|
    ensures Concat([block]) == block
    ensures OffsetsInside(0, 1, L, |block|, |buf|)
    ensures WriteAll(buf, L, 0, [block]) == (Written(buf, L, 0, 1, block), Offset(0, 1, L, |block|) % 0x1_0000)
  {
    OffsetsAlwaysInside(0, 1, L, |block|, |buf|);
    assert [block][..0] == [];
  }

  // ----- any stride: which cells a block visits -----

  function Gcd(a: nat, b: nat): (g: nat)
    ensures a > 0 || b > 0 ==> g > 0
    decreases b
  {
    if b == 0 then a else Gcd(b, a % b)
  }

  /** The greatest common divisor divides both numbers and is a combination of them. */
  lemma {:induction false} Bezout(a: nat, b: nat) returns (p: int, q: int, u: int, v: int)
    ensures a == p * Gcd(a, b) && b == q * Gcd(a, b)
    ensures Gcd(a, b) == u * a + v * b
    decreases b
  {
    if b == 0 {
      p, q, u, v := 1, 0, 1, 0;
    } else {
      var d, r := a / b, a % b;
      assert a == d * b + r;
      var p', q', u', v' := Bezout(b, r);
      p, q, u, v := d * p' + q', p', v', u' - d * v';
      BezoutStep(a, b, d, r, Gcd(b, r), p', q', u', v');
    }
  }

  lemma BezoutStep(a: int, b: int, d: int, r: int, g: int, p: int, q: int, u: int, v: int)
    requires a == d * b + r && b == p * g && r == q * g && g == u * b + v * r
    ensures a == (d * p + q) * g && g == v * a + (u - d * v) * b
  {
    assert d * (p * g) + q * g == (d * p + q) * g;
    assert v * (a - d * b) == v * a - (d * v) * b;
    assert (u - d * v) * b == u * b - (d * v) * b;
  }

  /** How many different cells the stride reaches. */
  function Cells(inc: nat, L: nat): nat
    requires L > 0
  {
    DivBound(L, Gcd(inc, L));
    L / Gcd(inc, L)
  }

  lemma CellsTimesGcd(inc: nat, L: nat) returns (t: int)
    requires L > 0
    ensures Cells(inc, L) * Gcd(inc, L) == L && Cells(inc, L) >= 1
    ensures Cells(inc, L) * inc == t * L
  {
    var p, q, u, v := Bezout(inc, L);
    var g := Gcd(inc, L);
    DivModUnique(L, g, q, 0);
    if q <= 0 {
      MulMonotone(q, 0, g);
    }
    t := p;
    assert q * (p * g) == p * (q * g);
  }

  /** A multiple of the stride that is a multiple of L is a multiple of Cells turns. */
  lemma StrideMultiple(inc: nat, L: nat, d: int, q: int) returns (w: int)
    requires L > 0 && d * inc == q * L
    ensures d == w * Cells(inc, L)
  {
    var a, b, u, v := Bezout(inc, L);
    var g := Gcd(inc, L);
    var t := CellsTimesGcd(inc, L);
    var m := Cells(inc, L);
    w := u * q + v * d;
    CombineMultiple(inc, L, d, q, u, v, g);
    MulAssoc(w, m, g);
    CancelFactor(d, w * m, g);
  }

  lemma CombineMultiple(inc: int, L: int, d: int, q: int, u: int, v: int, g: int)
    requires d * inc == q * L && g == u * inc + v * L
    ensures d * g == (u * q + v * d) * L
  {
    assert d * (u * inc + v * L) == u * (d * inc) + (v * d) * L;
    assert u * (q * L) + (v * d) * L == (u * q + v * d) * L;
  }

  lemma CancelFactor(x: int, y: int, g: int)
    requires g > 0 && x * g == y * g
    ensures x == y
  {
    if x < y {
      MulMonotone(x + 1, y, g);
    } else if x > y {
      MulMonotone(y + 1, x, g);
    }
  }

  ghost predicate Distinct(start: int, inc: int, L: int, n: nat) {
    forall j, k :: 0 <= j < k < n ==> Offset(start, inc, L, j) != Offset(start, inc, L, k)
  }

  /** A block of n samples hits pairwise distinct cells exactly when n is at most
      L / gcd(inc, L). */
  lemma DistinctExactly(start: nat, inc: nat, L: nat, n: nat)
    requires start < L && inc <= L
    ensures Distinct(start, inc, L, n) <==> n <= Cells(inc, L)
  {
    var m := Cells(inc, L);
    var t := CellsTimesGcd(inc, L);
    if n > m {
      OffsetClosed(start, inc, L, m);
      DivModUnique(start + m * inc, L, t, start);
      assert Offset(start, inc, L, 0) == Offset(start, inc, L, m);
    } else {
      forall j, k | 0 <= j < k < n
        ensures Offset(start, inc, L, j) != Offset(start, inc, L, k)
      {
        if Offset(start, inc, L, j) == Offset(start, inc, L, k) {
          SameCell(start, inc, L, j, k);
        }
      }
    }
  }

  lemma SameCell(start: nat, inc: nat, L: nat, j: nat, k: nat)
    requires start < L && inc <= L && j < k
    requires Offset(start, inc, L, j) == Offset(start, inc, L, k)
    ensures k - j >= Cells(inc, L)
  {
    OffsetClosed(start, inc, L, j);
    OffsetClosed(start, inc, L, k);
    var x, y := start + j * inc, start + k * inc;
    assert y - x == (k - j) * inc;
    assert (k - j) * inc == (y / L - x / L) * L by { SameRemainder(x, y, L); }
    var w := StrideMultiple(inc, L, k - j, y / L - x / L);
    if w <= 0 {
      MulMonotone(w, 0, Cells(inc, L));
    } else {
      MulMonotone(1, w, Cells(inc, L));
    }
  }

  lemma SameRemainder(x: int, y: int, L: int)
    requires L > 0 && x % L == y % L
    ensures y - x == (y / L - x / L) * L
  {
    assert x == (x / L) * L + x % L;
    assert y == (y / L) * L + y % L;
    assert (y / L - x / L) * L == (y / L) * L - (x / L) * L;
  }

  /** With any strides: a cell visited for the last time by sample j holds it, and a
      cell that is not visited holds what it held. */
  lemma {:induction false} WrittenLast<T>(buf: seq<T>, L: int, start: int, inc: int, block: seq<T>, j: nat)
    requires OffsetsInside(start, inc, L, |block|, |buf|) && j < |block|
    requires forall k :: j < k < |block| ==> Offset(start, inc, L, k) != Offset(start, inc, L, j)
    ensures Written(buf, L, start, inc, block)[Offset(start, inc, L, j)] == block[j]
    decreases |block|
  {
    if j < |block| - 1 {
      WrittenLast(buf, L, start, inc, block[..|block| - 1], j);
    }
  }

  lemma {:induction false} WrittenElsewhere<T>(buf: seq<T>, L: int, start: int, inc: int, block: seq<T>, c: nat)
    requires OffsetsInside(start, inc, L, |block|, |buf|) && c < |buf|
    requires forall k :: 0 <= k < |block| ==> Offset(start, inc, L, k) != c
    ensures Written(buf, L, start, inc, block)[c] == buf[c]
    decreases |block|
  {
    if block != [] {
      WrittenElsewhere(buf, L, start, inc, block[..|block| - 1], c);
    }
  }

  /** A block no longer than L / gcd(inc, L), written and read back with the same
      start and stride, comes back unchanged. */
  lemma ReadBack<T>(buf: seq<T>, L: nat, start: nat, inc: nat, block: seq<T>)
    requires start < L <= |buf| && inc <= L
    requires |block| <= Cells(inc, L)
    ensures OffsetsInside(start, inc, L, |block|, |buf|)
    ensures Gathered(Written(buf, L, start, inc, block), L, start, inc, |block|) == block
  {
    OffsetsAlwaysInside(start, inc, L, |block|, |buf|);
    DistinctExactly(start, inc, L, |block|);
    forall j | 0 <= j < |block|
      ensures Gathered(Written(buf, L, start, inc, block), L, start, inc, |block|)[j] == block[j]
    {
      WrittenLast(buf, L, start, inc, block, j);
    }
  }

  // ----- the destination pointer -----

  ghost predicate DstNeverEscapes(start: int, inc: int, length: int) {
    forall k: nat :: 0 <= DstIndex(start, inc, length, k) < length
  }

  /** The equality test keeps the destination pointer inside for ever exactly when
      the increment divides both the length and the starting index. */
  lemma DstNeverEscapesExactly(start: int, inc: int, length: int)
    requires 0 <= start < length && 0 < inc
    ensures DstNeverEscapes(start, inc, length) <==> length % inc == 0 && start % inc == 0
  {
    if length % inc == 0 && start % inc == 0 {
      forall k: nat
        ensures 0 <= DstIndex(start, inc, length, k) < length
      {
        DstAligned(start, inc, length, k);
      }
    } else if DstNeverEscapes(start, inc, length) {
      var k0 := DstReachesEnd(start, inc, length, 0);
      assert DstIndex(start, inc, length, k0) == 0;
      var k1 := DstReachesEnd(start, inc, length, k0);
      MultipleDifference(start, length, inc);
    }
  }

  /** The destination index for every increment: it returns to 0 exactly once the
      increment divides the way to the end, and again for as long as it divides the
      length; otherwise it goes on without a limit. */
  lemma {:induction false} DstEverywhere(start: int, inc: int, length: int, k: nat)
    requires 0 <= start < length
    ensures inc <= 0 || (length - start) % inc != 0 ==> DstIndex(start, inc, length, k) == start + k * inc
    ensures inc > 0 && (length - start) % inc == 0 && k < (length - start) / inc ==>
              DstIndex(start, inc, length, k) == start + k * inc
    ensures inc > 0 && (length - start) % inc == 0 && k >= (length - start) / inc >= 0 ==>
              DstIndex(start, inc, length, k) == DstIndex(0, inc, length, k - (length - start) / inc)
  {
    if k == 0 {
      if inc > 0 && (length - start) % inc == 0 {
        EuclidDivision(length - start, inc);
        assert (length - start) / inc != 0;
      }
    } else {
      DstEverywhere(start, inc, length, k - 1);
      Distribute(k - 1, 1, inc);
      if inc <= 0 {
        MulMonotone(inc, 0, k);
      } else {
        var d, h := length - start, (length - start) / inc;
        EuclidDivision(d, inc);
        if k * inc == d {
          DivModUnique(d, inc, k, 0);
        }
        if d % inc == 0 && k == h {
          assert k * inc == d;
        }
      }
    }
  }

  lemma {:induction false} DstAligned(start: int, inc: int, length: int, k: nat)
    requires 0 <= start < length && 0 < inc && length % inc == 0 && start % inc == 0
    ensures 0 <= DstIndex(start, inc, length, k) < length
    ensures DstIndex(start, inc, length, k) % inc == 0
  {
    if k > 0 {
      DstAligned(start, inc, length, k - 1);
      var p := DstIndex(start, inc, length, k - 1);
      AlignedStep(p, inc, length);
    }
  }

  /** Below an aligned end there is room for a whole step. */
  lemma AlignedStep(p: int, inc: int, length: int)
    requires 0 <= p < length && 0 < inc && p % inc == 0 && length % inc == 0
    ensures p + inc <= length && (p + inc) % inc == 0 && 0 % inc == 0
  {
    var a, b := p / inc, length / inc;
    assert p == a * inc && length == b * inc;
    if b <= a {
      MulMonotone(b, a, inc);
    }
    MulMonotone(a + 1, b, inc);
    assert (a + 1) * inc == a * inc + inc;
    DivModUnique(p + inc, inc, a + 1, 0);
    DivModUnique(0, inc, 0, 0);
  }

  /** From index p a pointer that never escapes hits the end after (length - p) / inc
      steps, so inc divides that distance. */
  lemma {:induction false} DstReachesEnd(start: int, inc: int, length: int, k: nat) returns (k': nat)
    requires 0 < inc && 0 < length && DstNeverEscapes(start, inc, length)
    ensures (length - DstIndex(start, inc, length, k)) % inc == 0
    ensures DstIndex(start, inc, length, k') == 0
    decreases length - DstIndex(start, inc, length, k)
  {
    var p := DstIndex(start, inc, length, k);
    assert 0 <= p < length;
    assert 0 <= DstIndex(start, inc, length, k + 1) < length;
    if p + inc == length {
      k' := k + 1;
      DivModUnique(inc, inc, 1, 0);
    } else {
      assert DstIndex(start, inc, length, k + 1) == p + inc;
      k' := DstReachesEnd(start, inc, length, k + 1);
      OneStepMore(length - p, inc);
    }
  }

  lemma OneStepMore(d: int, inc: int)
    requires 0 < inc && (d - inc) % inc == 0
    ensures d % inc == 0
  {
    var q := (d - inc) / inc;
    assert d - inc == q * inc;
    Distribute(q, 1, inc);
    DivModUnique(d, inc, q + 1, 0);
  }

  lemma MultipleDifference(start: int, length: int, inc: int)
    requires 0 < inc && (length - start) % inc == 0 && length % inc == 0
    ensures start % inc == 0
  {
    var a, b := (length - start) / inc, length / inc;
    assert length - start == a * inc && length == b * inc;
    assert (b - a) * inc == b * inc - a * inc;
    DivModUnique(start, inc, b - a, 0);
  }

  /** A destination element visited for the last time by sample j receives it, and
      one that is not visited keeps its value. */
  lemma {:induction false} DeliveredLast<T>(dst: seq<T>, start: int, inc: int, length: int, block: seq<T>, j: nat)
    requires DstInside(start, inc, length, |block|, |dst|) && j < |block|
    requires forall k :: j < k < |block| ==> DstIndex(start, inc, length, k) != DstIndex(start, inc, length, j)
    ensures Delivered(dst, start, inc, length, block)[DstIndex(start, inc, length, j)] == block[j]
    decreases |block|
  {
    if j < |block| - 1 {
      DeliveredLast(dst, start, inc, length, block[..|block| - 1], j);
    }
  }

  lemma {:induction false} DeliveredElsewhere<T>(dst: seq<T>, start: int, inc: int, length: int, block: seq<T>, c: nat)
    requires DstInside(start, inc, length, |block|, |dst|) && c < |dst|
    requires forall k :: 0 <= k < |block| ==> DstIndex(start, inc, length, k) != c
    ensures Delivered(dst, start, inc, length, block)[c] == dst[c]
    decreases |block|
  {
    if block != [] {
      DeliveredElsewhere(dst, start, inc, length, block[..|block| - 1], c);
    }
  }

  /** A destination of exactly the block's length, from its base with unit
      increment, receives the block in order. */
  lemma {:induction false} DeliveredWhole<T>(dst: seq<T>, block: seq<T>, n: nat)
    requires n <= |block| <= |dst|
    ensures DstInside(0, 1, |block|, n, |dst|)
    ensures Delivered(dst, 0, 1, |block|, block[..n]) == block[..n] + dst[n..]
  {
    UnitIndices(|block|, n, |dst|);
    if n > 0 {
      DeliveredWhole(dst, block, n - 1);
      assert block[..n][..n - 1] == block[..n - 1];
    }
  }

  /** Write any blocks, then read a full turn into a destination of L samples: the
      destination is the end of the stream. */
  lemma ReadDeliversStreamEnd<T>(buf: seq<T>, L: nat, off: nat, blocks: seq<seq<T>>, dst: seq<T>)
    requires off < L <= |buf| && L <= 0x1_0000 && |dst| == L
    requires L <= |Concat(blocks)|
    ensures var (b, o) := WriteAll(buf, L, off, blocks);
            OffsetsInside(o, 1, L, L, |b|) && DstInside(0, 1, L, L, L)
            && Delivered(dst, 0, 1, L, Gathered(b, L, o, 1, L)) == Concat(blocks)[|Concat(blocks)| - L..]
  {
    hide WriteAll, Concat, Gathered, Delivered, Offset, DstIndex;
    BufferRefinesStream(buf, L, off, blocks);
    var (b, o) := WriteAll(buf, L, off, blocks);
    var block := Gathered(b, L, o, 1, L);
    DeliveredWhole(dst, block, L);
    assert block[..L] == block;
  }

  lemma UnitIndices(length: nat, n: nat, size: nat)
    requires n <= length <= size
    ensures DstInside(0, 1, length, n, size)
    ensures forall k :: 0 <= k < n ==> DstIndex(0, 1, length, k) == k
  {
    forall k | 0 <= k < n
      ensures DstIndex(0, 1, length, k) == k
    {
      UnitIndex(length, k);
    }
  }

  lemma {:induction false} UnitIndex(length: nat, k: nat)
    requires k < length
    ensures DstIndex(0, 1, length, k) == k
  {
    if k > 0 {
      UnitIndex(length, k - 1);
    }
  }
}
