/**
 * disk/RamReader: reads bytes by absolute position from a list of
 * `ByteBuffer` blocks, byte `pos % 4096` of block `pos / 4096`.
 *
 * The blocks are read-only views and the reader only ever calls their
 * absolute `get(index)`, so each is modelled as a value: the bytes from
 * index 0 up to its limit, and its position.
 */
module RamReader {
  import opened Java
  import opened Blocks
  import RamWriter

  datatype Buffer = Buffer(data: seq<uint8>, position: nat)

  /** A `ByteBuffer` view: its position never exceeds its limit. */
  type ByteBuffer = b: Buffer | b.position <= |b.data| witness Buffer([], 0)

  /** `remaining()`: the bytes between the position and the limit. */
  function Remaining(b: ByteBuffer): nat {
    |b.data| - b.position
  }

  /** The sum of `remaining()` over the blocks. */
  function TotalRemaining(bs: seq<ByteBuffer>): nat {
    if bs == [] then 0 else TotalRemaining(bs[..|bs| - 1]) + Remaining(bs[|bs| - 1])
  }

  /** `get(index)`: an absolute read, checked against the limit. */
  function Get(b: ByteBuffer, index: int): (r: Result<uint8>)
    ensures r.Ok? <==> 0 <= index < |b.data|
    ensures r.Ok? ==> r.value == b.data[index]
    ensures r.Err? ==> r.error == IndexOutOfBoundsException
  {
    if 0 <= index < |b.data| then Ok(b.data[index]) else Err(IndexOutOfBoundsException)
  }

  /** The bytes of each block from index 0 to its limit. */
  function Datas(bs: seq<ByteBuffer>): (r: seq<seq<uint8>>)
    ensures |r| == |bs| && forall i :: 0 <= i < |bs| ==> r[i] == bs[i].data
  {
    seq(|bs|, i requires 0 <= i < |bs| => bs[i].data)
  }

  /**
   * The layout RamWriter's `toByteBuffers` produces: every view starts at
   * position 0, and every block but the last is full.
   */
  predicate Aligned(bs: seq<ByteBuffer>) {
    (forall i :: 0 <= i < |bs| ==> bs[i].position == 0) && FullBlocks(Datas(bs))
  }

  /** When every view starts at position 0, the remaining bytes are all the bytes. */
  lemma {:induction false} TotalOfAligned(bs: seq<ByteBuffer>)
    ensures (forall i :: 0 <= i < |bs| ==> bs[i].position == 0) ==> TotalRemaining(bs) == |Concat(Datas(bs))|
  {
    if bs != [] && forall i :: 0 <= i < |bs| ==> bs[i].position == 0 {
      var init := bs[..|bs| - 1];
      TotalOfAligned(init);
      assert Datas(bs) == Datas(init) + [bs[|bs| - 1].data];
      ConcatSnoc(Datas(init), bs[|bs| - 1].data);
    }
  }

  lemma DatasSnoc(bs: seq<ByteBuffer>, b: ByteBuffer)
    ensures Concat(Datas(bs + [b])) == Concat(Datas(bs)) + b.data
  {
    assert Datas(bs + [b]) == Datas(bs) + [b.data];
    ConcatSnoc(Datas(bs), b.data);
  }

  /** A block may follow aligned blocks whose last one is full. */
  lemma AlignedSnoc(bs: seq<ByteBuffer>, b: ByteBuffer)
    requires Aligned(bs) && (bs != [] ==> |bs[|bs| - 1].data| == 4096)
    requires b.position == 0 && |b.data| <= 4096
    ensures Aligned(bs + [b])
  {
    var vs := Datas(bs + [b]);
    forall i | 0 <= i < |vs| - 1 ensures |vs[i]| == 4096 {
      assert vs[i] == bs[i].data;
    }
  }

  /** Cutting the next block, `data[idx..end]`, off the blocks cut so far keeps the layout. */
  lemma AppendBlock(bbs: seq<ByteBuffer>, data: seq<uint8>, idx: nat, end: nat)
    requires idx == 4096 * |bbs| && idx <= end <= |data| && end - idx <= 4096
    requires Aligned(bbs) && (bbs != [] ==> |bbs[|bbs| - 1].data| == 4096)
    requires Concat(Datas(bbs)) == data[..idx]
    ensures var bs := bbs + [Buffer(data[idx..end], 0)];
      Aligned(bs) && |bs[|bs| - 1].data| == end - idx && Concat(Datas(bs)) == data[..end]
  {
    var bb := Buffer(data[idx..end], 0);
    DatasSnoc(bbs, bb);
    AlignedSnoc(bbs, bb);
    assert data[..idx] + bb.data == data[..end];
  }

  /**
   * The bytes the single-buffer constructor keeps: from the position on
   * when fewer than 4096 remain, but from index 0 as soon as one full block
   * remains, because the slicing index starts at 0 rather than at the
   * position.
   */
  function SlicedContent(buffer: ByteBuffer): seq<uint8> {
    if Remaining(buffer) >= 4096 then buffer.data else buffer.data[buffer.position..]
  }

  /**
   * A buffer of 4106 bytes positioned at 10 has 4096 bytes remaining, yet
   * the constructor keeps all 4106, the 10 before the position included.
   */
  lemma SlicedContentIgnoresPosition()
    ensures var buffer := Buffer(seq(4106, i => 0), 10);
      Remaining(buffer) == 4096 && |SlicedContent(buffer)| == 4106
  {
  }

  /** The intended slicing: full blocks from the position on, then the rest. */
  method SliceBlocksFromPosition(buffer: ByteBuffer) returns (bbs: seq<ByteBuffer>)
    ensures Aligned(bbs)
    ensures Remaining(buffer) > 0 ==> |bbs| > 0
    ensures Concat(Datas(bbs)) == buffer.data[buffer.position..]
  {
    var data := buffer.data[buffer.position..];
    var idx;
    bbs, idx := CutFullBlocks(data);
    if |data| - idx > 0 {
      AppendBlock(bbs, data, idx, |data|);
      assert data[idx..|data|] == data[idx..] && data[..|data|] == data;
      bbs := bbs + [Buffer(data[idx..], 0)];
    } else {
      assert data[..idx] == data;
    }
  }

  /** Full blocks from the start of `data` while at least 4096 bytes are left. */
  method CutFullBlocks(data: seq<uint8>) returns (bbs: seq<ByteBuffer>, idx: nat)
    ensures idx == 4096 * |bbs| && idx <= |data| && |data| - idx < 4096
    ensures Aligned(bbs) && (bbs != [] ==> |bbs[|bbs| - 1].data| == 4096)
    ensures Concat(Datas(bbs)) == data[..idx]
  {
    bbs := [];
    idx := 0;
    while |data| - idx >= 4096
      invariant idx == 4096 * |bbs| && idx <= |data|
      invariant Aligned(bbs) && (bbs != [] ==> |bbs[|bbs| - 1].data| == 4096)
      invariant Concat(Datas(bbs)) == data[..idx]
      decreases |data| - idx
    {
      AppendBlock(bbs, data, idx, idx + 4096);
      bbs := bbs + [Buffer(data[idx..idx + 4096], 0)];
      idx := idx + 4096;
    }
  }

  /**
   * The blocks the single-buffer constructor cuts out of `buffer`: while at
   * least 4096 bytes remain, the 4096 bytes at absolute index `idx`, with
   * `idx` counting from 0 and the position moved to it; then a view of
   * whatever remains.
   */
  method SliceBlocks(buffer: ByteBuffer) returns (bbs: seq<ByteBuffer>)
    ensures Aligned(bbs)
    ensures Remaining(buffer) > 0 ==> |bbs| > 0
    ensures Concat(Datas(bbs)) == SlicedContent(buffer)
  {
    var data := buffer.data;
    bbs := [];
    var idx := 0;
    var position := buffer.position;
    while |data| - position >= 4096                       // buffer.remaining() >= BLOCK_SIZE
      invariant idx == 4096 * |bbs| && idx <= |data|
      invariant if bbs == [] then position == buffer.position else position == idx
      invariant Aligned(bbs) && (bbs != [] ==> |bbs[|bbs| - 1].data| == 4096)
      invariant Concat(Datas(bbs)) == data[..idx]
      invariant bbs != [] ==> Remaining(buffer) >= 4096
      decreases |data| - idx
    {
      AppendBlock(bbs, data, idx, idx + 4096);
      bbs := bbs + [Buffer(data[idx..idx + 4096], 0)];    // buffer.slice(idx, BLOCK_SIZE)
      idx := idx + 4096;
      position := idx;                                    // buffer.position(idx)
    }
    bbs := SliceRest(buffer, bbs, idx, position);
  }

  /** After the full blocks, `SliceBlocks` adds a view of whatever remains, if anything does. */
  method SliceRest(buffer: ByteBuffer, full: seq<ByteBuffer>, idx: nat, position: nat) returns (bbs: seq<ByteBuffer>)
    requires idx == 4096 * |full| && idx <= |buffer.data| && position <= |buffer.data|
    requires if full == [] then position == buffer.position else position == idx
    requires Aligned(full) && (full != [] ==> |full[|full| - 1].data| == 4096)
    requires Concat(Datas(full)) == buffer.data[..idx]
    requires full != [] <==> Remaining(buffer) >= 4096
    requires |buffer.data| - position < 4096
    ensures Aligned(bbs)
    ensures Remaining(buffer) > 0 ==> |bbs| > 0
    ensures Concat(Datas(bbs)) == SlicedContent(buffer)
  {
    var data := buffer.data;
    bbs := full;
    if |data| - position > 0 {
      var bb := Buffer(data[position..], 0);              // buffer.slice()
      DatasSnoc(bbs, bb);
      AlignedSnoc(bbs, bb);
      if bbs != [] {
        assert data[..idx] + bb.data == data;
      }
      bbs := bbs + [bb];
    } else if bbs != [] {
      assert data[..idx] == data;
    }
  }

  /** The bytes left between a position and the size. */
  function Available(size: int, pos: int): nat {
    if size > pos then size - pos else 0
  }

  /** The cells of an array of `length` cells from `offset` on. */
  function Room(length: nat, offset: int): nat {
    if 0 <= offset <= length then length - offset else 0
  }

  /** How many bytes `readBytes` stores: `len`, unless the data or the array runs out first. */
  function Stored(len: int, avail: nat, room: nat): (n: nat)
    ensures len <= 0 ==> n == 0
    ensures len > 0 ==> n <= len && n <= avail && n <= room && (n == len || n == avail || n == room)
  {
    if len <= 0 then 0
    else if avail <= len && avail <= room then avail
    else if len <= room then len
    else room
  }

  class RamReader {
    var blocks: seq<ByteBuffer>
    var pos: int
    var size: int

    ghost predicate Valid()
      reads this
    {
      |blocks| >= 1 && 0 <= pos && size == TotalRemaining(blocks)
    }

    /** The bytes the blocks hold, as one sequence, when they are aligned. */
    ghost function Content(): (r: seq<uint8>)
      reads this
      ensures Valid() && Aligned(blocks) ==> |r| == size
    {
      TotalOfAligned(blocks);
      Concat(Datas(blocks))
    }

    /** `RamReader(List<ByteBuffer>)`: `init` over the given blocks. */
    constructor (buffers: seq<ByteBuffer>)
      requires |buffers| >= 1
      ensures Valid() && blocks == buffers && pos == buffers[0].position
    {
      new;
      var o := Init(buffers);
    }

    /** `RamReader(ByteBuffer)`: `init` over the blocks `SliceBlocks` cuts out of `buffer`. */
    constructor FromBuffer(buffer: ByteBuffer)
      requires Remaining(buffer) > 0
      ensures Valid() && Aligned(blocks) && pos == 0
      ensures Content() == SlicedContent(buffer)
    {
      new;
      var bbs := SliceBlocks(buffer);
      var o := Init(bbs);
    }

    /** `RamReader(ByteBuffer)` with the intended slicing: the content is the bytes from the position on. */
    constructor FromBufferIntended(buffer: ByteBuffer)
      requires Remaining(buffer) > 0
      ensures Valid() && Aligned(blocks) && pos == 0
      ensures Content() == buffer.data[buffer.position..]
    {
      new;
      var bbs := SliceBlocksFromPosition(buffer);
      var o := Init(bbs);
    }

    /**
     * `init`: the blocks are kept, `size` is the sum of their remaining
     * bytes and `pos` the first block's position; with no block at all,
     * `blocks[0]` throws after `blocks` and `size` have been assigned.
     */
    method Init(bbs: seq<ByteBuffer>) returns (o: Outcome)
      modifies this
      ensures blocks == bbs && size == TotalRemaining(bbs)
      ensures bbs == [] ==> o == Thrown(IndexOutOfBoundsException) && pos == old(pos)
      ensures bbs != [] ==> o == Normal && pos == bbs[0].position && Valid()
    {
      blocks := bbs;
      size := TotalRemaining(bbs);
      if |blocks| == 0 {
        return Thrown(IndexOutOfBoundsException);       // ArrayIndexOutOfBoundsException
      }
      pos := blocks[0].position;
      return Normal;
    }

    /** `hasRemaining`. */
    function HasRemaining(): (r: bool)
      reads this
      ensures r <==> pos < size
    {
      pos < size
    }

    /** `blockIndex`: the block that holds position `pos`. */
    function BlockIndex(): (r: int)
      requires 0 <= pos
      reads this
      ensures 0 <= r && r * 4096 <= pos < r * 4096 + 4096
    {
      pos / 4096
    }

    /** `blockOffset`: where in that block `pos` falls. */
    function BlockOffset(): (r: int)
      requires 0 <= pos
      reads this
      ensures 0 <= r < 4096 && pos == BlockIndex() * 4096 + r
    {
      pos % 4096
    }

    /**
     * What `readByte` yields at position p: IllegalStateException at or
     * past `size`, otherwise byte `p % 4096` of block `p / 4096`, where the
     * array access and `get` each throw when out of range.
     */
    ghost function ByteAt(p: nat): Result<uint8>
      reads this
    {
      if p >= size then Err(IllegalStateException)
      else if p / 4096 >= |blocks| then Err(IndexOutOfBoundsException)
      else Get(blocks[p / 4096], p % 4096)
    }

    /** Over aligned blocks every position below `size` holds its byte of the content. */
    lemma ByteAtContent(p: nat)
      requires Valid() && Aligned(blocks)
      ensures size == |Content()|
      ensures ByteAt(p) == if p < size then Ok(Content()[p]) else Err(IllegalStateException)
    {
      TotalOfAligned(blocks);
      if p < size {
        ConcatIndex(Datas(blocks), p);
      }
    }

    /** `readByte`: the byte at `pos`, advancing `pos` by one; a failed read leaves `pos` alone. */
    method ReadByte() returns (r: Result<uint8>)
      requires Valid()
      modifies this
      ensures Valid() && blocks == old(blocks) && size == old(size)
      ensures r == ByteAt(old(pos))
      ensures pos == old(pos) + if r.Ok? then 1 else 0
    {
      if !HasRemaining() {
        return Err(IllegalStateException);
      }
      var index := BlockIndex();
      if index >= |blocks| {
        return Err(IndexOutOfBoundsException);         // ArrayIndexOutOfBoundsException
      }
      r := Get(blocks[index], BlockOffset());
      if r.Ok? {
        pos := pos + 1;
      }
    }

    /**
     * `readBytes(buffer, offset, len)`: `readByte` into `buffer[offset + i]`
     * for i = 0 .. len-1.  Java evaluates the right-hand side of an array
     * assignment before checking the index, so a bad index throws only
     * after its byte has been consumed; running out of data throws before.
     */
    method ReadBytes(buffer: array<uint8>, offset: int32, len: int32) returns (o: Outcome)
      requires Valid() && Aligned(blocks)
      modifies this, buffer
      ensures Valid() && blocks == old(blocks) && size == old(size)
      ensures var n := Stored(len, Available(size, old(pos)), Room(buffer.Length, offset));
        o.Normal? <==> len <= 0 || n == len
      ensures var avail, n := Available(size, old(pos)), Stored(len, Available(size, old(pos)), Room(buffer.Length, offset));
        o.Thrown? ==> o.error == if n == avail then IllegalStateException else IndexOutOfBoundsException
      ensures var avail, n := Available(size, old(pos)), Stored(len, Available(size, old(pos)), Room(buffer.Length, offset));
        pos == old(pos) + n + (if o.Thrown? && n < avail then 1 else 0)
      ensures var n := Stored(len, Available(size, old(pos)), Room(buffer.Length, offset));
        forall j :: 0 <= j < buffer.Length ==>
          buffer[j] == if offset <= j < offset + n then Content()[old(pos) + j - offset] else old(buffer[j])
    {
      ghost var p0 := pos;
      ghost var avail, room := Available(size, p0), Room(buffer.Length, offset);
      ghost var content := Content();
      var i := 0;
      o := Normal;
      while i < len
        invariant 0 <= i <= (if len > 0 then len else 0) && i <= avail && i <= room
        invariant i > 0 ==> 0 <= offset
        invariant Valid() && blocks == old(blocks) && size == old(size) && pos == p0 + i
        invariant forall j :: 0 <= j < buffer.Length ==>
          buffer[j] == if offset <= j < offset + i then content[p0 + j - offset] else old(buffer[j])
        invariant o == Normal
        decreases len - i
      {
        o := ReadNext(buffer, offset, i, p0, content);
        if o.Thrown? {
          break;
        }
        i := i + 1;
      }
    }

    /** One round of `readBytes`: `buffer[offset + i] = readByte()`. */
    method ReadNext(buffer: array<uint8>, offset: int, i: nat, ghost p0: nat, ghost content: seq<uint8>)
      returns (o: Outcome)
      requires Valid() && Aligned(blocks) && content == Content() && pos == p0 + i
      modifies this, buffer
      ensures Valid() && blocks == old(blocks) && size == old(size)
      ensures o.Normal? <==> p0 + i < size && 0 <= offset + i < buffer.Length
      ensures o.Thrown? ==> o.error == if p0 + i >= size then IllegalStateException else IndexOutOfBoundsException
      ensures pos == p0 + i + if p0 + i < size then 1 else 0
      ensures forall j :: 0 <= j < buffer.Length ==>
        buffer[j] == if o.Normal? && j == offset + i then content[p0 + i] else old(buffer[j])
    {
      ByteAtContent(pos);
      var b := ReadByte();
      if b.Err? {
        return Thrown(b.error);
      }
      if !(0 <= offset + i < buffer.Length) {
        return Thrown(IndexOutOfBoundsException);         // ArrayIndexOutOfBoundsException
      }
      buffer[offset + i] := b.value;
      o := Normal;
    }

    /** `setPos(p)`: only a position inside the data is accepted. */
    method SetPos(p: int64) returns (o: Outcome)
      requires Valid()
      modifies this
      ensures Valid() && blocks == old(blocks) && size == old(size)
      ensures o.Normal? <==> 0 <= p < size
      ensures o.Normal? ==> pos == p
      ensures o.Thrown? ==> o.error == IllegalArgumentException && pos == old(pos)
    {
      if p < 0 || p >= size {
        return Thrown(IllegalArgumentException);
      }
      pos := p;
      return Normal;
    }
  }

  /** The views `toByteBuffers` returns after `writeBytes(data, 0, |data|)` on a new RamWriter. */
  method WriteAll(data: seq<uint8>) returns (views: seq<seq<uint8>>)
    requires |data| < TWO_31
    ensures FullBlocks(views) && |views| >= 1 && Concat(views) == data
  {
    var writer := new RamWriter.RamWriter();
    var o := writer.WriteBytes(data, 0, |data|);
    views := writer.ToByteBuffers();
  }

  /** Every byte read back through `readBytes` from a RamReader over those views. */
  method ReadAll(views: seq<seq<uint8>>) returns (back: seq<uint8>, remaining: bool)
    requires FullBlocks(views) && |views| >= 1 && |Concat(views)| < TWO_31
    ensures back == Concat(views) && !remaining
  {
    var buffers := seq(|views|, i requires 0 <= i < |views| => Buffer(views[i], 0));
    assert Datas(buffers) == views;
    var reader := new RamReader(buffers);
    assert reader.Content() == Concat(views) && reader.pos == 0;
    var buffer := new uint8[|Concat(views)|];
    var o := reader.ReadBytes(buffer, 0, buffer.Length);
    assert Stored(buffer.Length, Available(reader.size, 0), Room(buffer.Length, 0)) == buffer.Length;
    back := buffer[..];
    remaining := reader.HasRemaining();
  }

  /**
   * Bytes written to a RamWriter and read back through a RamReader over its
   * `toByteBuffers` come back unchanged, and nothing remains afterwards.
   */
  method WriteThenRead(data: seq<uint8>) returns (back: seq<uint8>, remaining: bool)
    requires |data| < TWO_31
    ensures back == data && !remaining
  {
    var views := WriteAll(data);
    back, remaining := ReadAll(views);
  }
}
