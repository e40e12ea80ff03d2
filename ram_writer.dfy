/**
 * disk/RamWriter: an in-memory `Writer` that appends into a list of
 * 4096-byte buffers and allocates the next buffer only when a byte
 * arrives for a full one.
 *
 * Each `ByteBuffer` the writer allocates is an array of 4096 bytes;
 * only the current block is ever written, and its `position()` is the field
 * `curPosition`.  The ghost field `written` is every byte accepted so far.
 */
module RamWriter {
  import opened Java
  import opened Blocks

  /**
   * The bytes `writeBytes(b, offset, length)` hands to `writeByte` before it
   * stops: `b[offset + i]` for i = 0, 1, ... up to `length`, or up to the
   * first index outside `b`, where Java throws.
   */
  function Copied(b: seq<uint8>, offset: int, length: int): (r: seq<uint8>)
    ensures |r| <= if length > 0 then length else 0
    ensures forall i :: 0 <= i < |r| ==> 0 <= offset + i < |b| && r[i] == b[offset + i]
    ensures |r| < length ==> !(0 <= offset + |r| < |b|)
  {
    if length <= 0 || offset < 0 || offset >= |b| then []
    else if offset + length <= |b| then b[offset..offset + length]
    else b[offset..]
  }

  class RamWriter {
    var blocks: seq<array<uint8>>
    var curBlock: array<uint8>
    var curPosition: nat
    var pos: int
    var offset: int
    ghost var written: seq<uint8>
    ghost var Repr: set<object>

    /** How many bytes block i holds: all of them, except in the current block. */
    function Filled(i: int): nat
      reads this
    {
      if i == |blocks| - 1 then curPosition else 4096
    }

    /**
     * The blocks: distinct 4096-byte arrays, the last one current, every one
     * before it full, and together holding `written`.
     */
    ghost predicate Layout()
      reads this, Repr
    {
      |blocks| >= 1 && curBlock == blocks[|blocks| - 1] &&
      (forall i :: 0 <= i < |blocks| ==> blocks[i] in Repr && blocks[i].Length == 4096) &&
      (forall i, j :: 0 <= i < j < |blocks| ==> blocks[i] != blocks[j]) &&
      curPosition <= 4096 &&
      pos == |written| == (|blocks| - 1) * 4096 + curPosition &&
      offset == pos - 1 &&
      (forall i, j :: 0 <= i < |blocks| && 0 <= j < Filled(i) ==> blocks[i][j] == written[i * 4096 + j])
    }

    /** Between calls, a block other than the first is never empty: it was added for a byte. */
    ghost predicate Valid()
      reads this, Repr
    {
      Layout() && (|blocks| > 1 ==> curPosition >= 1)
    }

    /** One empty block, `pos == 0` and `offset == -1`. */
    constructor ()
      ensures Valid() && fresh(Repr)
      ensures written == [] && pos == 0 && offset == -1
      ensures |blocks| == 1 && curPosition == 0
    {
      var block := new uint8[4096];
      blocks, curBlock, curPosition := [block], block, 0;
      pos, offset := 0, -1;
      written, Repr := [], {block};
    }

    /** `hasRemaining`: the allocated blocks have room for another byte. */
    function HasRemaining(): (r: bool)
      requires Valid()
      reads this, Repr
      ensures r <==> pos < |blocks| * 4096
    {
      curPosition < 4096
    }

    /** `growBlocks`: a fresh empty block becomes the current one. */
    method GrowBlocks()
      requires Valid() && !HasRemaining()
      modifies this
      ensures Layout() && fresh(curBlock) && curPosition == 0
      ensures blocks == old(blocks) + [curBlock] && Repr == old(Repr) + {curBlock}
      ensures written == old(written) && pos == old(pos) && offset == old(offset)
    {
      var block := new uint8[4096];
      curBlock, curPosition := block, 0;
      blocks := blocks + [block];
      Repr := Repr + {block};
    }

    /** `curBlock.put(b); pos++; offset++`: the byte goes at the current block's position. */
    method Put(b: uint8)
      requires Layout() && curPosition < 4096
      modifies this, curBlock
      ensures Valid() && blocks == old(blocks) && Repr == old(Repr)
      ensures curPosition == old(curPosition) + 1
      ensures written == old(written) + [b] && pos == old(pos) + 1 && offset == old(offset) + 1
    {
      curBlock[curPosition] := b;
      curPosition := curPosition + 1;
      pos, offset := pos + 1, offset + 1;
      written := written + [b];
      forall i, j | 0 <= i < |blocks| && 0 <= j < Filled(i)
        ensures blocks[i][j] == written[i * 4096 + j]
      {
        if i < |blocks| - 1 {
          assert blocks[i] != curBlock;
          assert i * 4096 + j < |written| - 1 by {
            MulMono(4096, i, |blocks| - 2);
          }
        }
      }
    }

    /** `writeByte`: the content grows by `b`, and a block is added only when the current one is full. */
    method WriteByte(b: uint8)
      requires Valid()
      modifies this, curBlock
      ensures Valid() && fresh(Repr - old(Repr))
      ensures written == old(written) + [b] && pos == old(pos) + 1 && offset == old(offset) + 1
      ensures old(blocks) <= blocks
      ensures |blocks| == |old(blocks)| + (if old(curPosition) == 4096 then 1 else 0)
    {
      if !HasRemaining() {
        GrowBlocks();
      }
      Put(b);
    }

    /** `writeBytes(b, offset, length)`: `length` successive `writeByte(b[offset + i])`, stopping at the first index outside `b`. */
    method WriteBytes(b: seq<uint8>, offset: int32, length: int32) returns (o: Outcome)
      requires Valid()
      modifies this, Repr
      ensures Valid() && fresh(Repr - old(Repr))
      ensures written == old(written) + Copied(b, offset, length)
      ensures o.Normal? <==> length <= 0 || (0 <= offset && offset + length <= |b|)
      ensures o.Thrown? ==> o.error == IndexOutOfBoundsException
    {
      var i := 0;
      while i < length
        invariant 0 <= i <= if length > 0 then length else 0
        invariant Valid() && fresh(Repr - old(Repr))
        invariant i > 0 ==> 0 <= offset && offset + i <= |b|
        invariant written == old(written) + if i == 0 then [] else b[offset..offset + i]
        decreases length - i
      {
        if !(0 <= offset + i < |b|) {
          return Thrown(IndexOutOfBoundsException);     // ArrayIndexOutOfBoundsException
        }
        WriteByte(b[offset + i]);
        assert b[offset..offset + i + 1] == (if i == 0 then [] else b[offset..offset + i]) + [b[offset + i]];
        i := i + 1;
      }
      return Normal;
    }

    /** The bytes of block i up to its position: the contents of `flip()`ed view i. */
    ghost function View(i: nat): seq<uint8>
      requires Valid() && i < |blocks|
      reads this, Repr
    {
      blocks[i][..Filled(i)]
    }

    /** The bytes held by the blocks before block i. */
    function Written(i: nat): int
      reads this
    {
      if i < |blocks| then i * 4096 else pos
    }

    /** Block i's view continues the bytes of the blocks before it. */
    lemma ViewStep(i: nat)
      requires Valid() && i < |blocks|
      ensures Written(i) <= Written(i + 1) <= |written|
      ensures written[..Written(i)] + View(i) == written[..Written(i + 1)]
    {
      if i < |blocks| - 1 {
        MulMono(4096, i, |blocks| - 2);
      }
      assert View(i) == written[Written(i)..Written(i + 1)];
    }

    /**
     * `toByteBuffers`: one read-only view per block, each from 0 to the
     * block's position, in block order; together they are every byte
     * written, and the writer is left as it was.
     */
    method ToByteBuffers() returns (views: seq<seq<uint8>>)
      requires Valid()
      ensures |views| == |blocks| && FullBlocks(views)
      ensures |views[|views| - 1]| == curPosition
      ensures Concat(views) == written
    {
      views := [];
      var i := 0;
      while i < |blocks|
        invariant 0 <= i <= |blocks|
        invariant |views| == i
        invariant forall k :: 0 <= k < i ==> |views[k]| == Filled(k)
        invariant Concat(views) == written[..Written(i)]
      {
        var view := blocks[i][..Filled(i)];
        ViewStep(i);
        ConcatSnoc(views, view);
        views := views + [view];
        i := i + 1;
      }
    }

    /** `getPos`: the number of bytes written. */
    function GetPos(): (r: int)
      requires Valid()
      reads this, Repr
      ensures r == |written|
    {
      pos
    }

    /** `getOffset`: the position of the last byte written, one less than `getPos`. */
    function GetOffset(): (r: int)
      requires Valid()
      reads this, Repr
      ensures r == GetPos() - 1
    {
      offset
    }

    /** There is one block per started 4096 bytes, and always at least one. */
    lemma BlockCount()
      requires Valid()
      ensures |blocks| == if pos == 0 then 1 else (pos + 4096 - 1) / 4096
    {
      if pos > 0 {
        if |blocks| == 1 {
          DivUnique(pos + 4096 - 1, 4096, 1, curPosition - 1);
        } else {
          DivUnique(pos + 4096 - 1, 4096, |blocks|, curPosition - 1);
        }
      }
    }
  }
}
