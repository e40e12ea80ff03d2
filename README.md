# piggySearch core, modelled in Dafny

This project models the byte-level codec and the in-memory staging buffers of
piggySearch, a small Lucene-style search engine written in Java, together with
the indexing bookkeeping built on them.

- **Integer codec.**
  - `util/BitUtils` gives zig-zag coding, `nextHighestPowerOfTwo`, Morton interleaving and the little/big-endian byte views.
  - `disk/Writer` encodes fixed-width ints and longs, base-128 varints, zig-zag varints and length-prefixed strings onto one abstract `writeByte` sink.
  - `disk/Reader` decodes with unbounded varint loops.
  - `store/DataInput` decodes with unrolled varints bounded to 5 and 10 bytes that report errors. It also reads arrays of ints and longs, maps and sets of strings, and T-long timestamps.
- **Block staging buffers.**
  - `disk/RamWriter` appends into 4096-byte blocks that it adds lazily.
  - `disk/RamReader` reads by absolute position through `pos / 4096` and `pos % 4096`.
  - `store/ByteArrayDataOutput` is a bounded cursor over one caller array.
- **Array helpers.** `util/ArrayUtil` provides radix `parseInt` with overflow detection, `copyOfSubArray`, and the unsigned byte-window comparators.
- **Indexing bookkeeping.**
  - `index/StoredFieldConsumer` selects a field's type code and tag and writes its payload. Its `finishDocument` and `flush` keep the per-chunk document accounting.
  - `index/IndexingChain` numbers a field name the first time it is seen and refuses over-long stored strings.
  - `index/DocumentsWriterPerThreadPool` is the registry of per-thread writers, with its free list and its new-writer permits.
  - `document/Document` is an ordered list of fields.

How Java is stated in Dafny:

- **Integers.** Java `int`/`long`/`short` values are the subset types `int32`, `int64` and `int16` of `Java`. Casts, shifts and overflows are written out with `Wrap`, `Unsigned` and `Modulus`; the few counters kept unbounded are named under "## Left out". Bytes are `uint8`, the unsigned value `b & 0xFF`.
- **Streams.** A byte sink is the sequence of bytes it receives. A byte source is a sequence read from a position, giving `Result<Read<T>>`: the value and the next position, or the exception.
- **State.** Objects whose fields the source updates in place are classes: `RamWriter`, `RamReader`, `ByteArrayDataOutput`, `StoredFieldConsumer`, `IndexingChain`, `DocumentsWriterPerThreadPool` and `Document`. Their methods state the whole new state.
- **Exceptions.** An operation that throws returns `Outcome` (`Normal` or `Thrown(error)`) or a `Result`.
- **Bit tricks.** `nextHighestPowerOfTwo` and the Morton code are stated on `bv32`/`bv64`.

## Model

| member | source | states |
|---|---|---|
| BitUtils.ZigZagEncode | src/main/java/util/BitUtils.java:183-195 | the code of an int/long is again an int/long of that width |
| BitUtils.ZigZagValue | src/main/java/util/BitUtils.java:183-195 | read unsigned, the code of n >= 0 is 2n and of n < 0 is -2n-1 |
| BitUtils.ZigZagSmall | src/main/java/util/BitUtils.java:187-195 | a value whose magnitude fits in n bits has a code below 2^(n+1) |
| BitUtils.ZigZagDecode | src/main/java/util/BitUtils.java:197-205 | the decode of an int/long is again an int/long of that width |
| BitUtils.ZigZagRoundTrip | src/main/java/util/BitUtils.java:183-205 | zigZagDecode(zigZagEncode(i)) == i for every int and every long |
| BitUtils.ZigZagDecodeEncode | src/main/java/util/BitUtils.java:183-205 | zigZagEncode(zigZagDecode(u)) == u, so the coding is a bijection |
| BitUtils.LittleEndianBytes | src/main/java/util/BitUtils.java:16-31 | a little-endian `set` of n bytes produces exactly n bytes |
| BitUtils.LittleEndianBytesValue | src/main/java/util/BitUtils.java:16-31 | little-endian bytes read back as the low 8n bits of the value |
| BitUtils.Reverse | src/main/java/util/BitUtils.java:53-75 | the big-endian view holds the same number of bytes |
| BitUtils.BigEndianOfReverse | src/main/java/util/BitUtils.java:53-75 | the big-endian value of the reversed bytes is the little-endian value |
| PowerOfTwo.NextHighestPowerOfTwo32Positive | src/main/java/util/BitUtils.java:101-110 | for a positive int the result is a power of two r with v <= r and r/2 < v: v itself when v is a power of two, else the least greater one |
| PowerOfTwo.NextHighestPowerOfTwo32NonPositive | src/main/java/util/BitUtils.java:101-110 | zero and negative ints give 0, except Integer.MIN_VALUE, which gives itself |
| PowerOfTwo.NextHighestPowerOfTwo64IsPower | src/main/java/util/BitUtils.java:116-126 | for a positive long the result is a power of two |
| PowerOfTwo.NextHighestPowerOfTwo64Covers | src/main/java/util/BitUtils.java:116-126 | the low ones of result - 1 cover every bit of v - 1 |
| PowerOfTwo.CoveringPowerAtLeast | src/main/java/util/BitUtils.java:116-126 | a power of two whose low ones cover v - 1 is at least v |
| PowerOfTwo.NextHighestPowerOfTwo64HalfBit | src/main/java/util/BitUtils.java:116-126 | for a positive long, half the result is one of the bits of v - 1 |
| PowerOfTwo.NextHighestPowerOfTwo64Least | src/main/java/util/BitUtils.java:116-126 | for a positive long, half the result is at most v - 1, so no smaller power of two reaches v: the result is the least one |
| PowerOfTwo.NextHighestPowerOfTwo64Positive | src/main/java/util/BitUtils.java:116-126 | for a positive long the result is a power of two whose low ones cover v - 1 (hence at least v) and whose half is below v |
| PowerOfTwo.NextHighestPowerOfTwo64NonPositive | src/main/java/util/BitUtils.java:116-126 | zero and negative longs give 0, except Long.MIN_VALUE, which gives itself |
| Morton.InterleaveBits | src/main/java/util/BitUtils.java:149-164 | bit 2k of the result is bit k of `even` and bit 2k+1 is bit k of `odd` |
| Morton.DeinterleaveEven | src/main/java/util/BitUtils.java:149-175 | deinterleave(interleave(even, odd)) is `even` read as unsigned 32 bits |
| Morton.DeinterleaveOdd | src/main/java/util/BitUtils.java:149-180 | deinterleave(flipFlop(interleave(even, odd))) is `odd` read as unsigned 32 bits |
| Morton.FlipFlopInvolution | src/main/java/util/BitUtils.java:178-180 | flipFlop(flipFlop(b)) == b |
| Morton.FlipFlopSwaps | src/main/java/util/BitUtils.java:178-180 | flipFlop(interleave(e, o)) == interleave(o, e) |
| Writer.VarintBytes | src/main/java/disk/Writer.java:26-32 | a varint has at least one byte, and its first byte carries the low seven bits |
| Writer.VarintShape | src/main/java/disk/Writer.java:26-32 | bit 0x80 is set on every byte but the last and clear on the last |
| Writer.VarintGroups | src/main/java/disk/Writer.java:26-32 | byte k carries bits 7k .. 7k+6 of the value |
| Writer.VarintValueOfBytes | src/main/java/disk/Writer.java:26-32 | the seven-bit groups of the bytes spell the value back |
| Writer.VarintLength | src/main/java/disk/Writer.java:26-32 | a value takes at most n bytes exactly when it is below 2^(7n) |
| Writer.VarintMaxLength | src/main/java/disk/Writer.java:26-49 | a 32-bit pattern takes at most 5 bytes and a 64-bit pattern at most 10 |
| Writer.WriteVarint | src/main/java/disk/Writer.java:26-49 | the loop emits the varint of the unsigned pattern of i |
| Writer.WriteVInt | src/main/java/disk/Writer.java:26-32 | writeVInt emits the varint of the unsigned int, 1 to 5 bytes |
| Writer.WriteVLong | src/main/java/disk/Writer.java:43-49 | writeVLong emits the varint of the unsigned long, 1 to 10 bytes |
| Writer.WriteZInt | src/main/java/disk/Writer.java:34-36 | writeZInt emits the varint of the zig-zag code, 2i or -2i-1 |
| Writer.WriteZLong | src/main/java/disk/Writer.java:51-53 | writeZLong emits the varint of the zig-zag code, 2l or -2l-1 |
| Writer.IntBytes | src/main/java/disk/Writer.java:19-24 | writeInt emits 4 bytes whose little-endian value is the unsigned int |
| Writer.LongBytes | src/main/java/disk/Writer.java:38-41 | writeLong emits writeInt of the low word, then of the high word: 8 bytes whose little-endian value is the unsigned long |
| Writer.LongSplit | src/main/java/disk/Writer.java:38-41 | the low and high words of a long recombine to its unsigned value |
| Writer.WriteBytesSlice | src/main/java/disk/Writer.java:12 | the sink receives exactly b[offset .. offset + length) |
| Writer.WriteBytes | src/main/java/disk/Writer.java:14-16 | writeBytes(b, len) emits the first len bytes, as writeBytes(b, 0, len) |
| Writer.WriteString | src/main/java/disk/Writer.java:55-59 | writeString emits the vint of the UTF-8 length, then exactly those bytes |
| Reader.ReadByte | src/main/java/disk/Reader.java:17 | a byte is read exactly when one remains, and the position moves past it |
| Reader.ReadBytes | src/main/java/disk/Reader.java:20 | len bytes are read exactly when they remain, and they are src[pos .. pos + len) |
| Reader.ReadInt | src/main/java/disk/Reader.java:22-28 | four bytes are needed, and their unsigned little-endian value is the int's pattern |
| Reader.ReadIntOfIntBytes | src/main/java/disk/Reader.java:22-28 | readInt over writeInt(i) gives i and consumes 4 bytes |
| Reader.ReadShort | src/main/java/disk/Reader.java:46-50 | two bytes are needed, and the short is their little-endian value, sign-extended |
| Reader.ReadLong | src/main/java/disk/Reader.java:52-56 | eight bytes are needed, and their unsigned little-endian value is the long's pattern |
| Reader.JoinWords | src/main/java/disk/Reader.java:55 | `(long) high << 32 \| (low & 0xffffffffL)` is the unsigned low word plus 2^32 times the unsigned high word |
| Reader.ReadLongOfLongBytes | src/main/java/disk/Reader.java:52-56 | readLong over writeLong(l) gives l and consumes 8 bytes |
| Reader.DecodeVarintFrom | src/main/java/disk/Reader.java:30-40 | a decoded value is in range and at least one byte is consumed |
| Reader.ReadVarint | src/main/java/disk/Reader.java:30-40 | the do-while loop of readVInt/readVLong computes DecodeVarintFrom |
| Reader.ReadVInt | src/main/java/disk/Reader.java:30-40 | readVInt is the 32-bit decode and gives an int |
| Reader.ReadVLong | src/main/java/disk/Reader.java:58-68 | readVLong is the 64-bit decode and gives a long |
| Reader.DecodeVarintBytes | src/main/java/disk/Reader.java:30-40 | decoding the varint bytes of v from shift s adds 2^s * v, wrapped, and consumes exactly those bytes |
| Reader.ReadVarintOfVarintBytes | src/main/java/disk/Reader.java:30-68 | readVInt/readVLong over writeVInt/writeVLong output give the value back and consume exactly its bytes |
| Reader.ReadZVarint | src/main/java/disk/Reader.java:42-44 | readZInt/readZLong are the zig-zag decode of the varint, failing where it fails |
| Reader.ReadZVarintOfZVarintBytes | src/main/java/disk/Reader.java:42-73 | readZInt/readZLong over writeZInt/writeZLong output give the value back |
| Reader.StringAt | src/main/java/disk/Reader.java:75-80 | readString reads the vint length and then exactly that many bytes |
| Reader.ReadString | src/main/java/disk/Reader.java:75-80 | the method computes StringAt |
| Reader.ReadLengthPrefixed | src/main/java/disk/Reader.java:75-80 | a length-prefixed byte string reads back whole |
| Reader.ReadStringOfWriteString | src/main/java/disk/Reader.java:75-80 | readString over writeString(s) gives the UTF-8 bytes of s and consumes them |
| Reader.ReadZFloat | src/main/java/disk/Reader.java:86-99 | header 0xFF: raw int bits; 0x80-0xFE: the small integer (b & 0x7f) - 1; otherwise b << 24 \| readShort << 8 \| readByte; no byte: an error |
| Reader.Unsigned16 | src/main/java/disk/Reader.java:96 | `readShort() & 0xFFFF` is the short read as unsigned 16 bits |
| Reader.ReadZDouble | src/main/java/disk/Reader.java:105-125 | header 0xFF: raw long bits; 0xFE: raw float bits; 0x80-0xFD: a small integer; otherwise the header is the top byte of 8 |
| Reader.TimeUnit | src/main/java/disk/Reader.java:142-157 | `header & DAY_ENCODING` selects SECOND, HOUR or DAY, 0 is unscaled, and anything else fails |
| Reader.TLongBits | src/main/java/disk/Reader.java:134-138 | the low five bits of the bits are the low five header bits |
| Reader.TLongAt | src/main/java/disk/Reader.java:131-160 | readTLong takes the low 5 header bits, adds a vlong shifted by 5 when bit 0x20 is set, zig-zag decodes and scales by the unit |
| Reader.ReadTLong | src/main/java/disk/Reader.java:131-160 | the method computes TLongAt |
| DataInput.BoundedFrom | src/main/java/store/DataInput.java:91-109 | the unrolled decode gives an in-range value after at most the bounded number of bytes |
| DataInput.ReadVInt | src/main/java/store/DataInput.java:91-109 | readVInt gives an int after 1 to 5 bytes |
| DataInput.ReadVIntRejects | src/main/java/store/DataInput.java:91-109 | readVInt throws IOException exactly when four bytes continue and the fifth has a bit of 0xF0 |
| DataInput.BoundedRejects | src/main/java/store/DataInput.java:91-109 | the unrolled decode throws IOException exactly when every allowed byte continues and the last is refused |
| DataInput.BoundedAgrees | src/main/java/store/DataInput.java:91-107 | where the unrolled decode succeeds it equals the unbounded loop |
| DataInput.ReadVIntAgrees | src/main/java/store/DataInput.java:91-107 | where readVInt succeeds it returns what disk/Reader's readVInt returns |
| DataInput.ReadVIntOfVarintBytes | src/main/java/store/DataInput.java:91-109 | readVInt accepts every writeVInt output and gives the int back |
| DataInput.ReadVLong | src/main/java/store/DataInput.java:178-218 | readVLong gives a long after 1 to 10 bytes, and without allowNegative a non-negative one after at most 9 |
| DataInput.NonNegativeLong | src/main/java/store/DataInput.java:182-218 | without allowNegative the decoded long is never negative |
| DataInput.ReadVLongRejects | src/main/java/store/DataInput.java:178-218 | readVLong() throws IOException exactly when the first nine bytes all have bit 0x80 set |
| DataInput.ReadVLongAllowNegativeRejects | src/main/java/store/DataInput.java:210-214 | with allowNegative, a tenth byte other than 0 or 1 is an IOException |
| DataInput.ReadVLongAgrees | src/main/java/store/DataInput.java:182-218 | where readVLong succeeds it returns what disk/Reader's readVLong returns |
| DataInput.ReadVLongOfVarintBytes | src/main/java/store/DataInput.java:182-218 | readVLong accepts writeVLong output, a negative long only with allowNegative |
| DataInput.ReadZInt | src/main/java/store/DataInput.java:117-119 | readZInt is the zig-zag decode of readVInt |
| DataInput.ReadZLong | src/main/java/store/DataInput.java:226-228 | readZLong is the zig-zag decode of readVLong(true) |
| DataInput.ReadZIntOfZIntBytes | src/main/java/store/DataInput.java:117-119 | readZInt over writeZInt(i) gives i back |
| DataInput.ReadZLongOfZLongBytes | src/main/java/store/DataInput.java:226-228 | readZLong over writeZLong(l) gives l back, negative values included |
| DataInput.ReadString | src/main/java/store/DataInput.java:235-240 | a read string is the bytes after the vint length, exactly that many |
| DataInput.ReadStringFails | src/main/java/store/DataInput.java:235-240 | readString fails with the length's error, NegativeArraySizeException for a negative length, and otherwise exactly when the bytes run out |
| DataInput.ReadStringOfWriteString | src/main/java/store/DataInput.java:235-240 | readString over writeString(s) gives the UTF-8 bytes of s |
| DataInput.RepeatAt | src/main/java/store/DataInput.java:274-278 | n successful reads give n items |
| DataInput.MapOfKeys | src/main/java/store/DataInput.java:273-279 | the keys of the map are exactly the keys read |
| DataInput.MapOfLastWins | src/main/java/store/DataInput.java:273-279 | a key's value is the value of its last pair: a later duplicate overwrites |
| DataInput.MapAt | src/main/java/store/DataInput.java:266-281 | readMapOfStrings reads a vint count, then that many pairs, put in order; it holds at most `count` entries |
| DataInput.ReadMapOfStrings | src/main/java/store/DataInput.java:266-281 | the method, with its loop, computes MapAt |
| DataInput.PutPairs | src/main/java/store/DataInput.java:273-279 | the loop puts RepeatAt's pairs in order, or fails with the first failure |
| DataInput.SetOfElements | src/main/java/store/DataInput.java:295-299 | the set holds exactly the strings read |
| DataInput.SetAt | src/main/java/store/DataInput.java:288-301 | readSetOfStrings reads a vint count, then that many strings, added to a set |
| DataInput.ReadSetOfStrings | src/main/java/store/DataInput.java:288-301 | the method, with its loop, computes SetAt |
| DataInput.AddStrings | src/main/java/store/DataInput.java:295-299 | the loop adds RepeatAt's strings, or fails with the first failure |
| DataInput.ReadInts | src/main/java/store/DataInput.java:149-154 | after the index check, dst[off .. off + len) get successive little-endian ints and every other cell is unchanged |
| DataInput.ReadLongs | src/main/java/store/DataInput.java:135-140 | after the index check, dst[off .. off + len) get successive little-endian longs and every other cell is unchanged |
| DataInput.ReadLongInto | src/main/java/store/DataInput.java:138 | one cell gets the next long, or the read fails leaving the array alone |
| DataInput.ReadTLong | src/main/java/store/DataInput.java:352-381 | the T-long rule of disk/Reader over the bounded readVLong() |
| DataInput.ReadTLongAgrees | src/main/java/store/DataInput.java:352-381 | where the bounded readTLong succeeds, disk/Reader's gives the same |
| RamWriter.Copied | src/main/java/disk/RamWriter.java:41-46 | the bytes of b from offset that writeBytes copies in order before an index leaves b |
| RamWriter.RamWriter.constructor | src/main/java/disk/RamWriter.java:22-28 | one empty block, pos 0 and offset -1 |
| RamWriter.RamWriter.HasRemaining | src/main/java/disk/RamWriter.java:66-68 | the current block has room exactly when pos is below the capacity of the blocks |
| RamWriter.RamWriter.GrowBlocks | src/main/java/disk/RamWriter.java:70-73 | a fresh empty block is appended and becomes the current one |
| RamWriter.RamWriter.WriteByte | src/main/java/disk/RamWriter.java:31-38 | the content grows by b, pos and offset by one, and a block is added only when the current one is full |
| RamWriter.RamWriter.WriteBytes | src/main/java/disk/RamWriter.java:41-46 | the content grows by the bytes copied; it throws exactly when the range leaves b |
| RamWriter.RamWriter.ToByteBuffers | src/main/java/disk/RamWriter.java:48-56 | one view per block, all full but the last, concatenating to the content, with nothing changed |
| RamWriter.RamWriter.GetPos | src/main/java/disk/RamWriter.java:58-60 | the number of bytes written |
| RamWriter.RamWriter.GetOffset | src/main/java/disk/RamWriter.java:62-64 | getOffset() == getPos() - 1 |
| RamWriter.RamWriter.BlockCount | src/main/java/disk/RamWriter.java:32-34 | the block count is max(1, ceil(pos / 4096)) |
| RamReader.TotalOfAligned | src/main/java/disk/RamReader.java:44-46 | over blocks read from position 0, `size` is the number of bytes they hold |
| RamReader.SliceBlocks | src/main/java/disk/RamReader.java:25-36 | the single-buffer constructor's loop as written: full blocks sliced from index 0, then the rest |
| RamReader.SlicedContentIgnoresPosition | src/main/java/disk/RamReader.java:25-36 | 4106 bytes at position 10 keep all 4106 bytes, the 10 before the position included |
| RamReader.SliceBlocksFromPosition | src/main/java/disk/RamReader.java:25-36 | the intended slicing keeps exactly the bytes from the position on, in aligned blocks |
| RamReader.CutFullBlocks | src/main/java/disk/RamReader.java:28-33 | full 4096-byte blocks are cut while at least that many bytes remain; fewer than 4096 are left |
| RamReader.RamReader.constructor | src/main/java/disk/RamReader.java:21-23 | init over the given blocks |
| RamReader.RamReader.FromBuffer | src/main/java/disk/RamReader.java:25-39 | the content is what SliceBlocks keeps, SlicedContent |
| RamReader.RamReader.FromBufferIntended | src/main/java/disk/RamReader.java:25-39 | with the intended slicing the content is the buffer's bytes from its position on |
| RamReader.RamReader.Init | src/main/java/disk/RamReader.java:41-48 | size is the sum of the remaining bytes, pos the first block's position, and no block at all throws |
| RamReader.RamReader.HasRemaining | src/main/java/disk/RamReader.java:73-75 | hasRemaining() holds exactly when pos < size |
| RamReader.RamReader.BlockIndex | src/main/java/disk/RamReader.java:77-79 | the block that holds pos: pos lies in [4096 r, 4096 r + 4096) |
| RamReader.RamReader.BlockOffset | src/main/java/disk/RamReader.java:81-83 | pos == blockIndex() * 4096 + blockOffset(), with the offset below 4096 |
| RamReader.RamReader.ByteAtContent | src/main/java/disk/RamReader.java:50-57 | below size the byte at pos % 4096 of block pos / 4096 is the content's byte pos; at or past size it is an IllegalStateException |
| RamReader.RamReader.ReadByte | src/main/java/disk/RamReader.java:50-57 | the byte at pos, advancing pos by one; past the end an IllegalStateException with pos unchanged |
| RamReader.RamReader.ReadBytes | src/main/java/disk/RamReader.java:60-64 | buffer[off .. off + len) get consecutive bytes until the data or the array runs out, and other cells are unchanged |
| RamReader.RamReader.ReadNext | src/main/java/disk/RamReader.java:62 | one store of readByte() into buffer[offset + i] |
| RamReader.RamReader.SetPos | src/main/java/disk/RamReader.java:66-71 | only 0 <= p < size is accepted; otherwise IllegalArgumentException with pos unchanged |
| RamReader.WriteThenRead | src/main/java/disk/RamReader.java:21-64 | bytes written to a RamWriter and read back through a RamReader over its views come back unchanged, with nothing remaining |
| ByteArrayDataOutput.ShortBytes | src/main/java/util/BitUtils.java:16-17 | the two bytes' little-endian value is the short's unsigned pattern |
| ByteArrayDataOutput.ReadShortOfShortBytes | src/main/java/store/ByteArrayDataOutput.java:52-56 | readShort over writeShort(i) gives i |
| ByteArrayDataOutput.ByteArrayDataOutput.constructor | src/main/java/store/ByteArrayDataOutput.java:12-14 | the whole array, pos 0 |
| ByteArrayDataOutput.ByteArrayDataOutput.WithRange | src/main/java/store/ByteArrayDataOutput.java:16-18 | pos == offset and limit == offset + len in int arithmetic |
| ByteArrayDataOutput.ByteArrayDataOutput.Empty | src/main/java/store/ByteArrayDataOutput.java:20-22 | pos == limit == 0, so no write is admitted |
| ByteArrayDataOutput.ByteArrayDataOutput.Reset | src/main/java/store/ByteArrayDataOutput.java:24-26 | the whole new array, pos 0 |
| ByteArrayDataOutput.ByteArrayDataOutput.ResetRange | src/main/java/store/ByteArrayDataOutput.java:28-32 | pos == offset and limit == offset + len in int arithmetic |
| ByteArrayDataOutput.ByteArrayDataOutput.GetPosition | src/main/java/store/ByteArrayDataOutput.java:34-36 | getPosition() is pos |
| ByteArrayDataOutput.ByteArrayDataOutput.WriteByte | src/main/java/store/ByteArrayDataOutput.java:39-42 | within the limit (the assert), b is stored at pos and no other cell changes; pos moves by one even when pos lies outside the array, where the store throws IndexOutOfBoundsException and nothing is written |
| ByteArrayDataOutput.ByteArrayDataOutput.WriteBytes | src/main/java/store/ByteArrayDataOutput.java:45-49 | b[offset .. offset + length) is copied to [pos, pos + length) and pos advances; a negative length, or a source or destination range outside its array, throws IndexOutOfBoundsException and changes nothing |
| ByteArrayDataOutput.ByteArrayDataOutput.WriteShort | src/main/java/store/ByteArrayDataOutput.java:52-56 | two little-endian bytes at pos, which readShort turns back into i, and pos advances by 2; when they do not fit in the array, IndexOutOfBoundsException with nothing changed |
| ByteArrayDataOutput.ByteArrayDataOutput.WriteInt | src/main/java/store/ByteArrayDataOutput.java:59-63 | four little-endian bytes at pos, which readInt turns back into i, and pos advances by 4; when they do not fit in the array, IndexOutOfBoundsException with nothing changed |
| ByteArrayDataOutput.ByteArrayDataOutput.WriteLong | src/main/java/store/ByteArrayDataOutput.java:66-70 | eight little-endian bytes at pos, which readLong turns back into i, and pos advances by 8; when they do not fit in the array, IndexOutOfBoundsException with nothing changed |
| ArrayUtil.Digit | src/main/java/util/ArrayUtil.java:71 | the result is -1 or a digit below the radix, and a digit comes only from 0-9, a-z or A-Z |
| ArrayUtil.Accumulated | src/main/java/util/ArrayUtil.java:68-83 | the loop succeeds exactly on digit strings worth at most 2^31, leaving minus their value |
| ArrayUtil.Accumulation | src/main/java/util/ArrayUtil.java:68-83 | the loop of parse computes Accumulated on the range, or fails on an index outside the array |
| ArrayUtil.ParseStep | src/main/java/util/ArrayUtil.java:71-82 | one iteration extends Accumulated by the next character |
| ArrayUtil.Accumulate | src/main/java/util/ArrayUtil.java:75-82 | the two overflow checks accept exactly when the magnitude stays within 2^31 |
| ArrayUtil.PrefixRejected | src/main/java/util/ArrayUtil.java:70-83 | a rejected prefix rejects the whole range |
| ArrayUtil.ApplySign | src/main/java/util/ArrayUtil.java:86-91 | a negative result is kept; a positive one is negated, and a magnitude of 2^31 throws |
| ArrayUtil.Parse | src/main/java/util/ArrayUtil.java:66-93 | parse gives the value of the digits, negated when negative, or NumberFormatException |
| ArrayUtil.ParseInt | src/main/java/util/ArrayUtil.java:46-64 | null array or bad radix: NumberFormatException; an empty range, a lone '-', a non-digit or an overflow is rejected; otherwise the value of the characters, Integer.MIN_VALUE included |
| ArrayUtil.ParseDecimal | src/main/java/util/ArrayUtil.java:32-34 | parseInt(chars, offset, len) is the radix-10 parse |
| ArrayUtil.ToDigitsValue | src/main/java/util/ArrayUtil.java:66-93 | the digits printed for n are digits whose value is n |
| ArrayUtil.ParsedIntToString | src/main/java/util/ArrayUtil.java:46-93 | every int, Integer.MIN_VALUE included, parses back from its printed digits |
| ArrayUtil.ParsedTwo31 | src/main/java/util/ArrayUtil.java:86-91 | the positive magnitude 2^31 is rejected, and with a '-' it gives Integer.MIN_VALUE |
| ArrayUtil.CopyOfSubArray | src/main/java/util/ArrayUtil.java:200-210 | a negative `to - from` throws NegativeArraySizeException, a range outside the array IndexOutOfBoundsException, and otherwise a fresh array holding a[from .. to) |
| ArrayUtil.Compare | src/main/java/util/ArrayUtil.java:239-246 | compare has the sign of x - y |
| ArrayUtil.BigEndianGet | src/main/java/util/ArrayUtil.java:240 | a big-endian `get` reads w/8 bytes in the array, whose unsigned value is the pattern's |
| ArrayUtil.CompareUnsigned8 | src/main/java/util/ArrayUtil.java:237-241 | the sign of the difference of the two 8-byte big-endian unsigned values |
| ArrayUtil.CompareUnsigned4 | src/main/java/util/ArrayUtil.java:243-247 | the sign of the difference of the two 4-byte big-endian unsigned values |
| ArrayUtil.ArraysCompareUnsigned | src/main/java/util/ArrayUtil.java:233 | Arrays.compareUnsigned succeeds exactly on two valid ranges; a's range is checked first: a reversed range gives IllegalArgumentException, one outside its array ArrayIndexOutOfBoundsException |
| ArrayUtil.MismatchOrder | src/main/java/util/ArrayUtil.java:224-235 | lexicographic order by unsigned byte is the order of the big-endian values |
| ArrayUtil.RangeComparatorOrder | src/main/java/util/ArrayUtil.java:231-234 | the general comparator orders n-byte windows as unsigned big-endian numbers, and fails exactly when a window leaves its array |
| ArrayUtil.UnsignedComparatorOrder | src/main/java/util/ArrayUtil.java:224-247 | getUnsignedComparator(n) orders n-byte windows as unsigned big-endian numbers whichever path it picks |
| ArrayUtil.FastPathsAgree | src/main/java/util/ArrayUtil.java:224-247 | the 4- and 8-byte fast paths agree with the general path |
| Fields.MakeField | src/main/java/index/Field.java:14-58 | the accessors answer by instanceof on one object: at most one of stringValue/binaryValue/numericValue is non-null, and reading them back gives the data the field was built from |
| Document.IndexOf | src/main/java/document/Document.java:24-33 | the first position of a field with that name, or -1 when there is none |
| Document.RemoveFirstCutsFirstMatch | src/main/java/document/Document.java:24-33 | removal cuts exactly the first match, keeps the others in order, and with no match changes nothing |
| Document.FilterMembers | src/main/java/document/Document.java:35-37 | removeFields keeps exactly the fields not called `name` |
| Document.FilterAppend | src/main/java/document/Document.java:35-37 | the kept fields stay in their original order |
| Document.FilterIdempotent | src/main/java/document/Document.java:35-37 | removeFields is idempotent |
| Document.Document.constructor | src/main/java/document/Document.java:13 | no fields |
| Document.Document.Add | src/main/java/document/Document.java:20-22 | the field goes at the end |
| Document.Document.Iterator | src/main/java/document/Document.java:15-18 | iteration follows the list, which is insertion order |
| Document.Document.RemoveField | src/main/java/document/Document.java:24-33 | the iterator loop removes the first field with that name |
| Document.Document.RemoveFields | src/main/java/document/Document.java:35-37 | no field of that name is left, the others keep their order |
| StoredFieldConsumer.NumericTypeCode | src/main/java/index/StoredFieldConsumer.java:134-145 | Byte/Short/Integer give 0x02, Long 0x04, Float 0x03, Double 0x05; any other Number is an IllegalArgumentException |
| StoredFieldConsumer.SelectAsWritten | src/main/java/index/StoredFieldConsumer.java:146-161 | as written: no binary value gives BYTE_ARR with no string, and a binary value gives STRING and then needs a string |
| StoredFieldConsumer.Select | src/main/java/index/StoredFieldConsumer.java:146-161 | as intended: a binary value gives BYTE_ARR, else a string gives STRING, else IllegalArgumentException |
| StoredFieldConsumer.Tag | src/main/java/index/StoredFieldConsumer.java:163 | tag & 7 is the type code and tag >> 3 the field number |
| StoredFieldConsumer.SelectionsWellFormed | src/main/java/index/StoredFieldConsumer.java:128-161 | a selection carries a code below 8 and only the field's own string |
| StoredFieldConsumer.TagRoundTrip | src/main/java/index/StoredFieldConsumer.java:163-165 | the tag reads back as a VLong whose low 3 bits are the code and the rest the field number |
| StoredFieldConsumer.AsWrittenRejectsStringsAndBytes | src/main/java/index/StoredFieldConsumer.java:146-184 | as written, a string-only field writes a BYTE_ARR tag and ends in an AssertionError, and a bytes-only field is refused |
| StoredFieldConsumer.StringRecord | src/main/java/index/StoredFieldConsumer.java:163-171 | as intended, a string field is a STRING tag followed by writeString |
| StoredFieldConsumer.TagStringRoundTrip | src/main/java/index/StoredFieldConsumer.java:163-171 | a tag followed by a length-prefixed string reads back as both |
| StoredFieldConsumer.BinaryRecord | src/main/java/index/StoredFieldConsumer.java:163-169 | as intended, a binary field is a BYTE_ARR tag, the vint length and the bytes |
| StoredFieldConsumer.IntendedThrowsOnlyExceptions | src/main/java/index/StoredFieldConsumer.java:126-185 | as intended, every refusal is an IllegalArgumentException, exactly for unknown numbers or no value, and nothing throws an Error |
| StoredFieldConsumer.ChunkLengthsAreDocSizes | src/main/java/index/StoredFieldConsumer.java:113-117 | lengths[0] stays 0 and lengths[i] is the size of document i, never negative |
| StoredFieldConsumer.GapsSum | src/main/java/index/StoredFieldConsumer.java:113-117 | the lengths sum to the bytes between the first and the last end offset |
| StoredFieldConsumer.ComputeLengths | src/main/java/index/StoredFieldConsumer.java:113-117 | the loop fills lengths[i] = endOffsets[i] - endOffsets[i-1] for i >= 1 and leaves lengths[0] at 0 |
| StoredFieldConsumer.StoredFieldConsumer.constructor | src/main/java/index/StoredFieldConsumer.java:60-71 | no buffered documents, docBase 0, no chunks, empty lists, maxDocsPerChunk 128 |
| StoredFieldConsumer.StoredFieldConsumer.WriteField | src/main/java/index/StoredFieldConsumer.java:126-185 | as written: numStoredFieldsInDoc grows by one and the buffer by the record |
| StoredFieldConsumer.StoredFieldConsumer.WriteFieldIntended | src/main/java/index/StoredFieldConsumer.java:126-185 | as intended: numStoredFieldsInDoc grows by one and the buffer by the record |
| StoredFieldConsumer.StoredFieldConsumer.WriteRecord | src/main/java/index/StoredFieldConsumer.java:163-184 | the tag as a VLong, then the payload |
| StoredFieldConsumer.StoredFieldConsumer.WriteBytesRef | src/main/java/index/StoredFieldConsumer.java:167-169 | the vint length, then the bytes through RamWriter's writeBytes |
| StoredFieldConsumer.StoredFieldConsumer.WriteNumber | src/main/java/index/StoredFieldConsumer.java:172-183 | writeZInt for every int width, the encoders for long/float/double, an AssertionError otherwise |
| StoredFieldConsumer.StoredFieldConsumer.TriggerFlush | src/main/java/index/StoredFieldConsumer.java:106-108 | a flush is due exactly when numBufferedDocs >= 128 |
| StoredFieldConsumer.StoredFieldConsumer.FinishDocument | src/main/java/index/StoredFieldConsumer.java:90-104 | the field count and the buffer size are appended, the count reset, numBufferedDocs grows by one, and a chunk is flushed exactly at 128 or more |
| StoredFieldConsumer.StoredFieldConsumer.AddDocument | src/main/java/index/StoredFieldConsumer.java:91-98 | the bookkeeping before the flush check, keeping numBufferedDocs == \|endOffsets\| == \|numStoredFields\| |
| StoredFieldConsumer.StoredFieldConsumer.Flush | src/main/java/index/StoredFieldConsumer.java:110-123 | numChunks grows by one; lengths come from endOffsets; the lists and counters are unchanged; the `lengths[i] >= 0` assert is not checked (see Left out) |
| StoredFieldConsumer.StoredFieldConsumer.LengthsAreDocSizes | src/main/java/index/StoredFieldConsumer.java:110-117 | lengths[i] for i >= 1 is the size of document i |
| IndexingChain.FirstSeen | src/main/java/index/IndexingChain.java:32-38 | numbering a document's names keeps the known names first |
| IndexingChain.FirstSeenDistinct | src/main/java/index/IndexingChain.java:32-38 | the first-seen order holds no name twice |
| IndexingChain.FirstSeenMembers | src/main/java/index/IndexingChain.java:32-38 | a name is numbered after a document exactly when it was known or the document has it |
| IndexingChain.FirstSeenOfKnown | src/main/java/index/IndexingChain.java:32-38 | a document of known names numbers nothing new |
| IndexingChain.NumberingValues | src/main/java/index/IndexingChain.java:63 | the j-th name seen has number j + 1, wrapped to int |
| IndexingChain.NumberingKeys | src/main/java/index/IndexingChain.java:63 | the numbered names are those seen |
| IndexingChain.DistinctNumbers | src/main/java/index/IndexingChain.java:21-63 | numbers are 1, 2, 3, ... in first-seen order, and distinct names get distinct numbers |
| IndexingChain.NumbersKept | src/main/java/index/IndexingChain.java:63-64 | a name's number never changes once assigned |
| IndexingChain.RecordsRaiseNoError | src/main/java/index/IndexingChain.java:76-80 | with the intended writeField no record ends in an Error, so every throw is swallowed |
| IndexingChain.ProcessedOutcome | src/main/java/index/IndexingChain.java:40-83 | processing throws exactly at the first over-long stored string, and otherwise completes |
| IndexingChain.DocumentRunOutcome | src/main/java/index/IndexingChain.java:40-83 | the same for a whole document whose names are numbered: it throws exactly when some stored string is over-long |
| IndexingChain.AsWrittenStringFieldEscapes | src/main/java/index/IndexingChain.java:67-83 | with writeField as written, a stored string field of acceptable length appends a BYTE_ARR tag and ends in AssertionError, which catch (Exception) does not swallow, so the document's processing ends with it |
| IndexingChain.ProcessedStops | src/main/java/index/IndexingChain.java:41-46 | once a field throws, the later fields change nothing |
| IndexingChain.IndexingChain.constructor | src/main/java/index/IndexingChain.java:15-25 | empty maps and the counter at 0 |
| IndexingChain.IndexingChain.GetOrAddPerField | src/main/java/index/IndexingChain.java:85-94 | the known PerField of a name, or a new one, recorded in fieldHash |
| IndexingChain.IndexingChain.InitializeFieldInfo | src/main/java/index/IndexingChain.java:62-65 | a new name gets nextFieldNum + 1, a known name keeps its number, and the PerField gets that FieldInfo |
| IndexingChain.IndexingChain.InitializeFields | src/main/java/index/IndexingChain.java:32-38 | every field has its FieldInfo before any is processed, numbered in first-seen order |
| IndexingChain.IndexingChain.ProcessField | src/main/java/index/IndexingChain.java:67-83 | an over-long stored string throws IllegalArgumentException before writeField; the exceptions writeField throws are swallowed |
| IndexingChain.IndexingChain.ProcessFields | src/main/java/index/IndexingChain.java:40-46 | the fields in order, until one throws |
| IndexingChain.IndexingChain.FinishStoredFields | src/main/java/index/IndexingChain.java:53-60 | finishDocument appends the field count and resets it, appends the buffer size to endOffsets, counts the document, flushes a chunk once 128 are buffered, and keeps docBase |
| IndexingChain.IndexingChain.ProcessDocument | src/main/java/index/IndexingChain.java:27-51 | numbering in first-seen order with the old numbers kept, the records written until a field throws, and finishDocument exactly once, even when a field throws: the field count and the buffer size appended, the document counted, a chunk flushed once 128 are buffered, docBase kept |
| DocumentsWriterPerThreadPool.KeptMembers | src/main/java/index/DocumentsWriterPerThreadPool.java:127-142 | the kept writers are exactly those that pass the test and are registered |
| DocumentsWriterPerThreadPool.KeptDistinct | src/main/java/index/DocumentsWriterPerThreadPool.java:127-142 | no writer is kept twice |
| DocumentsWriterPerThreadPool.DocumentsWriterPerThreadPool.constructor | src/main/java/index/DocumentsWriterPerThreadPool.java:36-38 | no writers and no permits taken; the factory is fixed (see Left out) |
| DocumentsWriterPerThreadPool.DocumentsWriterPerThreadPool.Size | src/main/java/index/DocumentsWriterPerThreadPool.java:40-42 | size() is the number of registered writers |
| DocumentsWriterPerThreadPool.DocumentsWriterPerThreadPool.LockNewWriters | src/main/java/index/DocumentsWriterPerThreadPool.java:44-52 | one more permit taken in int arithmetic: the count wraps to Integer.MIN_VALUE, breaking `Valid()`, exactly when it was Integer.MAX_VALUE; nothing else changed |
| DocumentsWriterPerThreadPool.DocumentsWriterPerThreadPool.UnlockNewWriters | src/main/java/index/DocumentsWriterPerThreadPool.java:54-60 | only a taken permit is given back, so the count stays >= 0 |
| DocumentsWriterPerThreadPool.DocumentsWriterPerThreadPool.NewWriter | src/main/java/index/DocumentsWriterPerThreadPool.java:67-87 | with no permit taken, a fresh writer from the fixed factory is registered and locked |
| DocumentsWriterPerThreadPool.DocumentsWriterPerThreadPool.Poll | src/main/java/index/DocumentsWriterPerThreadPool.java:95 | some free writer whose tryLock succeeds, removed from the free list, or none exactly when there is no such writer |
| DocumentsWriterPerThreadPool.DocumentsWriterPerThreadPool.GetAndLock | src/main/java/index/DocumentsWriterPerThreadPool.java:93-102 | always a registered writer that this call locks: a free one when there is one, else a new one |
| DocumentsWriterPerThreadPool.DocumentsWriterPerThreadPool.MarksAsFreeAndUnlock | src/main/java/index/DocumentsWriterPerThreadPool.java:104-112 | a registered writer goes on the free list with its RAM estimate and is unlocked; the free list stays within the registered set |
| DocumentsWriterPerThreadPool.DocumentsWriterPerThreadPool.Iterator | src/main/java/index/DocumentsWriterPerThreadPool.java:116-119 | a copy holding each registered writer once |
| DocumentsWriterPerThreadPool.DocumentsWriterPerThreadPool.FilterAndLock | src/main/java/index/DocumentsWriterPerThreadPool.java:127-142 | exactly the registered writers that pass the test, each once, and those are the ones left locked |
| DocumentsWriterPerThreadPool.DocumentsWriterPerThreadPool.FilterAndLockFrom | src/main/java/index/DocumentsWriterPerThreadPool.java:129-140 | the loop keeps Kept and leaves LockedAfter held |
| DocumentsWriterPerThreadPool.DocumentsWriterPerThreadPool.FilterOne | src/main/java/index/DocumentsWriterPerThreadPool.java:130-139 | a writer that passes is locked and kept if registered, else unlocked again |
| DocumentsWriterPerThreadPool.DocumentsWriterPerThreadPool.Checkout | src/main/java/index/DocumentsWriterPerThreadPool.java:149-157 | true exactly when the writer was registered; afterwards it is neither registered nor free, so a second checkout is false |
| DocumentsWriterPerThreadPool.DocumentsWriterPerThreadPool.IsRegistered | src/main/java/index/DocumentsWriterPerThreadPool.java:160-162 | whether the writer is in the registered set |
| DocumentsWriterPerThreadPool.DocumentsWriterPerThreadPool.Close | src/main/java/index/DocumentsWriterPerThreadPool.java:165-167 | the flag is set and nothing else changes |

## Left out

- **I/O and files.** `disk/DiskWriter`, `disk/DiskReader`, `store/Directory` and the index outputs are left out. So is the HEADER that the `StoredFieldConsumer` constructor writes through a `Directory`. The I/O of files, channels and mapped buffers has no counterpart here.
- **Abstract sinks and sources.** `Writer.writeByte`/`writeBytes` and `Reader.readByte`/`readBytes` are abstract. The codec is stated over a byte sequence, and a failed read is `EndOfInput`.
- **DataInput's fixed-width reads.** `readShort` and `readInt` in `store/DataInput` are the same code as disk/Reader's. `readLong` is written differently (`(readInt() & 0xFFFFFFFFL) | ((long) readInt() << 32)` against disk/Reader's named `low` and `high` locals), but it reads the same two ints in the same order and computes the same value. All three are modelled by `Reader.ReadShort`, `Reader.ReadInt` and `Reader.ReadLong`.
- **DataInput's other members.**
  - `readBytes(b, offset, len, useBuffer)` forwards to `readBytes`.
  - `clone` and `skipBytes` are not part of this model.
  - `readFloats` is left out, together with floating point: see the next item.
- **Floating point.** There are no floats here.
  - `readZFloat`/`readZDouble` return the bit pattern or the small integer.
  - `Float.intBitsToFloat` and `Double.longBitsToDouble` are not modelled.
- **UTF-8 decoding.** Strings are the scalar values of a Dafny `string`, and `Utf8Encode` is the standard UTF-8 encoding. `readString` returns the UTF-8 bytes. `new String(bytes, UTF_8)` is not modelled, so map and set keys are those bytes.
- **Encoders that are not in the source.** `writeZFloat`, `writeZDouble` and `writeTlong` are called by `writeField` but are not defined in `disk/Writer`. They are a parameter (`Encoders`) of the consumer.
  - The T-long constants `SECOND`, `HOUR`, `DAY` and the `*_ENCODING` masks are a parameter record (`TimeConstants`).
  - The T-long round trip therefore cannot be stated.
- **Missing buffer members.** `bufferedDocs.size()` and `toByteBuffer()` are not defined by `Writer` or `RamWriter`. The size is the number of bytes written. The `RamReader` that `flush` builds from `toByteBuffer()` is left out.
- **Characters.** `Character.digit` is modelled on ASCII `0-9`, `a-z` and `A-Z` only.
- **Java array lengths.** Arrays and sequences handed to the model are shorter than 2^31 where the source computes an index or a length in an int. This is a `requires` on `ArrayUtil.ParseInt`, `ArrayUtil.CopyOfSubArray`, the comparators, `Writer.WriteString` and `RamReader.WriteThenRead`.
- **copyOfSubArray variants.** The `byte[]`, `char[]`, `short[]`, `int[]`, `long[]`, `float[]` and `double[]` variants are the same code. They are all modelled by the generic `ArrayUtil.CopyOfSubArray`.
- **Integer.toString.** `ArrayUtil.IntToString` is a reference printer used only to state the parse round trip; the source has no such function.
- **ParseInt, lone '-':** `ArrayUtil.ParseInt`: a lone "-" is stated through `Parsed`. A leading '-' with `len` equal to Integer.MIN_VALUE makes `len--` wrap to Integer.MAX_VALUE; the loop then runs past the array or overflows, and the contract states only that the call fails (`r.Err?`). The exception class of an index error in a range that runs past the array is not pinned down either.
- **Concurrency.**
  - `synchronized`, `wait()` and `notifyAll()` in the pool become preconditions.
  - The writer locks become the set `held`.
  - `newWriter`'s wait for permits is the precondition `takenWriterPermits == 0`.
- **ApproximatePriorityQueue.** It is not part of this model. `poll` returns some free writer that is not held, and `add` overwrites the writer's entry.
- **DocumentsWriterPerThread.** The source's `DocumentsWriterPerThread` declares only its own `IndexingChain`, a constructor and `addDoc`. The pool calls `lock`, `tryLock`, `unlock` and `ramBytesUsed` on it, but none of them is defined in the source. The model stands them in: the locks are the pool's ghost set `held`, and the RAM estimate is a field `ramBytesUsed` of the writer. `addDoc` and the writer's own `IndexingChain` are left out; the chain is modelled on its own by `IndexingChain`.
- **DocumentsWriter.** It calls `dwptPool.free`, which the pool does not define. `DocumentsWriter`, `IndexWriter` and `DocumentsWriterFlushControl` only forward or depend on threads, and are not part of this model.
- **DocumentsWriterPerThreadPool.DocumentsWriterPerThreadPool.constructor:** the `Supplier<DocumentsWriterPerThread> dwptFactory` parameter is dropped. The factory is fixed to `new DocumentsWriterPerThread()`, so a pool built with any other supplier is not modelled.
- **DocumentsWriterPerThreadPool.DocumentsWriterPerThreadPool.NewWriter:** `dwptFactory.get()` is `new DocumentsWriterPerThread()`. Each result is therefore a new writer that is not registered, with `ramBytesUsed` 0, as the javadoc's "Returns a new already locked" writer says. A supplier that hands back an existing or registered writer is not modelled.
- **DocumentsWriterPerThreadPool.DocumentsWriterPerThreadPool.Close:** the `closed` flag is set but no method of the pool reads it.
- **IndexingChain.IndexingChain.constructor:** the source declares `storedFieldConsumer` and never assigns it. Here it is given to the constructor.
- **IndexingChain.IndexingChain.ProcessDocument:** it uses the corrected `writeField` (`StoredFieldConsumer.Select`). The as-written `writeField` is modelled by `StoredFieldConsumer.StoredFieldConsumer.WriteField`.
- **IndexingChain.IndexingChain.ProcessField:** it also calls the corrected `writeField`, so the as-written AssertionError that escapes `catch (Exception)` does not arise in it. That case is stated separately by `IndexingChain.AsWrittenStringFieldEscapes`.
- **IndexingChain.ProcessedOutcome:** it is stated for records that never end in an Error, which holds for the corrected `writeField` (`IndexingChain.RecordsRaiseNoError`), not for the as-written one.
- **IndexingChain.DocumentRunOutcome:** it runs the records of the corrected `writeField`; with the as-written one a stored string field ends the document in AssertionError (`IndexingChain.AsWrittenStringFieldEscapes`).
- **PerField.** It is a value holding the name and the FieldInfo. `fieldGen`, `first`, `docID`, `compareTo` and `reset` are never used by the chain and are left out.
- **Null strings.** Null field names are left out. IndexableField, FieldType and FieldInfo are the records of `Fields`.
- **IndexingChain.DistinctNumbers:** it is stated for fewer than 2^31 names. Beyond that the int counter wraps, and numbers repeat.
- **IndexingChain counters.** `nextFieldGen` is never read and is left out.
- **StoredFieldConsumer.StoredFieldConsumer.FinishDocument:** the counters are unbounded integers. The int wrap of `numBufferedDocs` after 2^31 documents is not modelled. `endOffsets` holds the int cast of the size, as in the source.
- **StoredFieldConsumer.StoredFieldConsumer.Flush:** the `assert lengths[i] >= 0` in `flush` is taken as disabled. Below 2^31 buffered bytes it holds (`StoredFieldConsumer.StoredFieldConsumer.LengthsAreDocSizes`). Past 2^31 bytes the int end offsets wrap, a length can be negative, and with assertions enabled the source would throw AssertionError; the model returns the negative length and `flush` completes.
- **Stored fields.** A string field must have a UTF-8 form shorter than 2^31 bytes (`Encodable`).
- **RamReader.RamReader.constructor:** an empty list makes `init` throw at `blocks[0]`. A constructor has no outcome, so it requires a block. `RamReader.RamReader.Init` states the throw.
- **ByteArrayDataOutput.ByteArrayDataOutput.WriteByte, WriteBytes, WriteShort, WriteInt, WriteLong:** the Java `assert` that the bytes fit below `limit` (in int arithmetic) is a precondition; with assertions enabled the source would throw AssertionError instead. The array's own bounds are not assumed: a store outside the array is an IndexOutOfBoundsException outcome.
- **RamReader.RamReader.FromBuffer:** a buffer with nothing remaining gives an empty block list, and `init` would throw at `blocks[0]`. A constructor has no outcome, so it requires `Remaining(buffer) > 0`. The buffer is passed as a value, so the source's `buffer.position(idx)`, which moves the position of the caller's own buffer, is not modelled: the caller's buffer is unchanged here.
- **RamReader.RamReader.FromBufferIntended:** it requires `Remaining(buffer) > 0` for the same reason, and it takes the buffer as a value too, so the caller's buffer does not move.
- **DocumentsWriterPerThreadPool.DocumentsWriterPerThreadPool.UnlockNewWriters:** the Java `assert takenWriterPermits > 0` is a precondition. The AssertionError thrown with assertions enabled is not modelled, and neither is the negative permit count left with assertions disabled.
- **DocumentsWriterPerThreadPool.DocumentsWriterPerThreadPool.MarksAsFreeAndUnlock:** the Java `assert dwpts.contains(state)` is a precondition. The AssertionError thrown with assertions enabled is not modelled, and neither is a writer that is not registered going onto the free list with assertions disabled.
- **RamReader.RamReader.ReadBytes:** it is stated for aligned blocks (every view at position 0, every block but the last full), the layout that `RamWriter.toByteBuffers` and the single-buffer constructor produce; the filled cells are given as bytes of `Content()`. Over other block lists each read is still `RamReader.RamReader.ReadByte`, whose contract holds for any blocks.
- **PowerOfTwo.NextHighestPowerOfTwo64Covers:** no single lemma states `v <= r` for longs. The bound follows from `NextHighestPowerOfTwo64Positive` (or `NextHighestPowerOfTwo64Covers` and `NextHighestPowerOfTwo64IsPower`) together with `PowerOfTwo.CoveringPowerAtLeast`. Composing them in one proof exceeds the solver's resource limit. Minimality is stated directly: `NextHighestPowerOfTwo64Least` gives `r >> 1 <= v - 1`.
- **BitUtils VarHandles.** The VarHandle views are written out as byte decompositions: `LittleEndianBytes`, `LittleEndianValue` and `BigEndianValue`.
- **Tests.** The test classes are not modelled. The round trips they exercise are stated as lemmas and as `RamReader.WriteThenRead`.

## Findings

| source | as written | input that shows it | evidently intended | confidence | as-written member | corrected member |
|---|---|---|---|---|---|---|
| src/main/java/disk/RamReader.java:25-36 | the slicing index `idx` starts at 0 while `remaining()` counts from the buffer's position, so the bytes before the position are kept once a full block remains | a buffer of 4106 bytes at position 10: 4096 remain, yet all 4106 bytes become content | slice from the position, keeping exactly the remaining bytes | not executed | RamReader.SlicedContentIgnoresPosition | RamReader.SliceBlocksFromPosition |
| src/main/java/index/StoredFieldConsumer.java:146-161 | the test on `binaryValue` is inverted: no binary value gives BYTE_ARR, a binary value gives STRING | a stored field holding only a string writes a BYTE_ARR tag and then throws AssertionError, an Error that `catch (Exception)` in processField lets through; a field holding only bytes is refused | a binary value gives BYTE_ARR with its bytes, else a string gives STRING | not executed | StoredFieldConsumer.AsWrittenRejectsStringsAndBytes | StoredFieldConsumer.IntendedThrowsOnlyExceptions |
