/**
 * store/DataInput: the decoders of the store layer, over the same byte
 * source as disk/Reader.  They differ from Reader's in that their
 * variable-length integers are bounded: `readVInt` reads at most five
 * bytes and `readVLong` at most nine (ten for zig-zag longs), and a value
 * with too many bits is an IOException.
 *
 * `readShort`, `readInt`, `readZFloat` and `readZDouble` are written
 * exactly as in disk/Reader; `readLong` is written differently but reads
 * the same two ints in the same order and computes the same value.  The
 * model uses Reader's functions for all five.
 */
module DataInput {
  import opened Java
  import opened BitUtils
  import opened BytesRef
  import opened Writer
  import opened Reader

  // ---------------------------------------------------------------------
  // Bounded variable-length integers.

  /** How many seven-bit groups the unrolled decoder reads before its last, special
    * byte: four for `readVInt`, nine for `readVLong`. */
  function FullGroups(w: Width): (n: nat)
    ensures n == if w == 32 then 4 else 9
  {
    if w == 32 then 4 else 9
  }

  /** The weight 2^(7k) of the k-th seven-bit group. */
  function Scale(k: nat): (s: nat)
    ensures s >= 1
  {
    if k == 0 then 1 else 0x80 * Scale(k - 1)
  }

  lemma {:induction false} ScaleIsPow2(k: nat)
    ensures Scale(k) == Pow2(7 * k)
  {
    if k > 0 {
      ScaleIsPow2(k - 1);
      Pow2Add(7 * (k - 1), 7);
      Pow2Seven();
    }
  }

  lemma {:induction false} ScaleMonotone(a: nat, b: nat)
    requires a <= b
    ensures Scale(a) <= Scale(b)
    decreases b
  {
    if a < b {
      ScaleMonotone(a, b - 1);
    }
  }

  lemma ScaleLast()
    ensures Scale(4) == 0x1000_0000 && Scale(9) == TWO_63
  {
  }

  /** The next seven-bit group, put in place above the ones already read. */
  function AddGroup(acc: nat, k: nat, g: nat): nat {
    acc + Scale(k) * g
  }

  /**
   * The unrolled `readVInt` (w = 32) and `readVLong(allowNegative)` (w = 64)
   * from the `k`-th byte on, with the groups read so far in `acc`.  A byte
   * with bit 0x80 clear (a non-negative Java byte) ends the value.  The
   * groups occupy disjoint bits, so each `|=` adds.  After the full groups:
   * `readVInt` takes the low four bits of a fifth byte, and throws if any of
   * its high four are set; `readVLong(true)` takes a tenth byte that must
   * be 0 or 1, at bit 63; `readVLong(false)` throws without reading more.
   */
  function BoundedFrom(w: Width, allowNegative: bool, src: seq<uint8>, p: nat, k: nat, acc: nat): (r: Result<Read<int>>)
    requires k <= FullGroups(w) && acc < Scale(k)
    ensures r.Ok? ==> InRange(w, r.value.value) && p < r.value.next <= p + FullGroups(w) - k + 1
    decreases FullGroups(w) - k
  {
    if k == FullGroups(w) && w == 64 && !allowNegative then Err(IOException)
    else if p >= |src| then Err(EndOfInput)
    else
      var b := src[p];                                            // b = readByte()
      if k < FullGroups(w) then
        var i := AddGroup(acc, k, b % 0x80);                      // i |= (b & 0x7F) << 7k
        GroupBound(w, k, acc, b % 0x80);
        if b < 0x80 then Ok(Read(i, p + 1))                       // if (b >= 0) return i
        else BoundedFrom(w, allowNegative, src, p + 1, k + 1, i)
      else if w == 32 then
        var i := Wrap32(acc + 0x1000_0000 * (b as int % 0x10));   // i |= (b & 0x0F) << 28
        if b / 0x10 == 0 then Ok(Read(i, p + 1))                  // if ((b & 0xF0) == 0) return i
        else Err(IOException)
      else
        var i := Wrap64(acc + TWO_63 * (b as int % 0x80));        // i |= (b & 0x7FL) << 63
        if b <= 1 then Ok(Read(i, p + 1))                         // if (b == 0 || b == 1) return i
        else Err(IOException)
  }

  /** One full group keeps the accumulator below the next group and in range. */
  lemma GroupBound(w: Width, k: nat, acc: nat, g: nat)
    requires k < FullGroups(w) && acc < Scale(k) && g < 0x80
    ensures AddGroup(acc, k, g) < Scale(k + 1)
    ensures InRange(w, AddGroup(acc, k, g))
  {
    MulMono(Scale(k), g, 0x7F);
    ScaleLast();
    ScaleMonotone(k + 1, FullGroups(w));
  }

  /** `readVInt`: one to five bytes. */
  function ReadVInt(src: seq<uint8>, pos: nat): (r: Result<Read<int>>)
    ensures r.Ok? ==> InRange(32, r.value.value) && pos < r.value.next <= pos + 5
  {
    BoundedFrom(32, false, src, pos, 0, 0)
  }

  /** `readVLong(allowNegative)`: one to nine bytes, or ten when negative values are
    * allowed; `readVLong()` is `readVLong(false)`. */
  function ReadVLong(src: seq<uint8>, pos: nat, allowNegative: bool): (r: Result<Read<int>>)
    ensures r.Ok? ==> InRange(64, r.value.value) && pos < r.value.next <= pos + 10
    ensures r.Ok? && !allowNegative ==> 0 <= r.value.value && r.value.next <= pos + 9
  {
    NonNegativeLong(src, pos, 0, 0);
    BoundedFrom(64, allowNegative, src, pos, 0, 0)
  }

  /** Without negative values, the decoded long is the plain sum of its groups. */
  lemma {:induction false} NonNegativeLong(src: seq<uint8>, p: nat, k: nat, acc: nat)
    requires k <= 9 && acc < Scale(k)
    ensures var r := BoundedFrom(64, false, src, p, k, acc); r.Ok? ==> 0 <= r.value.value
    decreases 9 - k
  {
    if k < 9 && p < |src| && src[p] >= 0x80 {
      GroupBound(64, k, acc, src[p] % 0x80);
      NonNegativeLong(src, p + 1, k + 1, AddGroup(acc, k, src[p] % 0x80));
    }
  }

  /** One full group of the bounded decoder. */
  lemma BoundedStep(w: Width, allowNegative: bool, src: seq<uint8>, p: nat, k: nat, acc: nat)
    requires k < FullGroups(w) && acc < Scale(k) && p < |src|
    ensures AddGroup(acc, k, src[p] % 0x80) < Scale(k + 1)
    ensures InRange(w, AddGroup(acc, k, src[p] % 0x80))
    ensures BoundedFrom(w, allowNegative, src, p, k, acc)
         == if src[p] < 0x80 then Ok(Read(AddGroup(acc, k, src[p] % 0x80), p + 1))
            else BoundedFrom(w, allowNegative, src, p + 1, k + 1, AddGroup(acc, k, src[p] % 0x80))
  {
    GroupBound(w, k, acc, src[p] % 0x80);
  }

  /** The fifth byte of `readVInt`. */
  lemma BoundedLast32(allowNegative: bool, src: seq<uint8>, p: nat, acc: nat)
    requires acc < Scale(4)
    ensures BoundedFrom(32, allowNegative, src, p, 4, acc)
         == if p >= |src| then Err(EndOfInput)
            else if src[p] < 0x10 then Ok(Read(Wrap32(acc + 0x1000_0000 * (src[p] as int)), p + 1))
            else Err(IOException)
  {
  }

  /** What `readVLong` does after nine continuation bytes. */
  lemma BoundedLast64(allowNegative: bool, src: seq<uint8>, p: nat, acc: nat)
    requires acc < Scale(9)
    ensures BoundedFrom(64, allowNegative, src, p, 9, acc)
         == if !allowNegative then Err(IOException)
            else if p >= |src| then Err(EndOfInput)
            else if src[p] <= 1 then Ok(Read(Wrap64(acc + TWO_63 * (src[p] as int)), p + 1))
            else Err(IOException)
  {
  }

  /**
   * On every input the bounded decoder accepts, it returns what the unbounded
   * loop of disk/Reader returns from the same state (shift 7k).
   */
  lemma {:induction false} BoundedAgrees(w: Width, allowNegative: bool, src: seq<uint8>, p: nat, k: nat, acc: nat)
    requires k <= FullGroups(w) && acc < Scale(k)
    requires BoundedFrom(w, allowNegative, src, p, k, acc).Ok?
    ensures DecodeVarintFrom(w, src, p, acc, 7 * k) == BoundedFrom(w, allowNegative, src, p, k, acc)
    decreases FullGroups(w) - k
  {
    if k < FullGroups(w) {
      BoundedStep(w, allowNegative, src, p, k, acc);
      UnboundedStep(w, src, p, k, acc);
      if src[p] >= 0x80 {
        BoundedAgrees(w, allowNegative, src, p + 1, k + 1, AddGroup(acc, k, src[p] % 0x80));
      }
    } else if w == 32 {
      BoundedLast32(allowNegative, src, p, acc);
      ScaleLast();
      LastAgrees32(src, p, acc);
    } else {
      BoundedLast64(allowNegative, src, p, acc);
      ScaleLast();
      LastAgrees64(src, p, acc);
    }
  }

  /** The unbounded loop over a full group, in the same terms as `BoundedStep`. */
  lemma UnboundedStep(w: Width, src: seq<uint8>, p: nat, k: nat, acc: nat)
    requires k < FullGroups(w) && acc < Scale(k) && p < |src|
    ensures DecodeVarintFrom(w, src, p, acc, 7 * k)
         == if src[p] < 0x80 then Ok(Read(AddGroup(acc, k, src[p] % 0x80), p + 1))
            else DecodeVarintFrom(w, src, p + 1, AddGroup(acc, k, src[p] % 0x80), 7 * (k + 1))
  {
    var g := src[p] % 0x80;
    GroupBound(w, k, acc, g);
    ScaleIsPow2(k);
    GroupOr(w, acc, 7 * k, g);
    assert Wrap32(7 * k + 7) == 7 * (k + 1);
  }

  /** The fifth byte, where `readVInt` accepts it, ends the unbounded loop with the same value. */
  lemma LastAgrees32(src: seq<uint8>, p: nat, acc: nat)
    requires acc < 0x1000_0000 && p < |src| && src[p] < 0x10
    ensures DecodeVarintFrom(32, src, p, acc, 28) == Ok(Read(Wrap32(acc + 0x1000_0000 * (src[p] as int)), p + 1))
  {
    Pow2Groups();
    Pow2Widths();
    UnboundedLast(32, src, p, acc, 28);
  }

  /** The tenth byte, where `readVLong(true)` accepts it, ends the unbounded loop with the same value. */
  lemma LastAgrees64(src: seq<uint8>, p: nat, acc: nat)
    requires acc < TWO_63 && p < |src| && src[p] <= 1
    ensures DecodeVarintFrom(64, src, p, acc, 63) == Ok(Read(Wrap64(acc + TWO_63 * (src[p] as int)), p + 1))
  {
    Pow2Widths();
    UnboundedLast(64, src, p, acc, 63);
  }

  /** A byte with bit 0x80 clear ends the unbounded loop. */
  lemma UnboundedLast(w: Width, src: seq<uint8>, p: nat, acc: nat, s: nat)
    requires s < w && acc < Pow2(s) && p < |src| && src[p] < 0x80 && Pow2(s) * src[p] < Modulus(w)
    ensures DecodeVarintFrom(w, src, p, acc, s) == Ok(Read(Wrap(w, acc + Pow2(s) * src[p]), p + 1))
  {
    GroupOr(w, acc, s, src[p]);
  }

  /** The bound (on the value times the weight of its first group) below which the
    * bounded decoder accepts a varint. */
  function Limit(w: Width, allowNegative: bool): (m: nat)
    ensures m == if w == 32 then TWO_32 else if allowNegative then TWO_64 else TWO_63
  {
    if w == 32 then TWO_32 else if allowNegative then TWO_64 else TWO_63
  }

  /**
   * The bounded decoder accepts the bytes `VarintBytes(v)` whenever `v`,
   * placed at group k, fits: it adds `v << 7k` (the sum `x`) and stops just
   * after them.
   */
  lemma {:induction false} BoundedOfVarintBytes(w: Width, allowNegative: bool, src: seq<uint8>, p: nat, k: nat, acc: nat, v: nat, x: int)
    requires k <= FullGroups(w) && acc < Scale(k)
    requires w == 64 && !allowNegative ==> k < 9
    requires Scale(k) * v < Limit(w, allowNegative) && x == acc + Scale(k) * v
    requires p + |VarintBytes(v)| <= |src| && src[p..p + |VarintBytes(v)|] == VarintBytes(v)
    ensures BoundedFrom(w, allowNegative, src, p, k, acc) == Ok(Read(Wrap(w, x), p + |VarintBytes(v)|))
    decreases v, 1
  {
    if k < FullGroups(w) && v >= 0x80 {
      BoundedOfContinuation(w, allowNegative, src, p, k, acc, v, x);
    } else {
      var bytes := VarintBytes(v);
      SliceTail(src, p, bytes);
      assert v == src[p] && Scale(k) * v < Limit(w, allowNegative) && (k < FullGroups(w) ==> v < 0x80) && bytes == [v] by {
        if k == FullGroups(w) {
          LastGroupFits(w, allowNegative, k, v);
        }
      }
      AcceptLastByte(w, allowNegative, src, p, k, acc, v);
    }
  }

  /** A continuation byte: decoding goes on from the next byte with the group added. */
  lemma {:induction false} BoundedOfContinuation(w: Width, allowNegative: bool, src: seq<uint8>, p: nat, k: nat, acc: nat, v: nat, x: int)
    requires k < FullGroups(w) && acc < Scale(k) && v >= 0x80
    requires Scale(k) * v < Limit(w, allowNegative) && x == acc + Scale(k) * v
    requires p + |VarintBytes(v)| <= |src| && src[p..p + |VarintBytes(v)|] == VarintBytes(v)
    ensures BoundedFrom(w, allowNegative, src, p, k, acc) == Ok(Read(Wrap(w, x), p + |VarintBytes(v)|))
    decreases v, 0
  {
    var q := v / 0x80;
    ContinuationWindow(src, p, v);
    ContinuationArith(w, allowNegative, k, acc, v);
    BoundedStep(w, allowNegative, src, p, k, acc);
    BoundedOfVarintBytes(w, allowNegative, src, p + 1, k + 1, AddGroup(acc, k, v % 0x80), q, x);
  }

  /** The byte that ends the value: one with bit 0x80 clear, or the last, special byte. */
  lemma AcceptLastByte(w: Width, allowNegative: bool, src: seq<uint8>, p: nat, k: nat, acc: nat, v: nat)
    requires k <= FullGroups(w) && acc < Scale(k) && (k < FullGroups(w) ==> v < 0x80)
    requires w == 64 && !allowNegative ==> k < 9
    requires Scale(k) * v < Limit(w, allowNegative)
    requires p < |src| && src[p] == v
    ensures BoundedFrom(w, allowNegative, src, p, k, acc) == Ok(Read(Wrap(w, acc + Scale(k) * v), p + 1))
  {
    if k < FullGroups(w) {
      AcceptGroupByte(w, allowNegative, src, p, k, acc, v);
    } else if w == 32 {
      AcceptLast32(allowNegative, src, p, acc, v);
    } else {
      AcceptLast64(allowNegative, src, p, acc, v);
    }
  }

  lemma AcceptGroupByte(w: Width, allowNegative: bool, src: seq<uint8>, p: nat, k: nat, acc: nat, v: nat)
    requires k < FullGroups(w) && acc < Scale(k) && v < 0x80
    requires p < |src| && src[p] == v
    ensures BoundedFrom(w, allowNegative, src, p, k, acc) == Ok(Read(Wrap(w, acc + Scale(k) * v), p + 1))
  {
    BoundedStep(w, allowNegative, src, p, k, acc);
    assert src[p] % 0x80 == v;
  }

  lemma AcceptLast32(allowNegative: bool, src: seq<uint8>, p: nat, acc: nat, v: nat)
    requires acc < Scale(4) && Scale(4) * v < TWO_32
    requires p < |src| && src[p] == v
    ensures BoundedFrom(32, allowNegative, src, p, 4, acc) == Ok(Read(Wrap(32, acc + Scale(4) * v), p + 1))
  {
    ScaleLast();
    assert v < 0x10;
    BoundedLast32(allowNegative, src, p, acc);
  }

  lemma AcceptLast64(allowNegative: bool, src: seq<uint8>, p: nat, acc: nat, v: nat)
    requires allowNegative && acc < Scale(9) && Scale(9) * v < TWO_64
    requires p < |src| && src[p] == v
    ensures BoundedFrom(64, allowNegative, src, p, 9, acc) == Ok(Read(Wrap(64, acc + Scale(9) * v), p + 1))
  {
    ScaleLast();
    assert v <= 1;
    BoundedLast64(allowNegative, src, p, acc);
  }

  /** After the full groups, what is left of the value fits the last, special byte. */
  lemma LastGroupFits(w: Width, allowNegative: bool, k: nat, v: nat)
    requires k == FullGroups(w) && !(w == 64 && !allowNegative)
    requires Scale(k) * v < Limit(w, allowNegative)
    ensures if w == 32 then v < 0x10 else v <= 1
  {
    ScaleLast();
    if w == 32 {
      assert 0x1000_0000 * v < TWO_32;
    } else {
      assert TWO_63 * v < TWO_64;
    }
  }

  /** The arithmetic of a continuation group: what is left of `v` goes one group up. */
  lemma ContinuationArith(w: Width, allowNegative: bool, k: nat, acc: nat, v: nat)
    requires k < FullGroups(w) && acc < Scale(k) && v >= 0x80
    requires Scale(k) * v < Limit(w, allowNegative)
    ensures AddGroup(acc, k, v % 0x80) < Scale(k + 1)
    ensures Scale(k + 1) * (v / 0x80) < Limit(w, allowNegative)
    ensures acc + Scale(k) * v == AddGroup(acc, k, v % 0x80) + Scale(k + 1) * (v / 0x80)
    ensures w == 64 && !allowNegative ==> k + 1 < 9
  {
    var s, q := Scale(k), v / 0x80;
    GroupArith(acc, s, Limit(w, allowNegative), v);
    assert Scale(k + 1) == s * 0x80;
    MulMono(Scale(k + 1), 1, q);
    NextGroupFits(w, allowNegative, k, Scale(k + 1));
  }

  /** A further group is only needed where the bounded decoder has one. */
  lemma NextGroupFits(w: Width, allowNegative: bool, k: nat, s: nat)
    requires k < FullGroups(w) && s == Scale(k + 1) && s < Limit(w, allowNegative)
    ensures w == 64 && !allowNegative ==> k + 1 < 9
  {
    ScaleLast();
  }

  /** The `n` bytes from `p` on exist and all have bit 0x80 set. */
  predicate Continues(src: seq<uint8>, p: nat, n: nat)
    decreases n
  {
    n == 0 || (p < |src| && src[p] >= 0x80 && Continues(src, p + 1, n - 1))
  }

  /** What the last, special byte at `q` must be for the decoder to throw IOException. */
  predicate FinalRejects(w: Width, allowNegative: bool, src: seq<uint8>, q: nat) {
    if w == 32 then q < |src| && src[q] >= 0x10
    else !allowNegative || (q < |src| && src[q] > 1)
  }

  /** The bounded decoder throws IOException exactly when all its full groups continue
    * and the last byte has bits it cannot hold. */
  lemma {:induction false} BoundedRejects(w: Width, allowNegative: bool, src: seq<uint8>, p: nat, k: nat, acc: nat)
    requires k <= FullGroups(w) && acc < Scale(k)
    ensures BoundedFrom(w, allowNegative, src, p, k, acc) == Err(IOException)
        <==> Continues(src, p, FullGroups(w) - k) && FinalRejects(w, allowNegative, src, p + FullGroups(w) - k)
    decreases FullGroups(w) - k
  {
    var n := FullGroups(w) - k;
    if k == FullGroups(w) {
      if w == 32 {
        BoundedLast32(allowNegative, src, p, acc);
      } else {
        BoundedLast64(allowNegative, src, p, acc);
      }
    } else if p >= |src| {
    } else {
      BoundedStep(w, allowNegative, src, p, k, acc);
      if src[p] >= 0x80 {
        BoundedRejects(w, allowNegative, src, p + 1, k + 1, AddGroup(acc, k, src[p] % 0x80));
        assert Continues(src, p, n) <==> Continues(src, p + 1, n - 1);
      } else {
        }
    }
  }

  /** `readVInt` throws IOException exactly when its first four bytes continue and
    * the fifth has any of bits 0xF0 set. */
  lemma ReadVIntRejects(src: seq<uint8>, pos: nat)
    ensures ReadVInt(src, pos) == Err(IOException)
        <==> Continues(src, pos, 4) && pos + 4 < |src| && src[pos + 4] >= 0x10
  {
    BoundedRejects(32, false, src, pos, 0, 0);
  }

  /** `readVLong()` throws IOException exactly when its first nine bytes all continue. */
  lemma ReadVLongRejects(src: seq<uint8>, pos: nat)
    ensures ReadVLong(src, pos, false) == Err(IOException) <==> Continues(src, pos, 9)
  {
    BoundedRejects(64, false, src, pos, 0, 0);
  }

  /** With negative values allowed, a tenth byte other than 0 or 1 is an IOException. */
  lemma ReadVLongAllowNegativeRejects(src: seq<uint8>, pos: nat)
    ensures ReadVLong(src, pos, true) == Err(IOException)
        <==> Continues(src, pos, 9) && pos + 9 < |src| && src[pos + 9] > 1
  {
    BoundedRejects(64, true, src, pos, 0, 0);
  }

  /** Where `readVInt` succeeds, it agrees with disk/Reader's unbounded `readVInt`. */
  lemma ReadVIntAgrees(src: seq<uint8>, pos: nat)
    requires ReadVInt(src, pos).Ok?
    ensures DecodeVarintFrom(32, src, pos, 0, 0) == ReadVInt(src, pos)
  {
    BoundedAgrees(32, false, src, pos, 0, 0);
  }

  /** Where `readVLong` succeeds, it agrees with disk/Reader's unbounded `readVLong`. */
  lemma ReadVLongAgrees(src: seq<uint8>, pos: nat, allowNegative: bool)
    requires ReadVLong(src, pos, allowNegative).Ok?
    ensures DecodeVarintFrom(64, src, pos, 0, 0) == ReadVLong(src, pos, allowNegative)
  {
    BoundedAgrees(64, allowNegative, src, pos, 0, 0);
  }

  /** `readVInt` accepts every output of `writeVInt`, returning the value written. */
  lemma ReadVIntOfVarintBytes(src: seq<uint8>, pos: nat, i: int32)
    requires var bytes := VarintBytes(Unsigned(32, i));
      pos + |bytes| <= |src| && src[pos..pos + |bytes|] == bytes
    ensures ReadVInt(src, pos) == Ok(Read(i, pos + |VarintBytes(Unsigned(32, i))|))
  {
    var u := Unsigned(32, i);
    assert Scale(0) * u == u;
    BoundedOfVarintBytes(32, false, src, pos, 0, 0, u, u);
    WrapUnsigned(32, i);
  }

  /** `readVLong(allowNegative)` accepts the output of `writeVLong(l)` for every
    * non-negative `l`, and for every `l` when negative values are allowed. */
  lemma ReadVLongOfVarintBytes(src: seq<uint8>, pos: nat, l: int64, allowNegative: bool)
    requires allowNegative || l >= 0
    requires var bytes := VarintBytes(Unsigned(64, l));
      pos + |bytes| <= |src| && src[pos..pos + |bytes|] == bytes
    ensures ReadVLong(src, pos, allowNegative) == Ok(Read(l, pos + |VarintBytes(Unsigned(64, l))|))
  {
    var u := Unsigned(64, l);
    assert Scale(0) * u < Limit(64, allowNegative) by {
      if !allowNegative {
        UnsignedSmall(64, l);
      }
    }
    BoundedOfVarintBytes(64, allowNegative, src, pos, 0, 0, u, u);
    WrapUnsigned(64, l);
  }

  // ---------------------------------------------------------------------
  // Zig-zag integers.

  /** `readZInt`: the zig-zag decode of `readVInt`.  The int returned is the one whose
    * zig-zag code the bytes hold. */
  function ReadZInt(src: seq<uint8>, pos: nat): (r: Result<Read<int>>)
    ensures var v := ReadVInt(src, pos);
      (r.Ok? <==> v.Ok?) && (r.Err? ==> r.error == v.error) &&
      (r.Ok? ==> InRange(32, r.value.value) && ZigZagEncode(32, r.value.value) == v.value.value
                 && r.value.next == v.value.next)
  {
    var v :- ReadVInt(src, pos);
    ZigZagDecodeEncode(32, v.value);
    Ok(Read(ZigZagDecode(32, v.value), v.next))
  }

  /** `readZLong`: the zig-zag decode of `readVLong(true)`, so up to ten bytes. */
  function ReadZLong(src: seq<uint8>, pos: nat): (r: Result<Read<int>>)
    ensures var v := ReadVLong(src, pos, true);
      (r.Ok? <==> v.Ok?) && (r.Err? ==> r.error == v.error) &&
      (r.Ok? ==> InRange(64, r.value.value) && ZigZagEncode(64, r.value.value) == v.value.value
                 && r.value.next == v.value.next)
  {
    var v :- ReadVLong(src, pos, true);
    ZigZagDecodeEncode(64, v.value);
    Ok(Read(ZigZagDecode(64, v.value), v.next))
  }

  /** `readZInt` over the output of `writeZInt(i)` returns `i`. */
  lemma ReadZIntOfZIntBytes(src: seq<uint8>, pos: nat, i: int32)
    requires var bytes := VarintBytes(Unsigned(32, ZigZagEncode(32, i)));
      pos + |bytes| <= |src| && src[pos..pos + |bytes|] == bytes
    ensures ReadZInt(src, pos) == Ok(Read(i, pos + |VarintBytes(Unsigned(32, ZigZagEncode(32, i)))|))
  {
    ReadVIntOfVarintBytes(src, pos, ZigZagEncode(32, i));
    ZigZagRoundTrip(32, i);
  }

  /** `readZLong` over the output of `writeZLong(l)` returns `l`, negative or not. */
  lemma ReadZLongOfZLongBytes(src: seq<uint8>, pos: nat, l: int64)
    requires var bytes := VarintBytes(Unsigned(64, ZigZagEncode(64, l)));
      pos + |bytes| <= |src| && src[pos..pos + |bytes|] == bytes
    ensures ReadZLong(src, pos) == Ok(Read(l, pos + |VarintBytes(Unsigned(64, ZigZagEncode(64, l)))|))
  {
    ReadVLongOfVarintBytes(src, pos, ZigZagEncode(64, l), true);
    ZigZagRoundTrip(64, l);
  }

  // ---------------------------------------------------------------------
  // Strings.

  /**
   * `readString`: a bounded vint length, `new byte[length]` (which throws
   * for a negative length), then exactly that many bytes.  The UTF-8 bytes
   * are returned; decoding them is not modelled.
   */
  function ReadString(src: seq<uint8>, pos: nat): (r: Result<Read<seq<uint8>>>)
    ensures r.Ok? ==> var n := ReadVInt(src, pos);
      n.Ok? && n.value.value == |r.value.value| && r.value.next == n.value.next + |r.value.value|
      && r.value.next <= |src| && r.value.value == src[n.value.next..r.value.next]
  {
    var length :- ReadVInt(src, pos);
    if length.value < 0 then Err(NegativeArraySizeException)
    else ReadBytes(src, length.next, length.value)
  }

  /** `readString` fails when its length does, throws for a negative length, and
    * otherwise fails exactly when fewer bytes than the length remain. */
  lemma ReadStringFails(src: seq<uint8>, pos: nat)
    ensures var n := ReadVInt(src, pos); var r := ReadString(src, pos);
      (n.Err? ==> r == Err(n.error)) &&
      (n.Ok? && n.value.value < 0 ==> r == Err(NegativeArraySizeException)) &&
      (n.Ok? && n.value.value >= 0 ==> (r.Err? <==> n.value.next + n.value.value > |src|))
  {
  }

  /** `readString` over the output of `writeString(s)` yields the UTF-8 bytes of `s`. */
  lemma ReadStringOfWriteString(src: seq<uint8>, pos: nat, s: string)
    requires |Utf8Encode(s)| < TWO_31
    requires var bytes := VarintBytes(|Utf8Encode(s)|) + Utf8Encode(s);
      pos + |bytes| <= |src| && src[pos..pos + |bytes|] == bytes
    ensures ReadString(src, pos) == Ok(Read(Utf8Encode(s), pos + |VarintBytes(|Utf8Encode(s)|) + Utf8Encode(s)|))
  {
    ReadLengthPrefixedBounded(src, pos, Utf8Encode(s));
  }

  /** `readString` over a vint length followed by that many bytes yields those bytes. */
  lemma ReadLengthPrefixedBounded(src: seq<uint8>, pos: nat, u: seq<uint8>)
    requires |u| < TWO_31
    requires var bytes := VarintBytes(|u|) + u;
      pos + |bytes| <= |src| && src[pos..pos + |bytes|] == bytes
    ensures ReadString(src, pos) == Ok(Read(u, pos + |VarintBytes(|u|) + u|))
  {
    SliceSplit(src, pos, VarintBytes(|u|), u);
    LengthReads(src, pos, |u|);
  }

  /** A non-negative int written as a vint is read back by the bounded `readVInt`. */
  lemma LengthReads(src: seq<uint8>, pos: nat, len: nat)
    requires len < TWO_31
    requires var n := VarintBytes(len); pos + |n| <= |src| && src[pos..pos + |n|] == n
    ensures ReadVInt(src, pos) == Ok(Read(len, pos + |VarintBytes(len)|))
  {
    UnsignedSmall(32, len);
    ReadVIntOfVarintBytes(src, pos, len);
  }

  // ---------------------------------------------------------------------
  // Maps and sets of strings.

  /** A string key or value, as the UTF-8 bytes it was read from. */
  type Bytes = seq<uint8>

  /** A key string followed by a value string. */
  function PairAt(src: seq<uint8>, pos: nat): Result<Read<(Bytes, Bytes)>> {
    var key :- ReadString(src, pos);
    var val :- ReadString(src, key.next);
    Ok(Read((key.value, val.value), val.next))
  }

  /** `n` items read one after the other from `pos`, each by `item`. */
  function RepeatAt<T>(item: (seq<uint8>, nat) -> Result<Read<T>>, src: seq<uint8>, pos: nat, n: nat): (r: Result<Read<seq<T>>>)
    ensures r.Ok? ==> |r.value.value| == n
  {
    if n == 0 then Ok(Read([], pos))
    else
      var prev :- RepeatAt(item, src, pos, n - 1);
      var last :- item(src, prev.next);
      Ok(Read(prev.value + [last.value], last.next))
  }

  /** Reading one more item after `n` of them. */
  lemma RepeatAtStep<T>(item: (seq<uint8>, nat) -> Result<Read<T>>, src: seq<uint8>, pos: nat, n: nat,
                        items: seq<T>, q: nat, last: Result<Read<T>>)
    requires RepeatAt(item, src, pos, n) == Ok(Read(items, q)) && last == item(src, q)
    ensures RepeatAt(item, src, pos, n + 1) == if last.Ok? then Ok(Read(items + [last.value.value], last.value.next)) else Err(last.error)
  {
  }

  /** Once reading the items fails, reading more of them fails the same way. */
  lemma {:induction false} RepeatAtFails<T>(item: (seq<uint8>, nat) -> Result<Read<T>>, src: seq<uint8>, pos: nat, n: nat, m: nat)
    requires n <= m && RepeatAt(item, src, pos, n).Err?
    ensures RepeatAt(item, src, pos, m) == Err(RepeatAt(item, src, pos, n).error)
    decreases m
  {
    if n < m {
      RepeatAtFails(item, src, pos, n, m - 1);
    }
  }

  /** The map that `put`s the pairs in order. */
  function MapOf(pairs: seq<(Bytes, Bytes)>): map<Bytes, Bytes> {
    if pairs == [] then map[]
    else
      var last := pairs[|pairs| - 1];
      MapOf(pairs[..|pairs| - 1])[last.0 := last.1]
  }

  /** The keys of the map are exactly the keys of the pairs. */
  lemma {:induction false} MapOfKeys(pairs: seq<(Bytes, Bytes)>)
    ensures MapOf(pairs).Keys == set i | 0 <= i < |pairs| :: pairs[i].0
  {
    if pairs != [] {
      var init := pairs[..|pairs| - 1];
      MapOfKeys(init);
      var keys := set i | 0 <= i < |pairs| :: pairs[i].0;
      var initKeys := set i | 0 <= i < |init| :: init[i].0;
      assert keys == initKeys + {pairs[|pairs| - 1].0} by {
        forall k | k in keys
          ensures k in initKeys + {pairs[|pairs| - 1].0}
        {
          var i :| 0 <= i < |pairs| && pairs[i].0 == k;
          if i < |init| {
            assert init[i] == pairs[i];
          }
        }
        forall k | k in initKeys
          ensures k in keys
        {
          var i :| 0 <= i < |init| && init[i].0 == k;
          assert pairs[i] == init[i];
        }
      }
    }
  }

  /** A later pair with the same key replaces an earlier one: the value of a key is
    * the one of its last pair. */
  lemma {:induction false} MapOfLastWins(pairs: seq<(Bytes, Bytes)>, j: nat)
    requires j < |pairs|
    requires forall i :: j < i < |pairs| ==> pairs[i].0 != pairs[j].0
    ensures pairs[j].0 in MapOf(pairs) && MapOf(pairs)[pairs[j].0] == pairs[j].1
  {
    if j < |pairs| - 1 {
      var init := pairs[..|pairs| - 1];
      assert init[j] == pairs[j];
      assert forall i :: j < i < |init| ==> init[i] == pairs[i];
      MapOfLastWins(init, j);
    }
  }

  /** What `readMapOfStrings` returns: a count, then that many key/value pairs put in
    * order; a count that is zero or negative gives the empty map. */
  function MapAt(src: seq<uint8>, pos: nat): (r: Result<Read<map<Bytes, Bytes>>>)
    ensures var n := ReadVInt(src, pos);
      (n.Err? ==> r == Err(n.error)) &&
      (n.Ok? && n.value.value <= 0 ==> r == Ok(Read(map[], n.value.next)))
    ensures r.Ok? ==> |r.value.value| <= if ReadVInt(src, pos).value.value <= 0 then 0 else ReadVInt(src, pos).value.value
  {
    var count :- ReadVInt(src, pos);
    if count.value <= 0 then Ok(Read(map[], count.next))
    else
      var pairs :- RepeatAt(PairAt, src, count.next, count.value);
      MapOfSize(pairs.value);
      Ok(Read(MapOf(pairs.value), pairs.next))
  }

  /** `MapAt` once the count is known to be positive. */
  lemma MapAtPositive(src: seq<uint8>, pos: nat, count: Read<int>)
    requires ReadVInt(src, pos) == Ok(count) && count.value > 0
    ensures var pairs := RepeatAt(PairAt, src, count.next, count.value);
      MapAt(src, pos) == if pairs.Ok? then Ok(Read(MapOf(pairs.value.value), pairs.value.next)) else Err(pairs.error)
  {
  }

  lemma {:induction false} MapOfSize(pairs: seq<(Bytes, Bytes)>)
    ensures |MapOf(pairs)| <= |pairs|
  {
    if pairs != [] {
      MapOfSize(pairs[..|pairs| - 1]);
    }
  }

  /**
   * `readMapOfStrings`: a vint count; zero is the empty map, one is a
   * singleton of the next key and value, and any other count loops `count`
   * times putting each key and value into a fresh map (none at all when the
   * count is negative).  Whether that map is a HashMap or a TreeMap does
   * not change its contents.
   */
  method ReadMapOfStrings(src: seq<uint8>, pos: nat) returns (r: Result<Read<map<Bytes, Bytes>>>)
    ensures r == MapAt(src, pos)
  {
    var n := ReadVInt(src, pos);                        // int count = readVInt()
    if n.Err? {
      return Err(n.error);
    }
    var count := n.value;
    if count.value == 0 {
      return Ok(Read(map[], count.next));               // Collections.emptyMap()
    }
    if count.value > 0 {
      MapAtPositive(src, pos, count);
    }
    if count.value == 1 {
      var pair := PairAt(src, count.next);              // readString(), readString()
      RepeatAtStep(PairAt, src, count.next, 0, [], count.next, pair);
      if pair.Err? {
        return Err(pair.error);
      }
      ghost var one: seq<(Bytes, Bytes)> := [pair.value.value];
      assert one[..0] == [] && [] + one == one;
      return Ok(Read(map[pair.value.value.0 := pair.value.value.1], pair.value.next));   // Collections.singletonMap
    }
    r := PutPairs(PairAt, src, count.next, count.value);
  }

  /** The loop of `readMapOfStrings`: `count` times, read a pair with `item` and put it. */
  method PutPairs(item: (seq<uint8>, nat) -> Result<Read<(Bytes, Bytes)>>, src: seq<uint8>, pos: nat, count: int)
    returns (r: Result<Read<map<Bytes, Bytes>>>)
    ensures count <= 0 ==> r == Ok(Read(map[], pos))
    ensures count > 0 ==> var pairs := RepeatAt(item, src, pos, count);
      r == if pairs.Ok? then Ok(Read(MapOf(pairs.value.value), pairs.value.next)) else Err(pairs.error)
  {
    var m: map<Bytes, Bytes> := map[];
    var p := pos;
    var i := 0;
    ghost var pairs: seq<(Bytes, Bytes)> := [];
    while i < count                                     // for (int i = 0; i < count; i++)
      invariant 0 <= i <= if count > 0 then count else 0
      invariant RepeatAt(item, src, pos, i) == Ok(Read(pairs, p)) && m == MapOf(pairs)
    {
      var pair := item(src, p);                         // key = readString(); val = readString()
      RepeatAtStep(item, src, pos, i, pairs, p, pair);
      if pair.Err? {
        RepeatAtFails(item, src, pos, i + 1, count);
        return Err(pair.error);
      }
      m := m[pair.value.value.0 := pair.value.value.1]; // map.put(key, val)
      ghost var before := pairs;
      pairs := pairs + [pair.value.value];
      assert pairs[..|pairs| - 1] == before;
      p := pair.value.next;
      i := i + 1;
    }
    return Ok(Read(m, p));
  }

  /** The set that `add`s the strings in order. */
  function SetOf(items: seq<Bytes>): set<Bytes> {
    if items == [] then {} else SetOf(items[..|items| - 1]) + {items[|items| - 1]}
  }

  /** The set holds exactly the strings read, duplicates once. */
  lemma {:induction false} SetOfElements(items: seq<Bytes>)
    ensures forall x :: x in SetOf(items) <==> x in items
    ensures |SetOf(items)| <= |items|
  {
    if items != [] {
      var init := items[..|items| - 1];
      SetOfElements(init);
      assert items == init + [items[|items| - 1]];
    }
  }

  /** What `readSetOfStrings` returns: a count, then that many strings added in order;
    * a count that is zero or negative gives the empty set. */
  function SetAt(src: seq<uint8>, pos: nat): (r: Result<Read<set<Bytes>>>)
    ensures var n := ReadVInt(src, pos);
      (n.Err? ==> r == Err(n.error)) &&
      (n.Ok? && n.value.value <= 0 ==> r == Ok(Read({}, n.value.next)))
  {
    var count :- ReadVInt(src, pos);
    if count.value <= 0 then Ok(Read({}, count.next))
    else
      var items :- RepeatAt(ReadString, src, count.next, count.value);
      Ok(Read(SetOf(items.value), items.next))
  }

  /** `SetAt` once the count is known to be positive. */
  lemma SetAtPositive(src: seq<uint8>, pos: nat, count: Read<int>)
    requires ReadVInt(src, pos) == Ok(count) && count.value > 0
    ensures var items := RepeatAt(ReadString, src, count.next, count.value);
      SetAt(src, pos) == if items.Ok? then Ok(Read(SetOf(items.value.value), items.value.next)) else Err(items.error)
  {
  }

  /**
   * `readSetOfStrings`: a vint count; zero is the empty set, one is a
   * singleton of the next string, and any other count loops `count` times
   * adding each string to a fresh set (none at all when the count is
   * negative).
   */
  method ReadSetOfStrings(src: seq<uint8>, pos: nat) returns (r: Result<Read<set<Bytes>>>)
    ensures r == SetAt(src, pos)
  {
    var n := ReadVInt(src, pos);                        // int count = readVInt()
    if n.Err? {
      return Err(n.error);
    }
    var count := n.value;
    if count.value == 0 {
      return Ok(Read({}, count.next));                  // Collections.emptySet()
    }
    if count.value > 0 {
      SetAtPositive(src, pos, count);
    }
    if count.value == 1 {
      var item := ReadString(src, count.next);
      RepeatAtStep(ReadString, src, count.next, 0, [], count.next, item);
      if item.Err? {
        return Err(item.error);
      }
      ghost var one: seq<Bytes> := [item.value.value];
      assert one[..0] == [] && [] + one == one;
      assert SetOf(one) == {item.value.value};
      return Ok(Read({item.value.value}, item.value.next));   // Collections.singleton(readString())
    }
    r := AddStrings(ReadString, src, count.next, count.value);
  }

  /** The loop of `readSetOfStrings`: `count` times, read a string with `item` and add it. */
  method AddStrings(item: (seq<uint8>, nat) -> Result<Read<Bytes>>, src: seq<uint8>, pos: nat, count: int)
    returns (r: Result<Read<set<Bytes>>>)
    ensures count <= 0 ==> r == Ok(Read({}, pos))
    ensures count > 0 ==> var items := RepeatAt(item, src, pos, count);
      r == if items.Ok? then Ok(Read(SetOf(items.value.value), items.value.next)) else Err(items.error)
  {
    var set_: set<Bytes> := {};
    var p := pos;
    var i := 0;
    ghost var items: seq<Bytes> := [];
    while i < count                                     // for (int i = 0; i < count; i++)
      invariant 0 <= i <= if count > 0 then count else 0
      invariant RepeatAt(item, src, pos, i) == Ok(Read(items, p)) && set_ == SetOf(items)
    {
      var next := item(src, p);                         // readString()
      RepeatAtStep(item, src, pos, i, items, p, next);
      if next.Err? {
        RepeatAtFails(item, src, pos, i + 1, count);
        return Err(next.error);
      }
      set_ := set_ + {next.value.value};                // set.add(...)
      ghost var before := items;
      items := items + [next.value.value];
      assert items[..|items| - 1] == before;
      p := next.value.next;
      i := i + 1;
    }
    return Ok(Read(set_, p));
  }

  // ---------------------------------------------------------------------
  // Arrays of fixed-width integers.

  /** `Objects.checkFromIndexSize(offset, length, size)`: the range lies within the array. */
  predicate IndexSizeInBounds(offset: int, length: int, size: nat) {
    0 <= offset && 0 <= length && offset <= size - length
  }

  /**
   * `readInts(dst, offset, length)`: the bounds check, which throws
   * IndexOutOfBoundsException, then `length` consecutive `readInt`s into
   * `dst[offset..offset+length)`.  A read that runs out of bytes ends the
   * loop with the ints before it already stored; nothing else changes.
   * The result is the position after the reads.
   */
  method ReadInts(src: seq<uint8>, pos: nat, dst: array<int32>, offset: int, length: int) returns (r: Result<nat>)
    modifies dst
    ensures !IndexSizeInBounds(offset, length, dst.Length) ==>
      r == Err(IndexOutOfBoundsException) && dst[..] == old(dst[..])
    ensures IndexSizeInBounds(offset, length, dst.Length) ==>
      (r.Ok? <==> length == 0 || pos + 4 * length <= |src|) && (r.Ok? ==> r.value == pos + 4 * length) &&
      (r.Err? ==> r.error == EndOfInput) &&
      (forall j :: offset <= j < offset + length && pos + 4 * (j - offset) + 4 <= |src| ==>
         Unsigned(32, dst[j]) == LittleEndianValue(src[pos + 4 * (j - offset)..pos + 4 * (j - offset) + 4])) &&
      (forall j :: 0 <= j < dst.Length && !(offset <= j < offset + length && pos + 4 * (j - offset) + 4 <= |src|) ==>
         dst[j] == old(dst[j]))
  {
    if !IndexSizeInBounds(offset, length, dst.Length) {
      return Err(IndexOutOfBoundsException);
    }
    var p := pos;
    var i := 0;
    while i < length
      invariant 0 <= i <= length && p == pos + 4 * i && (i > 0 ==> p <= |src|)
      invariant forall j :: offset <= j < offset + i ==>
        pos + 4 * (j - offset) + 4 <= |src|
        && Unsigned(32, dst[j]) == LittleEndianValue(src[pos + 4 * (j - offset)..pos + 4 * (j - offset) + 4])
      invariant forall j :: 0 <= j < dst.Length && !(offset <= j < offset + i) ==> dst[j] == old(dst[j])
    {
      var v := ReadInt(src, p);                         // readInt()
      if v.Err? {
        return Err(v.error);
      }
      dst[offset + i] := v.value.value;                 // dst[offset + i] = ...
      p := v.value.next;
      i := i + 1;
    }
    return Ok(p);
  }

  /** `readLongs(dst, offset, length)`: as `readInts`, with eight-byte `readLong`s. */
  method ReadLongs(src: seq<uint8>, pos: nat, dst: array<int64>, offset: int, length: int) returns (r: Result<nat>)
    modifies dst
    ensures !IndexSizeInBounds(offset, length, dst.Length) ==>
      r == Err(IndexOutOfBoundsException) && dst[..] == old(dst[..])
    ensures IndexSizeInBounds(offset, length, dst.Length) ==>
      (r.Ok? <==> length == 0 || pos + 8 * length <= |src|) && (r.Ok? ==> r.value == pos + 8 * length) &&
      (r.Err? ==> r.error == EndOfInput) &&
      (forall j :: offset <= j < offset + length && pos + 8 * (j - offset) + 8 <= |src| ==>
         Unsigned(64, dst[j]) == LittleEndianValue(src[pos + 8 * (j - offset)..pos + 8 * (j - offset) + 8])) &&
      (forall j :: 0 <= j < dst.Length && !(offset <= j < offset + length && pos + 8 * (j - offset) + 8 <= |src|) ==>
         dst[j] == old(dst[j]))
  {
    if !IndexSizeInBounds(offset, length, dst.Length) {
      return Err(IndexOutOfBoundsException);
    }
    var p := pos;
    var i := 0;
    while i < length
      invariant 0 <= i <= length && p == pos + 8 * i && (i > 0 ==> p <= |src|)
      invariant forall j :: offset <= j < offset + i ==>
        pos + 8 * (j - offset) + 8 <= |src|
        && Unsigned(64, dst[j]) == LittleEndianValue(src[pos + 8 * (j - offset)..pos + 8 * (j - offset) + 8])
      invariant forall j :: 0 <= j < dst.Length && !(offset <= j < offset + i) ==> dst[j] == old(dst[j])
    {
      var next := ReadLongInto(src, p, dst, offset + i);
      if next.Err? {
        return next;
      }
      p := next.value;
      i := i + 1;
    }
    return Ok(p);
  }

  /** One round of `readLongs`: `dst[k] = readLong()`. */
  method ReadLongInto(src: seq<uint8>, p: nat, dst: array<int64>, k: int) returns (r: Result<nat>)
    requires 0 <= k < dst.Length
    modifies dst
    ensures r.Ok? <==> p + 8 <= |src|
    ensures r.Err? ==> r.error == EndOfInput
    ensures r.Ok? ==> r.value == p + 8 && Unsigned(64, dst[k]) == LittleEndianValue(src[p..p + 8])
    ensures forall j :: 0 <= j < dst.Length && (j != k || r.Err?) ==> dst[j] == old(dst[j])
  {
    var v := ReadLong(src, p);                          // readLong()
    if v.Err? {
      return Err(v.error);
    }
    dst[k] := v.value.value;                            // dst[offset + i] = ...
    r := Ok(v.value.next);
  }

  // ---------------------------------------------------------------------
  // Timestamps ("T-long").

  /**
   * `readTLong`: as disk/Reader's, except that the continuation is the
   * bounded `readVLong()`, so more than nine continuation bytes are an
   * IOException here.
   */
  function ReadTLong(c: TimeConstants, src: seq<uint8>, pos: nat): (r: Result<Read<int64>>)
    requires c.Valid()
    ensures pos >= |src| ==> r == Err(EndOfInput)
    ensures pos < |src| && TimeUnit(c, src[pos]).None? ==> r.Err?
    ensures pos < |src| && (src[pos] / 0x20) % 2 == 0 && TimeUnit(c, src[pos]).Some? ==>
      r == Ok(Read(Wrap64(ZigZagDecode(64, src[pos] % 0x20) * TimeUnit(c, src[pos]).value), pos + 1))
    ensures pos < |src| && (src[pos] / 0x20) % 2 == 1 ==>
      var more := ReadVLong(src, pos + 1, false);
      (more.Err? ==> r == Err(more.error)) &&
      (more.Ok? && TimeUnit(c, src[pos]).Some? ==>
         r == Ok(Read(Wrap64(ZigZagDecode(64, TLongBits(src[pos], more.value.value))
                             * TimeUnit(c, src[pos]).value), more.value.next)))
  {
    var h :- ReadByte(src, pos);
    var header := h.value;                                // readByte() & 0xFF
    var withMore :- if (header / 0x20) % 2 == 1 then      // (header & 0x20) != 0
                      var more :- ReadVLong(src, h.next, false);
                      Ok(Read(TLongBits(header, more.value), more.next))   // bits |= readVLong() << 5
                    else Ok(Read(header % 0x20, h.next));                  // header & 0x1F
    var l := ZigZagDecode64(withMore.value);
    var unit := TimeUnit(c, header);
    if unit.None? then Err(AssertionError) else Ok(Read(Wrap64(l * unit.value), withMore.next))
  }

  /** Where the bounded `readTLong` succeeds, disk/Reader's `readTLong` gives the same. */
  lemma ReadTLongAgrees(c: TimeConstants, src: seq<uint8>, pos: nat)
    requires c.Valid() && ReadTLong(c, src, pos).Ok?
    ensures Reader.TLongAt(c, src, pos) == ReadTLong(c, src, pos)
  {
    if (src[pos] / 0x20) % 2 == 1 {
      ReadVLongAgrees(src, pos + 1, false);
    }
  }
}
