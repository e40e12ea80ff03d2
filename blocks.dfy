/**
 * The block layout shared by disk/RamWriter and disk/RamReader: content is
 * cut into blocks of `BLOCK_SIZE = 4 * 1024` bytes, every block but the
 * last full, and a byte at absolute position p lives at offset p % 4096 of
 * block p / 4096.  The block size is written as the literal 4096 throughout,
 * so that multiplying by it stays linear arithmetic for the verifier.
 */
module Blocks {
  import opened Java

  /** The bytes of a list of blocks, one after the other. */
  function Concat(vs: seq<seq<uint8>>): seq<uint8>
  {
    if vs == [] then [] else Concat(vs[..|vs| - 1]) + vs[|vs| - 1]
  }

  /** Every block but the last holds exactly 4096 bytes, the last at most that. */
  predicate FullBlocks(vs: seq<seq<uint8>>) {
    (forall i :: 0 <= i < |vs| - 1 ==> |vs[i]| == 4096) &&
    (|vs| > 0 ==> |vs[|vs| - 1]| <= 4096)
  }

  lemma {:induction false} ConcatLength(vs: seq<seq<uint8>>)
    requires FullBlocks(vs)
    ensures |Concat(vs)| == if vs == [] then 0 else (|vs| - 1) * 4096 + |vs[|vs| - 1]|
  {
    if |vs| > 1 {
      var init := vs[..|vs| - 1];
      assert FullBlocks(init) by {
        forall i | 0 <= i < |init| ensures |init[i]| == 4096 {
          assert init[i] == vs[i];
        }
      }
      ConcatLength(init);
      assert init[|init| - 1] == vs[|vs| - 2];
    }
  }

  /** Position p of the content is byte p % 4096 of block p / 4096. */
  lemma {:induction false} ConcatIndex(vs: seq<seq<uint8>>, p: nat)
    requires FullBlocks(vs) && p < |Concat(vs)|
    ensures p / 4096 < |vs| && p % 4096 < |vs[p / 4096]|
    ensures Concat(vs)[p] == vs[p / 4096][p % 4096]
  {
    var init, last := vs[..|vs| - 1], vs[|vs| - 1];
    assert FullBlocks(init) by {
      forall i | 0 <= i < |init| ensures |init[i]| == 4096 {
        assert init[i] == vs[i];
      }
    }
    ConcatLength(init);
    assert |Concat(init)| == |init| * 4096 by {
      if init != [] {
        assert init[|init| - 1] == vs[|vs| - 2];
      }
    }
    if p < |Concat(init)| {
      ConcatIndex(init, p);
      assert init[p / 4096] == vs[p / 4096];
    } else {
      var k := p - |init| * 4096;
      assert 0 <= k < |last| <= 4096;
      DivUnique(p, 4096, |init|, k);
    }
  }

  /** Appending a block appends its bytes. */
  lemma ConcatSnoc(vs: seq<seq<uint8>>, v: seq<uint8>)
    ensures Concat(vs + [v]) == Concat(vs) + v
  {
    assert (vs + [v])[..|vs|] == vs;
  }
}
