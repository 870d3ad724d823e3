/** Bytes and the little-endian integers of the wire format. */
module Bytes {
  type Byte = n: nat | n < 256

  function Pow256(k: nat): (r: nat)
    ensures r > 0
  {
    if k == 0 then 1 else 256 * Pow256(k - 1)
  }

  /** The number whose little-endian bytes are `bs`. */
  function ReadLE(bs: seq<Byte>): nat {
    if bs == [] then 0 else bs[0] + 256 * ReadLE(bs[1..])
  }

  /** The low `k` bytes of `n`, least significant first. */
  function WriteLE(n: nat, k: nat): (bs: seq<Byte>)
    ensures |bs| == k
  {
    if k == 0 then [] else [n % 256] + WriteLE(n / 256, k - 1)
  }

  lemma {:induction false} ReadAfterWrite(n: nat, k: nat)
    requires n < Pow256(k)
    ensures ReadLE(WriteLE(n, k)) == n
  {
    if k > 0 {
      ReadAfterWrite(n / 256, k - 1);
      assert WriteLE(n, k)[1..] == WriteLE(n / 256, k - 1);
    }
  }

  lemma {:induction false} WriteAfterRead(bs: seq<Byte>)
    ensures ReadLE(bs) < Pow256(|bs|)
    ensures WriteLE(ReadLE(bs), |bs|) == bs
  {
    if bs != [] {
      WriteAfterRead(bs[1..]);
      assert Pow256(|bs|) == 256 * Pow256(|bs| - 1);
      assert ReadLE(bs) % 256 == bs[0] && ReadLE(bs) / 256 == ReadLE(bs[1..]);
      assert bs == [bs[0]] + bs[1..];
    }
  }

  lemma Widths()
    ensures Pow256(0) == 1 && Pow256(1) == 0x100 && Pow256(2) == 0x1_0000
    ensures Pow256(4) == 0x1_0000_0000 && Pow256(8) == 0x1_0000_0000_0000_0000
  {
    assert Pow256(3) == 0x100_0000;
    assert Pow256(5) == 0x100_0000_0000;
    assert Pow256(6) == 0x1_0000_0000_0000;
    assert Pow256(7) == 0x100_0000_0000_0000;
  }

  /** `bs` stands in `input` at offset `pos`. */
  predicate At(input: seq<Byte>, pos: nat, bs: seq<Byte>) {
    pos + |bs| <= |input| && input[pos..pos + |bs|] == bs
  }

  lemma AtConcat(input: seq<Byte>, pos: nat, a: seq<Byte>, b: seq<Byte>)
    ensures At(input, pos, a + b) <==> At(input, pos, a) && At(input, pos + |a|, b)
  {
    if At(input, pos, a + b) {
      assert input[pos..pos + |a|] == (a + b)[..|a|] == a;
      assert input[pos + |a|..pos + |a| + |b|] == (a + b)[|a|..] == b;
    }
    if At(input, pos, a) && At(input, pos + |a|, b) {
      assert input[pos..pos + |a + b|] == input[pos..pos + |a|] + input[pos + |a|..pos + |a| + |b|];
    }
  }
}
