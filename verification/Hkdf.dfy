/** The key expansion of RFC 5869 over an arbitrary keyed hash. */
module Hkdf {
  import opened Bytes

  type Hmac = (seq<Byte>, seq<Byte>) -> seq<Byte>

  const MAX_BLOCKS := 255

  /** Section 2.3 of RFC 5869: T(0) is empty, and each block hashes the one before it. */
  ghost function T(hmac: Hmac, prKey: seq<Byte>, info: seq<Byte>, n: nat): seq<Byte>
    requires n <= MAX_BLOCKS
  {
    if n == 0 then [] else hmac(prKey, T(hmac, prKey, info, n - 1) + info + [n])
  }

  /** The last input byte counts the blocks from one. */
  lemma FirstBlocks(hmac: Hmac, prKey: seq<Byte>, info: seq<Byte>)
    ensures T(hmac, prKey, info, 1) == hmac(prKey, info + [1])
    ensures T(hmac, prKey, info, 2) == hmac(prKey, hmac(prKey, info + [1]) + info + [2])
  {
    assert [] + info + [1] == info + [1];
  }

  /** T(1) | T(2) | ... | T(n) */
  ghost function Blocks(hmac: Hmac, prKey: seq<Byte>, info: seq<Byte>, n: nat): seq<Byte>
    requires n <= MAX_BLOCKS
  {
    if n == 0 then [] else Blocks(hmac, prKey, info, n - 1) + T(hmac, prKey, info, n)
  }

  /** The length of `n` blocks. */
  function Octets(n: nat, hashSize: nat): nat { n * hashSize }

  ghost predicate HashesTo(hmac: Hmac, hashSize: nat) {
    forall k, t :: |hmac(k, t)| == hashSize
  }

  /** The hash calls of the first `n` rounds succeed; `works` tells by the 8-bit counter of a round. */
  ghost predicate RoundsWork(works: Byte -> bool, n: nat) {
    forall r: nat :: 1 <= r <= n ==> works(r % 256)
  }

  /** The hash call of round `n + 1` is the first to fail. */
  ghost predicate FailsAfter(works: Byte -> bool, n: nat) {
    RoundsWork(works, n) && !works((n + 1) % 256)
  }

  /** How many blocks `len` octets take. */
  function BlockCount(len: nat, hashSize: nat): nat
    requires hashSize > 0
  {
    (len + hashSize - 1) / hashSize
  }

  lemma {:induction false} BlocksLength(hmac: Hmac, hashSize: nat, prKey: seq<Byte>, info: seq<Byte>, n: nat)
    requires HashesTo(hmac, hashSize) && n <= MAX_BLOCKS
    ensures |Blocks(hmac, prKey, info, n)| == Octets(n, hashSize)
  {
    if n > 0 {
      BlocksLength(hmac, hashSize, prKey, info, n - 1);
      assert n * hashSize == (n - 1) * hashSize + hashSize;
    }
  }

  /** Asking for fewer octets gives the beginning of what asking for more gives. */
  lemma {:induction false} BlocksGrow(hmac: Hmac, prKey: seq<Byte>, info: seq<Byte>, m: nat, n: nat)
    requires m <= n <= MAX_BLOCKS
    ensures Blocks(hmac, prKey, info, m) <= Blocks(hmac, prKey, info, n)
  {
    if m < n {
      BlocksGrow(hmac, prKey, info, m, n - 1);
    }
  }

  lemma CountIsExact(len: nat, hashSize: nat, n: nat)
    requires hashSize > 0 && n * hashSize <= len < (n + 1) * hashSize
    ensures BlockCount(len, hashSize) == if len == n * hashSize then n else n + 1
  {
    var count := if len == n * hashSize then n else n + 1;
    var up := len + hashSize - 1;
    assert count * hashSize <= up < (count + 1) * hashSize;
    QuotientIs(up, hashSize, count);
  }

  lemma QuotientIs(a: nat, d: nat, q: nat)
    requires d > 0 && q * d <= a < (q + 1) * d
    ensures a / d == q
  {
    var p := a / d;
    assert a == p * d + a % d;
    assert (p + 1) * d == p * d + d;
    LessFactor(p, q + 1, d);
    LessFactor(q, p + 1, d);
  }

  lemma LessFactor(m: nat, n: nat, d: nat)
    requires m * d < n * d
    ensures m < n
  {
  }

  lemma NoMoreThan(n: nat, hashSize: nat, len: nat)
    requires hashSize > 0 && Octets(n, hashSize) <= len <= MAX_BLOCKS * hashSize
    ensures n <= MAX_BLOCKS
    ensures n == MAX_BLOCKS ==> len == Octets(n, hashSize)
  {
    assert (MAX_BLOCKS + 1) * hashSize == MAX_BLOCKS * hashSize + hashSize;
    LessFactor(n, MAX_BLOCKS + 1, hashSize);
  }

  /** The block before is the last one written. */
  lemma PreviousBlock(hmac: Hmac, hashSize: nat, prKey: seq<Byte>, info: seq<Byte>, n: nat)
    requires HashesTo(hmac, hashSize) && 0 < n <= MAX_BLOCKS
    ensures Octets(n, hashSize) - hashSize >= 0 && |Blocks(hmac, prKey, info, n)| == Octets(n, hashSize)
    ensures Blocks(hmac, prKey, info, n)[Octets(n, hashSize) - hashSize..] == T(hmac, prKey, info, n)
  {
    BlocksLength(hmac, hashSize, prKey, info, n);
    BlocksLength(hmac, hashSize, prKey, info, n - 1);
    assert n * hashSize == (n - 1) * hashSize + hashSize;
  }

  /** `len` octets of the blocks, the last one cut short, are the output asked for. */
  lemma Finished(
    hmac: Hmac, hashSize: nat, prKey: seq<Byte>, info: seq<Byte>, len: nat, n: nat, last: seq<Byte>)
    requires hashSize > 0 && HashesTo(hmac, hashSize)
    requires Octets(n, hashSize) <= len < Octets(n, hashSize) + hashSize && len <= MAX_BLOCKS * hashSize
    requires n <= MAX_BLOCKS && |last| == len - Octets(n, hashSize)
    requires n < MAX_BLOCKS ==> last <= T(hmac, prKey, info, n + 1)
    ensures var count := BlockCount(len, hashSize);
            && count <= MAX_BLOCKS && len <= |Blocks(hmac, prKey, info, count)|
            && Blocks(hmac, prKey, info, n) + last == Blocks(hmac, prKey, info, count)[..len]
  {
    NoMoreThan(n, hashSize, len);
    assert (n + 1) * hashSize == n * hashSize + hashSize;
    CountIsExact(len, hashSize, n);
    BlocksLength(hmac, hashSize, prKey, info, n);
    if len == n * hashSize {
      assert last == [];
    } else {
      BlocksLength(hmac, hashSize, prKey, info, n + 1);
    }
  }

  /** What the loop hashes in round `n + 1` is what T(n + 1) hashes, except in a 256th round. */
  lemma TextIsNext(hmac: Hmac, hashSize: nat, prKey: seq<Byte>, info: seq<Byte>, n: nat, hashNum: Byte,
                   written: seq<Byte>, text: seq<Byte>)
    requires hashSize > 0 && HashesTo(hmac, hashSize) && n < MAX_BLOCKS && hashNum == n + 1
    requires written == Blocks(hmac, prKey, info, n) && |written| == Octets(n, hashSize)
    requires n > 0 ==> |written| >= hashSize
    requires text == (if hashNum > 1 then written[|written| - hashSize..] else []) + info + [hashNum]
    ensures hmac(prKey, text) == T(hmac, prKey, info, n + 1)
    ensures Blocks(hmac, prKey, info, n + 1) == written + hmac(prKey, text)
  {
    if n > 0 {
      PreviousBlock(hmac, hashSize, prKey, info, n);
    }
  }

  /** The octets for a length are the first of the octets for any greater one. */
  lemma OutputIsPrefix(hmac: Hmac, hashSize: nat, prKey: seq<Byte>, info: seq<Byte>, len: nat, more: nat)
    requires hashSize > 0 && HashesTo(hmac, hashSize) && len <= more <= MAX_BLOCKS * hashSize
    ensures var m, n := BlockCount(len, hashSize), BlockCount(more, hashSize);
            && m <= n <= MAX_BLOCKS && len <= |Blocks(hmac, prKey, info, m)| && more <= |Blocks(hmac, prKey, info, n)|
            && Blocks(hmac, prKey, info, m)[..len] <= Blocks(hmac, prKey, info, n)[..more]
  {
    var m, n := BlockCount(len, hashSize), BlockCount(more, hashSize);
    Enough(len, hashSize);
    Enough(more, hashSize);
    assert (n + 1) * hashSize == n * hashSize + hashSize;
    assert (MAX_BLOCKS + 1) * hashSize == MAX_BLOCKS * hashSize + hashSize;
    LessFactor(m, n + 1, hashSize);
    LessFactor(n, MAX_BLOCKS + 1, hashSize);
    BlocksLength(hmac, hashSize, prKey, info, m);
    BlocksLength(hmac, hashSize, prKey, info, n);
    BlocksGrow(hmac, prKey, info, m, n);
  }

  lemma RoundsSoFar(n: nat, hashSize: nat, len: nat)
    requires hashSize > 0 && Octets(n, hashSize) <= len
    ensures n <= len / hashSize
    ensures len < Octets(n, hashSize) + hashSize ==> n == len / hashSize
  {
    var q := len / hashSize;
    assert len == q * hashSize + len % hashSize;
    assert (q + 1) * hashSize == q * hashSize + hashSize && (n + 1) * hashSize == n * hashSize + hashSize;
    LessFactor(n, q + 1, hashSize);
    if len < Octets(n, hashSize) + hashSize {
      LessFactor(q, n + 1, hashSize);
    }
  }

  lemma HashLength(hmac: Hmac, hashSize: nat, key: seq<Byte>, text: seq<Byte>)
    requires HashesTo(hmac, hashSize)
    ensures |hmac(key, text)| == hashSize
  {
  }

  lemma OneMoreBlock(n: nat, hashSize: nat)
    ensures Octets(0, hashSize) == 0 && Octets(n + 1, hashSize) == Octets(n, hashSize) + hashSize
    ensures n > 0 ==> Octets(n, hashSize) >= hashSize
  {
  }

  lemma Enough(len: nat, hashSize: nat)
    requires hashSize > 0
    ensures len <= BlockCount(len, hashSize) * hashSize < len + hashSize
  {
    var up := len + hashSize - 1;
    assert up == up / hashSize * hashSize + up % hashSize;
  }

  /**
    HKDF_expand into the first `len` bytes of `outKey`. It succeeds for lengths of 1 up to 255
    blocks if the hash works in every round, one more than the whole blocks of the output even
    when no octets are left for it. It then has written the first `len` octets of
    T(1) | T(2) | ... and nothing else. Where a hash fails, the blocks before it are written.
   */
  method Expand(hmac: Hmac, works: Byte -> bool, hashSize: nat, prKey: seq<Byte>, info: seq<Byte>,
                outKey: array<Byte>, len: nat)
    returns (res: bool)
    requires hashSize > 0 && HashesTo(hmac, hashSize) && len <= outKey.Length
    modifies outKey
    ensures res <==> 1 <= len <= MAX_BLOCKS * hashSize && RoundsWork(works, len / hashSize + 1)
    ensures !(1 <= len <= MAX_BLOCKS * hashSize) ==> outKey[..] == old(outKey[..])
    ensures outKey[len..] == old(outKey[len..])
    ensures !res && 1 <= len <= MAX_BLOCKS * hashSize ==>
              exists n: nat :: FailsAfter(works, n) && n <= MAX_BLOCKS && Octets(n, hashSize) <= len &&
                outKey[..Octets(n, hashSize)] == Blocks(hmac, prKey, info, n)
    ensures res ==>
              && BlockCount(len, hashSize) <= MAX_BLOCKS
              && len <= |Blocks(hmac, prKey, info, BlockCount(len, hashSize))|
              && outKey[..len] == Blocks(hmac, prKey, info, BlockCount(len, hashSize))[..len]
  {
    hide T, Blocks, BlockCount, HashesTo, Octets, RoundsWork, FailsAfter;
    var hashNum: Byte := 1;
    if len < 1 || len > 255 * hashSize {
      return false;
    }
    var at, outKeyLen := 0, len;
    ghost var done: nat := 0;
    BlocksLength(hmac, hashSize, prKey, info, 0);
    OneMoreBlock(0, hashSize);
    NoRounds(works);
    while true
      invariant at >= 0 && outKeyLen >= 0 && at + outKeyLen == len && at == Octets(done, hashSize) && done <= MAX_BLOCKS
      invariant hashNum == (if done == MAX_BLOCKS then 0 else done + 1) && RoundsWork(works, done)
      invariant outKey[..at] == Blocks(hmac, prKey, info, done)
      invariant forall i :: len <= i < outKey.Length ==> outKey[i] == old(outKey[i])
      decreases outKeyLen
    {
      NoMoreThan(done, hashSize, len);
      OneMoreBlock(done, hashSize);
      RoundsSoFar(done, hashSize, len);
      OneMoreRound(works, done, len / hashSize + 1);
      if !works(hashNum) {
        return false;
      }
      var text := HashInput(hashNum, outKey, at, hashSize, info);
      var hash := hmac(prKey, text);
      HashLength(hmac, hashSize, prKey, text);
      if done < MAX_BLOCKS {
        TextIsNext(hmac, hashSize, prKey, info, done, hashNum, outKey[..at], text);
      }
      if outKeyLen < hashSize {
        CopyInto(hash, outKeyLen, outKey, at);
        Finished(hmac, hashSize, prKey, info, len, done, hash[..outKeyLen]);
        break;
      }
      CopyInto(hash, hashSize, outKey, at);
      at := at + hashSize;
      outKeyLen := outKeyLen - hashSize;
      hashNum := (hashNum + 1) % 256;
      done := done + 1;
    }
    res := true;
  }

  lemma NoRounds(works: Byte -> bool)
    ensures RoundsWork(works, 0)
  {
  }

  /** After `n` rounds the counter of the next one decides about `n + 1`, and a failure about all. */
  lemma OneMoreRound(works: Byte -> bool, n: nat, all: nat)
    requires RoundsWork(works, n) && n < all
    ensures RoundsWork(works, n + 1) <==> works((n + 1) % 256)
    ensures !works((n + 1) % 256) ==> FailsAfter(works, n) && !RoundsWork(works, all)
  {
  }

  /** The bytes fed to one round's hash, the previous block read back from the output. */
  method HashInput(hashNum: Byte, outKey: array<Byte>, at: nat, hashSize: nat, info: seq<Byte>)
    returns (text: seq<Byte>)
    requires at <= outKey.Length && (hashNum > 1 ==> hashSize <= at)
    ensures text == (if hashNum > 1 then outKey[at - hashSize..at] else []) + info + [hashNum]
  {
    text := [];
    if hashNum > 1 {
      text := text + outKey[at - hashSize..at];
    }
    if info != [] {
      text := text + info;
    }
    text := text + [hashNum];
  }

  /** memcpy of the first `n` bytes of a hash. */
  method CopyInto(hash: seq<Byte>, n: nat, outKey: array<Byte>, at: nat)
    requires n <= |hash| && at + n <= outKey.Length
    modifies outKey
    ensures outKey[..at + n] == old(outKey[..at]) + hash[..n]
    ensures forall i :: at + n <= i < outKey.Length ==> outKey[i] == old(outKey[i])
  {
    forall i | 0 <= i < n {
      outKey[at + i] := hash[i];
    }
    assert outKey[..at + n] == outKey[..at] + outKey[at..at + n];
  }
}
