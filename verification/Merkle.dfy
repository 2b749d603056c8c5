/**
 The recursive construction of a hash tree over a blob whose size is a power of two of blocks.
 The hash of an inner node is the concatenation of its children's hashes.
 */
module Merkle {
  import opened Delimited
  import opened Bits
  import opened Widths

  const BLOCK_SIZE: nat := 4096

  type Digest = d: seq<Byte> | |d| == 32 witness seq(32, _ => 0)

  /** The block hash: any function with results of 32 bytes. */
  type Hasher = seq<Byte> -> Digest

  datatype Node =
    | Leaf(hash: seq<Byte>, start: nat, len: nat)
    | Inner(hash: seq<Byte>, start: nat, len: nat, left: Node, right: Node)

  /** Builds the node for `size` bytes from `offset`; `k` counts the halvings down to a block. */
  function Build(sha: Hasher, blob: seq<Byte>, size: nat, offset: nat, ghost k: nat): Node
    requires size == 4096 * Pow2(k) && offset + size <= |blob|
    decreases k
  {
    if size == BLOCK_SIZE then
      Leaf(sha(blob[offset..offset + size]), offset, size)
    else
      var left := Build(sha, blob, size / 2, offset, k - 1);
      var right := Build(sha, blob, size / 2, offset + size / 2, k - 1);
      Inner(left.hash + right.hash, offset, size, left, right)
  }

  // ----- what the tree contains

  predicate Perfect(t: Node, k: nat) {
    match t
    case Leaf(_, _, _) => k == 0
    case Inner(_, _, _, left, right) => k > 0 && Perfect(left, k - 1) && Perfect(right, k - 1)
  }

  /** The start of every leaf, from left to right. */
  function Leaves(t: Node): seq<nat> {
    match t
    case Leaf(_, start, _) => [start]
    case Inner(_, _, _, left, right) => Leaves(left) + Leaves(right)
  }

  function Block(blob: seq<Byte>, i: nat): seq<Byte>
    requires 4096 * i + 4096 <= |blob|
  {
    blob[4096 * i..4096 * i + 4096]
  }

  /** The hashes of `count` consecutive blocks, one after the other. */
  function BlockHashes(sha: Hasher, blob: seq<Byte>, from: nat, count: nat): seq<Byte>
    requires 4096 * (from + count) <= |blob|
    decreases count
  {
    if count == 0 then [] else sha(Block(blob, from)) + BlockHashes(sha, blob, from + 1, count - 1)
  }

  lemma {:induction false} BlockHashesLength(sha: Hasher, blob: seq<Byte>, from: nat, count: nat)
    requires 4096 * (from + count) <= |blob|
    ensures |BlockHashes(sha, blob, from, count)| == 32 * count
    decreases count
  {
    if count > 0 {
      BlockHashesLength(sha, blob, from + 1, count - 1);
    }
  }

  lemma {:induction false} BlockHashesSplit(sha: Hasher, blob: seq<Byte>, from: nat, a: nat, b: nat)
    requires 4096 * (from + a + b) <= |blob|
    ensures BlockHashes(sha, blob, from, a + b)
         == BlockHashes(sha, blob, from, a) + BlockHashes(sha, blob, from + a, b)
    decreases a
  {
    if a == 0 {
      assert BlockHashes(sha, blob, from, 0) == [];
    } else {
      BlockHashesSplit(sha, blob, from + 1, a - 1, b);
    }
  }

  /** Every node covers its own blocks: it starts where they start and is as long as they are,
      its hash is their hashes one after the other, and its children cover the two halves. */
  ghost predicate Covers(sha: Hasher, blob: seq<Byte>, t: Node, from: nat, k: nat)
    requires 4096 * (from + Pow2(k)) <= |blob|
    decreases k
  {
    && t.start == 4096 * from && t.len == 4096 * Pow2(k)
    && t.hash == BlockHashes(sha, blob, from, Pow2(k))
    && (t.Leaf? <==> k == 0)
    && (k > 0 ==> Covers(sha, blob, t.left, from, k - 1) && Covers(sha, blob, t.right, from + Pow2(k - 1), k - 1))
  }

  /** So the tree is perfect and its leaves tile the blocks in order. */
  lemma {:induction false} CoversTiles(sha: Hasher, blob: seq<Byte>, t: Node, from: nat, k: nat)
    requires 4096 * (from + Pow2(k)) <= |blob| && Covers(sha, blob, t, from, k)
    ensures Perfect(t, k) && |Leaves(t)| == Pow2(k)
    ensures forall i :: 0 <= i < Pow2(k) ==> Leaves(t)[i] == 4096 * (from + i)
    decreases k
  {
    if k > 0 {
      CoversTiles(sha, blob, t.left, from, k - 1);
      CoversTiles(sha, blob, t.right, from + Pow2(k - 1), k - 1);
    }
  }

  lemma CoversBoth(sha: Hasher, blob: seq<Byte>, left: Node, right: Node, from: nat, k: nat)
    requires k > 0 && 4096 * (from + Pow2(k)) <= |blob|
    requires Covers(sha, blob, left, from, k - 1) && Covers(sha, blob, right, from + Pow2(k - 1), k - 1)
    ensures Covers(sha, blob, Inner(left.hash + right.hash, 4096 * from, 4096 * Pow2(k), left, right), from, k)
  {
    BlockHashesSplit(sha, blob, from, Pow2(k - 1), Pow2(k - 1));
  }

  lemma {:induction false} BuildCovers(sha: Hasher, blob: seq<Byte>, from: nat, k: nat)
    requires 4096 * (from + Pow2(k)) <= |blob|
    ensures Covers(sha, blob, Build(sha, blob, 4096 * Pow2(k), 4096 * from, k), from, k)
    decreases k
  {
    if k == 0 {
      assert BlockHashes(sha, blob, from + 1, 0) == [];
      assert Build(sha, blob, 4096 * Pow2(k), 4096 * from, k) == Leaf(sha(Block(blob, from)), 4096 * from, 4096);
    } else {
      var half := Pow2(k - 1);
      BuildCovers(sha, blob, from, k - 1);
      BuildCovers(sha, blob, from + half, k - 1);
      CoversBoth(sha, blob, Build(sha, blob, 4096 * half, 4096 * from, k - 1),
                 Build(sha, blob, 4096 * half, 4096 * (from + half), k - 1), from, k);
    }
  }

  // ----- changing one byte

  function Segment(hash: seq<Byte>, b: nat): seq<Byte>
    requires 32 * b + 32 <= |hash|
  {
    hash[32 * b..32 * b + 32]
  }

  lemma {:induction false} SegmentIsBlockHash(sha: Hasher, blob: seq<Byte>, from: nat, count: nat, b: nat)
    requires 4096 * (from + count) <= |blob| && b < count
    ensures |BlockHashes(sha, blob, from, count)| == 32 * count
    ensures Segment(BlockHashes(sha, blob, from, count), b) == sha(Block(blob, from + b))
    decreases count
  {
    BlockHashesLength(sha, blob, from, count);
    BlockHashesLength(sha, blob, from + 1, count - 1);
    var first: seq<Byte>, rest: seq<Byte> := sha(Block(blob, from)), BlockHashes(sha, blob, from + 1, count - 1);
    if b == 0 {
      assert (first + rest)[0..32] == first;
    } else {
      SegmentIsBlockHash(sha, blob, from + 1, count - 1, b - 1);
      assert (first + rest)[32 * b..32 * b + 32] == rest[32 * (b - 1)..32 * (b - 1) + 32];
    }
  }

  /** Rebuilding after a change of one byte alters the root hash at most in the 32 bytes that
      belong to that byte's block; every segment is the hash of its block, before and after. */
  lemma OneByteChange(sha: Hasher, blob: seq<Byte>, k: nat, idx: nat, value: Byte, b: nat)
    requires |blob| == 4096 * Pow2(k) && idx < |blob| && b < Pow2(k)
    ensures var blob' := blob[idx := value];
            var h, h' := Build(sha, blob, |blob|, 0, k).hash, Build(sha, blob', |blob|, 0, k).hash;
            && |h| == |h'| == 32 * Pow2(k)
            && Segment(h, b) == sha(Block(blob, b)) && Segment(h', b) == sha(Block(blob', b))
            && (b != idx / BLOCK_SIZE ==> Segment(h', b) == Segment(h, b))
  {
    var blob' := blob[idx := value];
    RootSegment(sha, blob, k, b);
    RootSegment(sha, blob', k, b);
    OtherBlockKept(blob, idx, value, b);
  }

  lemma RootSegment(sha: Hasher, blob: seq<Byte>, k: nat, b: nat)
    requires |blob| == 4096 * Pow2(k) && b < Pow2(k)
    ensures var h := Build(sha, blob, |blob|, 0, k).hash;
            |h| == 32 * Pow2(k) && Segment(h, b) == sha(Block(blob, b))
  {
    BuildCovers(sha, blob, 0, k);
    SegmentIsBlockHash(sha, blob, 0, Pow2(k), b);
  }

  lemma OtherBlockKept(blob: seq<Byte>, idx: nat, value: Byte, b: nat)
    requires idx < |blob| && 4096 * b + 4096 <= |blob|
    ensures b != idx / BLOCK_SIZE ==> Block(blob[idx := value], b) == Block(blob, b)
  {
  }

  // ----- the block count

  /** The check made on the block count, with the subtraction wrapping at 64 bits. */
  predicate Accepted(blockCount: nat) {
    And((blockCount + TWO64 - 1) % TWO64, blockCount) == 0
  }

  /** Among positive counts exactly the powers of two pass; zero passes as well when the
      subtraction wraps. The size of the blob in bytes fits 64 bits for counts below 2^52, and
      for those that pass the construction is defined. */
  lemma AcceptedIffPowerOfTwo(blockCount: nat)
    requires blockCount < TWO64
    ensures Accepted(blockCount) <==> blockCount == 0 || IsPow2(blockCount)
  {
    if blockCount > 0 {
      PowerOfTwoTest(blockCount);
      assert (blockCount + TWO64 - 1) % TWO64 == blockCount - 1;
    } else {
      assert And(TWO64 - 1, 0) == 0;
    }
  }
}
