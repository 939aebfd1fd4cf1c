/**
 * Machine words of RV64 and their little-endian byte view.
 *
 * The C code reinterprets one address as a `u8 *`, an `unsigned long *` or a
 * `uintptr_t` (the unions `types` and `const_types`). In this model an
 * address is a `nat`, a byte is a `bv8` and an `unsigned long` is a `bv64`
 * whose bytes sit in memory least significant first, as on RISC-V.
 */
module Words {

  /** BYTES_LONG: sizeof(long) on RV64. */
  const W: nat := 8

  /** MIN_THRESHOLD: copies shorter than two words are done byte by byte. */
  const MinThreshold: nat := 2 * W

  /** The eight words that one iteration of `__memcpy_aligned` moves, in bytes. */
  const GroupBytes: nat := 8 * W

  /** `unsigned long` */
  type Word = bv64

  /** BYTES_LONG as a word, for shift amounts computed in word arithmetic. */
  const BytesLong: Word := 8

  /** The word whose little-endian bytes are `b`: a word load. */
  function LoadWord(b: seq<bv8>): Word
    requires |b| == W
  {
    (b[0] as Word)
    | ((b[1] as Word) << 8)
    | ((b[2] as Word) << 16)
    | ((b[3] as Word) << 24)
    | ((b[4] as Word) << 32)
    | ((b[5] as Word) << 40)
    | ((b[6] as Word) << 48)
    | ((b[7] as Word) << 56)
  }

  /** Byte `k` of `v`, counting from the least significant. */
  function Lane(v: Word, k: nat): bv8
    requires k < W
  {
    if k == 0 then (v & 0xFF) as bv8
    else if k == 1 then ((v >> 8) & 0xFF) as bv8
    else if k == 2 then ((v >> 16) & 0xFF) as bv8
    else if k == 3 then ((v >> 24) & 0xFF) as bv8
    else if k == 4 then ((v >> 32) & 0xFF) as bv8
    else if k == 5 then ((v >> 40) & 0xFF) as bv8
    else if k == 6 then ((v >> 48) & 0xFF) as bv8
    else ((v >> 56) & 0xFF) as bv8
  }

  /** The little-endian bytes of `v`: what a word store puts in memory. */
  function StoreWord(v: Word): (b: seq<bv8>)
    ensures |b| == W
  {
    seq(W, k requires 0 <= k < W => Lane(v, k))
  }

  /** `b` holds the bytes of `v`, least significant first. */
  predicate Encodes(v: Word, b: seq<bv8>)
  {
    |b| == W && forall k {:trigger Lane(v, k)} :: 0 <= k < W ==> b[k] == Lane(v, k)
  }

  /** Encodes is what a store writes. */
  lemma EncodesStore(v: Word, b: seq<bv8>)
    ensures Encodes(v, b) <==> StoreWord(v) == b
  {
  }

  /** A word load gives the word the bytes encode. */
  lemma EncodesLoad(b: seq<bv8>)
    requires |b| == W
    ensures Encodes(LoadWord(b), b)
  {
    StoreLoad(b);
    EncodesStore(LoadWord(b), b);
  }

  /** Loading the bytes a store wrote gives back the stored word. */
  lemma LoadStore(v: Word)
    ensures LoadWord(StoreWord(v)) == v
  {
  }

  /** Storing a loaded word gives back the bytes it was loaded from. */
  lemma StoreLoad(b: seq<bv8>)
    requires |b| == W
    ensures StoreWord(LoadWord(b)) == b
  {
  }

  /**
   * The word the shift path stores: `last` shifted right by `distance`
   * bytes, ORed with `next` shifted left by the remaining `W - distance`
   * bytes. `distance` is never 0 here, which keeps both shifts below 64.
   */
  function Merge(last: Word, next: Word, distance: Word): Word
    requires 0 < distance < BytesLong
  {
    (last >> (distance * 8)) | (next << ((BytesLong - distance) * 8))
  }

  /**
   * The merged word is made of the top `W - distance` bytes of `last`
   * followed by the bottom `distance` bytes of `next`, whatever the other
   * bytes of `last` and `next` hold.
   */
  lemma MergeBytes(last: Word, next: Word, distance: Word)
    requires 0 < distance < BytesLong
    ensures StoreWord(Merge(last, next, distance))
         == StoreWord(last)[distance..] + StoreWord(next)[..distance]
  {
    if distance == 1 {
      MergeBytes1(last, next);
    } else if distance == 2 {
      MergeBytes2(last, next);
    } else if distance == 3 {
      MergeBytes3(last, next);
    } else if distance == 4 {
      MergeBytes4(last, next);
    } else if distance == 5 {
      MergeBytes5(last, next);
    } else if distance == 6 {
      MergeBytes6(last, next);
    } else {
      MergeBytes7(last, next);
    }
  }

  /**
   * The shift/OR of two consecutive aligned words equals the word that
   * starts `distance` bytes into the first of them.
   */
  lemma MergeIsMisalignedLoad(b: seq<bv8>, distance: Word)
    requires |b| == 2 * W
    requires 0 < distance < BytesLong
    ensures Merge(LoadWord(b[..W]), LoadWord(b[W..]), distance)
         == LoadWord(b[distance as int..distance as int + W])
  {
    var last, next := LoadWord(b[..W]), LoadWord(b[W..]);
    var k := distance as int;
    WordOfDistance(k);
    StoreLoad(b[..W]);
    StoreLoad(b[W..]);
    MergeSlices(last, next, k, b, 0);
    LoadStore(Merge(last, next, distance));
  }

  /**
   * Within a byte sequence `b`: merging a word holding the bytes from
   * `i + k` up to the word boundary `i + W` with a word starting with the
   * `k` bytes after that boundary gives the `W` bytes from `i + k`.
   */
  lemma MergeSlices(last: Word, next: Word, k: nat, b: seq<bv8>, i: nat)
    requires 0 < k < W && i + W + k <= |b|
    requires StoreWord(last)[k..] == b[i + k..i + W]
    requires StoreWord(next)[..k] == b[i + W..i + W + k]
    ensures 0 < k as Word < BytesLong
    ensures StoreWord(Merge(last, next, k as Word)) == b[i + k..i + k + W]
  {
    WordOfDistance(k);
    MergeBytes(last, next, k as Word);
    assert b[i + k..i + W] + b[i + W..i + W + k] == b[i + k..i + k + W];
  }

  /** A byte offset below W held in a word: the same offset, in range for Merge. */
  lemma WordOfDistance(k: nat)
    requires 0 < k < W
    ensures 0 < k as Word < BytesLong && (k as Word) as int == k
  {
    if k == 1 {
    } else if k == 2 {
    } else if k == 3 {
    } else if k == 4 {
    } else if k == 5 {
    } else if k == 6 {
    }
  }

  // MergeBytes for each distance the shift path can have.

  lemma MergeBytes1(last: Word, next: Word)
    ensures StoreWord(Merge(last, next, 1)) == StoreWord(last)[1..] + StoreWord(next)[..1]
  {
  }

  lemma MergeBytes2(last: Word, next: Word)
    ensures StoreWord(Merge(last, next, 2)) == StoreWord(last)[2..] + StoreWord(next)[..2]
  {
  }

  lemma MergeBytes3(last: Word, next: Word)
    ensures StoreWord(Merge(last, next, 3)) == StoreWord(last)[3..] + StoreWord(next)[..3]
  {
  }

  lemma MergeBytes4(last: Word, next: Word)
    ensures StoreWord(Merge(last, next, 4)) == StoreWord(last)[4..] + StoreWord(next)[..4]
  {
  }

  lemma MergeBytes5(last: Word, next: Word)
    ensures StoreWord(Merge(last, next, 5)) == StoreWord(last)[5..] + StoreWord(next)[..5]
  {
  }

  lemma MergeBytes6(last: Word, next: Word)
    ensures StoreWord(Merge(last, next, 6)) == StoreWord(last)[6..] + StoreWord(next)[..6]
  {
  }

  lemma MergeBytes7(last: Word, next: Word)
    ensures StoreWord(Merge(last, next, 7)) == StoreWord(last)[7..] + StoreWord(next)[..7]
  {
  }
}
