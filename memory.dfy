/**
 * The address space `__memcpy` works on, the byte and word accesses it
 * makes, and what a copy must leave behind.
 *
 * Memory is one array of bytes indexed by address. Its length is a whole
 * number of words: readable memory comes in aligned words (pages, in the
 * kernel), which is what lets the shift path load the aligned words around
 * the first and last source bytes.
 */
module Memory {
  import opened Words

  /** The build-time choice CONFIG_HAVE_EFFICIENT_UNALIGNED_ACCESS. */
  datatype Config = Config(efficientUnaligned: bool)

  /** `addr` is on a word boundary: its bits under the word mask are clear. */
  predicate Aligned(addr: nat)
  {
    addr % W == 0
  }

  /**
   * A word access at `addr` is one the target handles well: any address when
   * unaligned access is efficient, a word-aligned one otherwise.
   */
  predicate WordAccessOk(cfg: Config, addr: nat)
  {
    cfg.efficientUnaligned || Aligned(addr)
  }

  /** The word at address `a` of `m` holds `v`. */
  predicate WordAt(v: Word, m: seq<bv8>, a: nat)
  {
    a + W <= |m| && Encodes(v, m[a..a + W])
  }

  /** A load of the `unsigned long` at address `addr`. */
  method LoadWordAt(mem: array<bv8>, addr: nat, cfg: Config) returns (v: Word)
    requires addr + W <= mem.Length
    requires WordAccessOk(cfg, addr)
    ensures WordAt(v, mem[..], addr)
  {
    v := LoadWord(mem[addr..addr + W]);
    EncodesLoad(mem[addr..addr + W]);
  }

  /** A store of the `unsigned long` `v` at address `addr`. */
  method StoreWordAt(mem: array<bv8>, addr: nat, v: Word, cfg: Config)
    requires addr + W <= mem.Length
    requires WordAccessOk(cfg, addr)
    modifies mem
    ensures mem[..] == old(mem[..])[..addr] + StoreWord(v) + old(mem[..])[addr + W..]
  {
    var b := StoreWord(v);
    forall k | 0 <= k < W {
      mem[addr + k] := b[k];
    }
    assert mem[..] == old(mem[..])[..addr] + b + old(mem[..])[addr + W..];
  }

  /**
   * Memory `m` after the `n` bytes at `s` have been copied to `d`: what any
   * memcpy must produce.
   */
  function Copied(m: seq<bv8>, d: nat, s: nat, n: nat): (r: seq<bv8>)
    requires d + n <= |m| && s + n <= |m|
    ensures |r| == |m|
  {
    seq(|m|, j requires 0 <= j < |m| => if d <= j < d + n then m[s + (j - d)] else m[j])
  }

  /**
   * Memory `m` after a loop that copies `n` bytes one at a time, forwards,
   * from `s` to `d`, each byte read from memory as it stands when that byte
   * is copied.
   */
  function ByteLoop(m: seq<bv8>, d: nat, s: nat, n: nat): (r: seq<bv8>)
    requires d + n <= |m| && s + n <= |m|
    ensures |r| == |m|
    decreases n
  {
    if n == 0 then m else ByteLoop(m[d := m[s]], d + 1, s + 1, n - 1)
  }

  /** Copying the first byte by hand and then the rest is the same copy. */
  lemma CopiedStep(m: seq<bv8>, d: nat, s: nat, n: nat)
    requires 0 < n && d + n <= |m| && s + n <= |m|
    requires d + n <= s || s + n <= d
    ensures Copied(m[d := m[s]], d + 1, s + 1, n - 1) == Copied(m, d, s, n)
  {
    var m' := m[d := m[s]];
    var r, c := Copied(m', d + 1, s + 1, n - 1), Copied(m, d, s, n);
    forall j | 0 <= j < |m|
      ensures r[j] == c[j]
    {
      if d < j < d + n {
        var i := s + (j - d);
        assert r[j] == m'[i] == m[i];
      }
    }
  }

  /** On regions that do not overlap the byte loop is a copy. */
  lemma {:induction false} ByteLoopIsCopy(m: seq<bv8>, d: nat, s: nat, n: nat)
    requires d + n <= |m| && s + n <= |m|
    requires d + n <= s || s + n <= d
    ensures ByteLoop(m, d, s, n) == Copied(m, d, s, n)
    decreases n
  {
    if n > 0 {
      ByteLoopIsCopy(m[d := m[s]], d + 1, s + 1, n - 1);
      CopiedStep(m, d, s, n);
    }
  }

  /** Bytes outside the destination are left as they were by a copy. */
  lemma CopiedOutside(m: seq<bv8>, d: nat, s: nat, n: nat, lo: nat, hi: nat)
    requires d + n <= |m| && s + n <= |m|
    requires lo <= hi <= |m|
    requires hi <= d || d + n <= lo
    ensures Copied(m, d, s, n)[lo..hi] == m[lo..hi]
  {
  }

  /**
   * A word loaded, during a copy, from outside the destination holds the
   * bytes memory held there before the copy.
   */
  lemma LoadedOutside(m: seq<bv8>, orig: seq<bv8>, d: nat, s: nat, n: nat, a: nat, v: Word)
    requires d + n <= |orig| && s + n <= |orig| && a + W <= |orig|
    requires m == Copied(orig, d, s, n)
    requires a + W <= d || d + n <= a
    requires WordAt(v, m, a)
    ensures WordAt(v, orig, a)
  {
    CopiedOutside(orig, d, s, n, a, a + W);
  }

  /**
   * Storing the next `W` source bytes after a copy of `n` bytes gives the
   * copy of `n + W` bytes: the step of every word-wise copy loop.
   */
  lemma CopiedWord(m: seq<bv8>, d: nat, s: nat, n: nat, bytes: seq<bv8>)
    requires d + n + W <= |m| && s + n + W <= |m|
    requires bytes == m[s + n..s + n + W]
    ensures Copied(m, d, s, n)[..d + n] + bytes + Copied(m, d, s, n)[d + n + W..]
         == Copied(m, d, s, n + W)
  {
    var c := Copied(m, d, s, n);
    var r := c[..d + n] + bytes + c[d + n + W..];
    forall j | 0 <= j < |m|
      ensures r[j] == Copied(m, d, s, n + W)[j]
    {
      if d + n <= j < d + n + W {
        assert r[j] == bytes[j - (d + n)];
      }
    }
  }

  /** A copy of no bytes leaves memory as it was. */
  lemma CopiedNothing(m: seq<bv8>, d: nat, s: nat)
    requires d <= |m| && s <= |m|
    ensures Copied(m, d, s, 0) == m
  {
  }

  /**
   * A copy of `n` more bytes, from `s2 = s + done` to `d2 = d + done`, after
   * a copy of `done` bytes from `s` to `d`, on regions that do not overlap,
   * is one copy of `total = done + n` bytes.
   */
  lemma CopiedThen(m: seq<bv8>, d: nat, s: nat, done: nat, d2: nat, s2: nat, n: nat, total: nat)
    requires d2 == d + done && s2 == s + done && total == done + n
    requires d + total <= |m| && s + total <= |m|
    requires d + total <= s || s + total <= d
    ensures Copied(Copied(m, d, s, done), d2, s2, n) == Copied(m, d, s, total)
  {
  }

  /**
   * Three copies over consecutive stretches of the same two regions, taking
   * each memory state to the next, make up one copy of all their bytes.
   */
  lemma CopiedInStages(m0: seq<bv8>, m1: seq<bv8>, m2: seq<bv8>, m3: seq<bv8>, d: nat, s: nat,
                       a: nat, d1: nat, s1: nat, b: nat, d2: nat, s2: nat, c: nat, total: nat)
    requires d1 == d + a && s1 == s + a && d2 == d1 + b && s2 == s1 + b && total == a + b + c
    requires d + total <= |m0| && s + total <= |m0|
    requires d + total <= s || s + total <= d
    requires m1 == Copied(m0, d, s, a)
    requires m2 == Copied(m1, d1, s1, b)
    requires m3 == Copied(m2, d2, s2, c)
    ensures m3 == Copied(m0, d, s, total)
  {
    CopiedThen(m0, d, s, a, d1, s1, b, a + b);
    CopiedThen(m0, d, s, a + b, d2, s2, c, total);
  }

  /** Word `i` of an array of words at `p` can be accessed whenever `p` can. */
  lemma IndexedAccessOk(cfg: Config, p: nat, i: nat)
    requires WordAccessOk(cfg, p)
    ensures WordAccessOk(cfg, p + i * W)
  {
    if !cfg.efficientUnaligned {
      assert (p + i * W) % W == p % W;
    }
  }

  /**
   * A load of word `i` of the word array at `p`, inside the source of a copy
   * in progress from `s` to `d` (`n` bytes done) and outside its destination:
   * the word holds what the source held before the copy began.
   */
  method LoadSourceWord(mem: array<bv8>, ghost orig: seq<bv8>, ghost d: nat, ghost s: nat,
                        ghost n: nat, p: nat, i: nat, cfg: Config) returns (v: Word)
    requires d + n <= |orig| && s + n <= |orig| && p + i * W + W <= |orig| && |orig| == mem.Length
    requires mem[..] == Copied(orig, d, s, n)
    requires p + i * W + W <= d || d + n <= p + i * W
    requires WordAccessOk(cfg, p)
    ensures WordAt(v, orig, p + i * W)
  {
    IndexedAccessOk(cfg, p, i);
    v := LoadWordAt(mem, p + i * W, cfg);
    LoadedOutside(mem[..], orig, d, s, n, p + i * W, v);
  }

  /**
   * A store of `v` into word `i` of the word array at `p`, where that word is
   * `n` bytes into a word-wise copy from `s` to `d` and `v` holds the `W`
   * bytes that were at `from`, the matching source address: the store
   * extends the copy by one word.
   */
  method StoreNextWord(mem: array<bv8>, ghost orig: seq<bv8>, ghost d: nat, ghost s: nat,
                       ghost n: nat, p: nat, i: nat, ghost from: nat, v: Word, cfg: Config)
    requires p + i * W == d + n && from == s + n
    requires d + n + W <= mem.Length && |orig| == mem.Length
    requires WordAt(v, orig, from)
    requires mem[..] == Copied(orig, d, s, n)
    requires WordAccessOk(cfg, p)
    modifies mem
    ensures mem[..] == Copied(orig, d, s, n + W)
  {
    IndexedAccessOk(cfg, p, i);
    EncodesStore(v, orig[from..from + W]);
    StoreWordAt(mem, p + i * W, v, cfg);
    CopiedWord(orig, d, s, n, StoreWord(v));
  }
}
