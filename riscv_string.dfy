/**
 * `__memcpy` of arch/riscv/lib/string.c and the word copier
 * `__memcpy_aligned` it calls, for RV64.
 *
 * `__memcpy` copies short blocks byte by byte. Longer ones go in up to
 * three stages before a byte-wise tail:
 *  - unless the target handles unaligned word accesses efficiently, a
 *    byte loop first brings the destination to a word boundary;
 *  - if the source is then misaligned by `distance` bytes, the shift path
 *    reads aligned source words and stores each destination word as the
 *    shift/OR of two consecutive ones;
 *  - otherwise `__memcpy_aligned` moves groups of eight words.
 */
module RiscvString {
  import opened Words
  import opened Memory

  /**
   * How many bytes the aligner copies: the distance from `addr` to the
   * first word boundary at or after it.
   */
  function AlignGap(addr: nat): (n: nat)
    ensures n < W && Aligned(addr + n)
    ensures forall a :: addr <= a < addr + n ==> !Aligned(a)
  {
    if Aligned(addr) then 0 else W - addr % W
  }

  /**
   * `aligned_count`: `count` with the bits below the size of a group of
   * eight words cleared, i.e. the largest multiple of that size not above
   * `count`.
   */
  function AlignedCount(count: nat): (r: nat)
    ensures r % GroupBytes == 0 && r <= count && count - r < GroupBytes
  {
    count - count % GroupBytes
  }

  /** The way `__memcpy` moves the bytes that precede the byte-wise tail. */
  datatype Path =
    | BytesOnly  // count < MIN_THRESHOLD: everything goes to copy_remainder
    | Shifted    // distance != 0: shift/OR of aligned source words
    | Straight   // distance == 0: __memcpy_aligned

  /**
   * How `__memcpy` splits a copy: `head` bytes copied by the aligner,
   * `bulk` bytes by the word stage of `path`, `tail` bytes by the final
   * byte loop; `distance` is the source misalignment after the aligner.
   */
  datatype Plan = Plan(path: Path, head: nat, distance: nat, bulk: nat, tail: nat)

  /** The decisions `__memcpy` takes for a copy of `count` bytes from `src` to `dest`. */
  function PlanOf(cfg: Config, dest: nat, src: nat, count: nat): (p: Plan)
    ensures p.head + p.bulk + p.tail == count
    ensures p.path == BytesOnly <==> count < MinThreshold
    ensures p.path == BytesOnly ==> p.head == 0 && p.bulk == 0
    ensures p.path != BytesOnly ==>
              && p.head < W
              && (cfg.efficientUnaligned ==> p.head == 0)
              && (!cfg.efficientUnaligned ==> Aligned(dest + p.head))
    ensures p.path == Shifted <==> p.distance != 0
    ensures p.path == Shifted ==>
              && !cfg.efficientUnaligned
              && p.distance == (src + p.head) % W
              && p.bulk % W == 0 && p.tail < W
    ensures p.path == Straight ==>
              && (!cfg.efficientUnaligned ==> Aligned(src + p.head))
              && p.bulk % GroupBytes == 0 && p.tail < GroupBytes
  {
    if count < MinThreshold then
      Plan(BytesOnly, 0, 0, 0, count)
    else
      var head := if cfg.efficientUnaligned then 0 else AlignGap(dest);
      var distance := if cfg.efficientUnaligned then 0 else (src + head) % W;
      var rest := count - head;
      if distance != 0 then
        Plan(Shifted, head, distance, rest - rest % W, rest % W)
      else
        Plan(Straight, head, 0, AlignedCount(rest), rest % GroupBytes)
  }

  /** Two word-aligned addresses that differ are at least a word apart. */
  lemma AlignedApart(a: nat, b: nat)
    requires Aligned(a) && Aligned(b) && a < b
    ensures a + W <= b
  {
  }

  /**
   * Copying whole words from aligned `a` up to aligned `b` leaves less than
   * a word of a count that ends at `b + rest`: what is left is the count
   * modulo the word size.
   */
  lemma WordsThenRest(a: nat, b: nat, count: nat, rest: nat)
    requires Aligned(a) && Aligned(b) && a <= b && b + rest == a + count && rest < W
    ensures rest == count % W
  {
  }

  /** The address one word past an aligned one is aligned. */
  lemma AlignedPlusWord(a: nat)
    requires Aligned(a)
    ensures Aligned(a + W)
  {
  }

  /**
   * `copy_remainder`: the final byte loop, which copies the `count` bytes
   * still left one at a time, forwards.
   */
  method CopyRemainder(mem: array<bv8>, d: nat, s: nat, count: nat)
    requires d + count <= mem.Length && s + count <= mem.Length
    modifies mem
    ensures mem[..] == ByteLoop(old(mem[..]), d, s, count)
  {
    var d', s', c := d, s, count;
    while c > 0
      invariant d' + c == d + count && s' + c == s + count
      invariant ByteLoop(mem[..], d', s', c) == ByteLoop(old(mem[..]), d, s, count)
      decreases c
    {
      ghost var before := mem[..];
      mem[d'] := mem[s'];
      assert mem[..] == before[d' := before[s']];
      d', s', c := d' + 1, s' + 1, c - 1;
    }
  }

  /**
   * The aligner: copies single bytes, counting them off `count`, until the
   * destination pointer is on a word boundary.
   */
  method AlignDestination(mem: array<bv8>, d: nat, s: nat, count: nat)
      returns (d': nat, s': nat, count': nat)
    requires count >= MinThreshold
    requires d + count <= mem.Length && s + count <= mem.Length
    modifies mem
    ensures d' == d + AlignGap(d) && s' == s + AlignGap(d) && count' == count - AlignGap(d)
    ensures Aligned(d') && count' > W
    ensures mem[..] == ByteLoop(old(mem[..]), d, s, AlignGap(d))
  {
    var gap := AlignGap(d);
    d', s', count' := d, s, count;
    while !Aligned(d')
      invariant d <= d' <= d + gap && s' - s == d' - d && count' == count - (d' - d)
      invariant ByteLoop(mem[..], d', s', gap - (d' - d)) == ByteLoop(old(mem[..]), d, s, gap)
      decreases gap - (d' - d)
    {
      ghost var before := mem[..];
      mem[d'] := mem[s'];
      assert mem[..] == before[d' := before[s']];
      d', s', count' := d' + 1, s' + 1, count' - 1;
    }
  }

  /**
   * The shift path of `__memcpy`: `d` is word-aligned and `s` is
   * `distance` bytes past a word boundary. Copies the largest whole number
   * of words, reading only aligned source words.
   */
  method ShiftedCopy(mem: array<bv8>, d: nat, s: nat, count: nat, distance: nat, cfg: Config)
      returns (d': nat, s': nat, count': nat)
    requires mem.Length % W == 0
    requires d + count <= mem.Length && s + count <= mem.Length
    requires d + count <= s || s + count <= d
    requires Aligned(d) && 0 < distance < W && s % W == distance && W <= count
    modifies mem
    ensures count' == count % W
    ensures d' == d + (count - count') && s' == s + (count - count')
    ensures mem[..] == Copied(old(mem[..]), d, s, count - count')
  {
    ghost var orig := mem[..];
    var sw: nat := s - distance;
    AlignedApart(sw, mem.Length);
    var next := LoadWordAt(mem, sw, cfg);
    d', count' := d, count;
    ghost var done: nat := 0;
    while count' >= W
      invariant Aligned(d') && Aligned(sw)
      invariant count' <= count && done == count - count'
      invariant d' == d + done && sw + distance == s + done
      invariant mem[..] == Copied(orig, d, s, done)
      invariant count' >= W ==> WordAt(next, orig, sw)
      decreases count'
    {
      d', sw, count', next := ShiftedRound(mem, orig, d, s, count, done, d', sw, count', distance, next, cfg);
      done := done + W;
    }
    WordsThenRest(d, d', count, count');
    s' := sw + distance;
  }

  /**
   * One round of the shifted loop, `done` bytes into the copy, with `rest`
   * bytes left: `next` holds the source word at `sw`; the round loads the
   * word after it, stores at `dp` the word that starts `distance` bytes into
   * the first, and moves both pointers on by a word. It returns the word it
   * loaded, whose upper bytes the following round needs when there is one.
   */
  method ShiftedRound(mem: array<bv8>, ghost orig: seq<bv8>, ghost d: nat, ghost s: nat,
                      ghost count: nat, ghost done: nat, dp: nat, sw: nat, rest: nat,
                      distance: nat, next: Word, cfg: Config)
      returns (dp': nat, sw': nat, rest': nat, next': Word)
    requires mem.Length % W == 0
    requires d + count <= mem.Length && s + count <= mem.Length
    requires d + count <= s || s + count <= d
    requires 0 < distance < W && W <= rest
    requires Aligned(dp) && Aligned(sw)
    requires rest <= count && done == count - rest
    requires dp == d + done && sw + distance == s + done
    requires |orig| == mem.Length && mem[..] == Copied(orig, d, s, done)
    requires WordAt(next, orig, sw)
    modifies mem
    ensures Aligned(dp') && Aligned(sw')
    ensures rest' <= count && done + W == count - rest'
    ensures dp' == d + (done + W) && sw' + distance == s + (done + W)
    ensures mem[..] == Copied(orig, d, s, done + W)
    ensures rest' >= W ==> WordAt(next', orig, sw')
    ensures rest' < rest
  {
    var last := next;
    AlignedPlusWord(sw);
    AlignedApart(sw + W, mem.Length);
    next' := LoadWordAt(mem, sw + W, cfg);
    RoundWords(mem[..], orig, d, s, done, sw, distance, last, next', rest - W >= W);
    var word := Merge(last, next', distance as Word);
    StoreNextWord(mem, orig, d, s, done, dp, 0, sw + distance, word, cfg);
    AlignedPlusWord(dp);
    dp', sw', rest' := dp + W, sw + W, rest - W;
  }

  /**
   * The two words of a round of the shifted loop, `last` at `sw` and `next`
   * after it (loaded now): merging them gives the source word at
   * `sw + distance`, and when another round follows, all of `next` lies in
   * the untouched source.
   */
  lemma RoundWords(m: seq<bv8>, orig: seq<bv8>, d: nat, s: nat, done: nat, sw: nat,
                   distance: nat, last: Word, next: Word, more: bool)
    requires |m| == |orig| && sw + 2 * W <= |m| && 0 < distance < W
    requires d + done + W <= |m| && s + done + W <= |m|
    requires sw + distance == s + done
    requires d + done + W <= s || s + done + W + (if more then W else 0) <= d
    requires m == Copied(orig, d, s, done)
    requires WordAt(last, orig, sw)
    requires WordAt(next, m, sw + W)
    ensures 0 < distance as Word < BytesLong
    ensures WordAt(Merge(last, next, distance as Word), orig, sw + distance)
    ensures more ==> WordAt(next, orig, sw + W)
  {
    EncodesStore(last, orig[sw..sw + W]);
    EncodesStore(next, m[sw + W..sw + 2 * W]);
    CopiedOutside(orig, d, s, done, sw + W, sw + W + distance);
    assert StoreWord(next)[..distance] == m[sw + W..sw + W + distance];
    MergeSlices(last, next, distance, orig, sw);
    EncodesStore(Merge(last, next, distance as Word), orig[sw + distance..sw + distance + W]);
    if more {
      LoadedOutside(m, orig, d, s, done, sw + W, next);
    }
  }

  /**
   * The first half of a round of `__memcpy_aligned`, `done` bytes into the
   * copy: the eight source words go into the registers `d0` to `d7`, which
   * receive them as they were before the copy began.
   */
  method LoadGroup(mem: array<bv8>, ghost orig: seq<bv8>, ghost dest: nat, ghost src: nat,
                   ghost done: nat, s: nat, cfg: Config)
      returns (d0: Word, d1: Word, d2: Word, d3: Word, d4: Word, d5: Word, d6: Word, d7: Word)
    requires s == src + done && |orig| == mem.Length
    requires dest + done <= mem.Length && src + done + GroupBytes <= mem.Length
    requires dest + done + GroupBytes <= src || src + done + GroupBytes <= dest
    requires WordAccessOk(cfg, s)
    requires mem[..] == Copied(orig, dest, src, done)
    ensures WordAt(d0, orig, s)
    ensures WordAt(d1, orig, s + W)
    ensures WordAt(d2, orig, s + 2 * W)
    ensures WordAt(d3, orig, s + 3 * W)
    ensures WordAt(d4, orig, s + 4 * W)
    ensures WordAt(d5, orig, s + 5 * W)
    ensures WordAt(d6, orig, s + 6 * W)
    ensures WordAt(d7, orig, s + 7 * W)
  {
    d0 := LoadSourceWord(mem, orig, dest, src, done, s, 0, cfg);
    d1 := LoadSourceWord(mem, orig, dest, src, done, s, 1, cfg);
    d2 := LoadSourceWord(mem, orig, dest, src, done, s, 2, cfg);
    d3 := LoadSourceWord(mem, orig, dest, src, done, s, 3, cfg);
    d4 := LoadSourceWord(mem, orig, dest, src, done, s, 4, cfg);
    d5 := LoadSourceWord(mem, orig, dest, src, done, s, 5, cfg);
    d6 := LoadSourceWord(mem, orig, dest, src, done, s, 6, cfg);
    d7 := LoadSourceWord(mem, orig, dest, src, done, s, 7, cfg);
  }

  /**
   * The second half of a round of `__memcpy_aligned`: the registers `d0` to
   * `d7`, holding the next eight source words, go to the eight destination
   * words in order.
   */
  method StoreGroup(mem: array<bv8>, ghost orig: seq<bv8>, ghost dest: nat, ghost src: nat,
                    ghost done: nat, d: nat, ghost s: nat,
                    d0: Word, d1: Word, d2: Word, d3: Word, d4: Word, d5: Word, d6: Word, d7: Word,
                    cfg: Config)
    requires d == dest + done && s == src + done && |orig| == mem.Length
    requires dest + done + GroupBytes <= mem.Length && src + done + GroupBytes <= mem.Length
    requires WordAccessOk(cfg, d)
    requires mem[..] == Copied(orig, dest, src, done)
    requires WordAt(d0, orig, s)
    requires WordAt(d1, orig, s + W)
    requires WordAt(d2, orig, s + 2 * W)
    requires WordAt(d3, orig, s + 3 * W)
    requires WordAt(d4, orig, s + 4 * W)
    requires WordAt(d5, orig, s + 5 * W)
    requires WordAt(d6, orig, s + 6 * W)
    requires WordAt(d7, orig, s + 7 * W)
    modifies mem
    ensures mem[..] == Copied(orig, dest, src, done + GroupBytes)
  {
    ghost var n: nat := done;
    StoreNextWord(mem, orig, dest, src, n, d, 0, s, d0, cfg);
    n := n + W;
    StoreNextWord(mem, orig, dest, src, n, d, 1, s + W, d1, cfg);
    n := n + W;
    StoreNextWord(mem, orig, dest, src, n, d, 2, s + 2 * W, d2, cfg);
    n := n + W;
    StoreNextWord(mem, orig, dest, src, n, d, 3, s + 3 * W, d3, cfg);
    n := n + W;
    StoreNextWord(mem, orig, dest, src, n, d, 4, s + 4 * W, d4, cfg);
    n := n + W;
    StoreNextWord(mem, orig, dest, src, n, d, 5, s + 5 * W, d5, cfg);
    n := n + W;
    StoreNextWord(mem, orig, dest, src, n, d, 6, s + 6 * W, d6, cfg);
    n := n + W;
    StoreNextWord(mem, orig, dest, src, n, d, 7, s + 7 * W, d7, cfg);
    n := n + W;
  }

  /** A positive multiple of the group size leaves a multiple after one group. */
  lemma GroupStep(c: nat)
    requires c % GroupBytes == 0 && c > 0
    ensures GroupBytes <= c && (c - GroupBytes) % GroupBytes == 0
  {
  }

  /** Word access stays allowed one group further on. */
  lemma GroupAccessOk(cfg: Config, p: nat)
    requires WordAccessOk(cfg, p)
    ensures WordAccessOk(cfg, p + GroupBytes)
  {
    IndexedAccessOk(cfg, p, 8);
  }

  /** `__memcpy_aligned`: eight words loaded, then eight stored, per round. */
  method MemcpyAligned(mem: array<bv8>, dest: nat, src: nat, count: nat, cfg: Config)
    requires count % GroupBytes == 0
    requires dest + count <= mem.Length && src + count <= mem.Length
    requires dest + count <= src || src + count <= dest
    requires WordAccessOk(cfg, dest) && WordAccessOk(cfg, src)
    modifies mem
    ensures mem[..] == Copied(old(mem[..]), dest, src, count)
  {
    ghost var orig := mem[..];
    var d: nat, s: nat, c: nat := dest, src, count;
    while c > 0
      invariant c <= count && d + c == dest + count && s + c == src + count && c % GroupBytes == 0
      invariant WordAccessOk(cfg, d) && WordAccessOk(cfg, s)
      invariant mem[..] == Copied(orig, dest, src, d - dest)
      decreases c
    {
      GroupStep(c);
      GroupAccessOk(cfg, d);
      GroupAccessOk(cfg, s);
      var d0, d1, d2, d3, d4, d5, d6, d7 := LoadGroup(mem, orig, dest, src, d - dest, s, cfg);
      StoreGroup(mem, orig, dest, src, d - dest, d, s, d0, d1, d2, d3, d4, d5, d6, d7, cfg);
      d, s, c := d + GroupBytes, s + GroupBytes, c - GroupBytes;
    }
  }

  /**
   * The word stage of `__memcpy`, once the destination is word-aligned (or
   * the target handles unaligned accesses): the shift path when the source
   * is `distance` bytes off a word boundary, `__memcpy_aligned` on the
   * largest multiple of eight words otherwise. It copies `bulk` bytes and
   * leaves fewer than a word, or fewer than eight words, to the byte loop.
   */
  method CopyWords(mem: array<bv8>, d: nat, s: nat, count: nat, distance: nat, cfg: Config)
      returns (d': nat, s': nat, count': nat, ghost bulk: nat)
    requires mem.Length % W == 0
    requires d + count <= mem.Length && s + count <= mem.Length
    requires d + count <= s || s + count <= d
    requires W < count
    requires cfg.efficientUnaligned ==> distance == 0
    requires !cfg.efficientUnaligned ==> Aligned(d) && distance == s % W
    modifies mem
    ensures d' == d + bulk && s' == s + bulk && count' == count - bulk
    ensures distance != 0 ==> count' == count % W
    ensures distance == 0 ==> bulk == AlignedCount(count) && count' == count % GroupBytes
    ensures mem[..] == Copied(old(mem[..]), d, s, bulk)
  {
    if distance != 0 {
      d', s', count' := ShiftedCopy(mem, d, s, count, distance, cfg);
      bulk := count - count';
    } else {
      var alignedCount := AlignedCount(count);
      MemcpyAligned(mem, d, s, alignedCount, cfg);
      bulk := alignedCount;
      d', s', count' := d + alignedCount, s + alignedCount, count % GroupBytes;
    }
  }

  /**
   * The head stage of `__memcpy` for a copy long enough to use words: on a
   * machine without fast misaligned access, byte copies until `dest` is
   * word aligned and then measures how far `src` is off alignment; with fast
   * misaligned access, nothing is copied and the distance is zero.
   */
  method CopyHead(mem: array<bv8>, dest: nat, src: nat, count: nat, cfg: Config)
      returns (d: nat, s: nat, c: nat, distance: nat)
    requires MinThreshold <= count
    requires dest + count <= mem.Length && src + count <= mem.Length
    requires dest + count <= src || src + count <= dest
    modifies mem
    ensures d - dest == s - src == count - c
    ensures d == dest + (if cfg.efficientUnaligned then 0 else AlignGap(dest))
    ensures W < c
    ensures cfg.efficientUnaligned ==> distance == 0
    ensures !cfg.efficientUnaligned ==> Aligned(d) && distance == s % W
    ensures mem[..] == Copied(old(mem[..]), dest, src, d - dest)
  {
    ghost var orig := mem[..];
    if !cfg.efficientUnaligned {
      d, s, c := AlignDestination(mem, dest, src, count);
      ByteLoopIsCopy(orig, dest, src, AlignGap(dest));
      distance := s % W;
    } else {
      d, s, c, distance := dest, src, count, 0;
      CopiedNothing(orig, dest, src);
    }
  }

  /**
   * The stage sizes of a word-stage copy, as the head, word and tail stages
   * report them, are the ones `PlanOf` predicts.
   */
  lemma StagesFollowPlan(cfg: Config, dest: nat, src: nat, count: nat,
                         head: nat, from: nat, rest: nat, distance: nat, bulk: nat, tail: nat)
    requires MinThreshold <= count
    requires head == (if cfg.efficientUnaligned then 0 else AlignGap(dest))
    requires from == src + head && rest == count - head
    requires cfg.efficientUnaligned ==> distance == 0
    requires !cfg.efficientUnaligned ==> distance == from % W
    requires bulk + tail == rest
    requires distance != 0 ==> tail == rest % W
    requires distance == 0 ==> bulk == AlignedCount(rest)
    ensures Plan(if distance != 0 then Shifted else Straight, head, distance, bulk, tail)
            == PlanOf(cfg, dest, src, count)
  {
  }

  /**
   * `__memcpy`: copies `count` bytes from `src` to `dest` and returns
   * `dest`. The result is what the naive byte loop produces, and `plan`,
   * built from the sizes each stage actually copied, is the one `PlanOf`
   * predicts.
   */
  method Memcpy(mem: array<bv8>, dest: nat, src: nat, count: nat, cfg: Config)
      returns (r: nat, ghost plan: Plan)
    requires mem.Length % W == 0
    requires dest + count <= mem.Length && src + count <= mem.Length
    requires dest + count <= src || src + count <= dest
    modifies mem
    ensures r == dest
    ensures plan == PlanOf(cfg, dest, src, count)
    ensures mem[..] == Copied(old(mem[..]), dest, src, count)
    ensures mem[..] == ByteLoop(old(mem[..]), dest, src, count)
  {
    ghost var orig := mem[..];
    ByteLoopIsCopy(orig, dest, src, count);
    r := dest;
    if count < MinThreshold {
      CopyRemainder(mem, dest, src, count);
      plan := Plan(BytesOnly, 0, 0, 0, count);
      return;
    }
    var d, s, c, distance := CopyHead(mem, dest, src, count, cfg);
    ghost var head, afterHead := d - dest, mem[..];
    ghost var d1, s1, c1 := d, s, c;
    ghost var bulk: nat;
    d, s, c, bulk := CopyWords(mem, d, s, c, distance, cfg);
    StagesFollowPlan(cfg, dest, src, count, head, s1, c1, distance, bulk, c);
    ghost var afterBulk := mem[..];
    CopyRemainder(mem, d, s, c);
    ByteLoopIsCopy(afterBulk, d, s, c);
    CopiedInStages(orig, afterHead, afterBulk, mem[..], dest, src, head, d1, s1, bulk, d, s, c, count);
    plan := Plan(if distance != 0 then Shifted else Straight, head, distance, bulk, c);
  }

  /** `memcpy`: a weak alias of `__memcpy`. */
  method PublicMemcpy(mem: array<bv8>, dest: nat, src: nat, count: nat, cfg: Config)
      returns (r: nat)
    requires mem.Length % W == 0
    requires dest + count <= mem.Length && src + count <= mem.Length
    requires dest + count <= src || src + count <= dest
    modifies mem
    ensures r == dest
    ensures mem[..] == Copied(old(mem[..]), dest, src, count)
  {
    ghost var plan: Plan;
    r, plan := Memcpy(mem, dest, src, count, cfg);
  }

  /** `__pi_memcpy`: an alias of `__memcpy` for position-independent code. */
  method PiMemcpy(mem: array<bv8>, dest: nat, src: nat, count: nat, cfg: Config)
      returns (r: nat)
    requires mem.Length % W == 0
    requires dest + count <= mem.Length && src + count <= mem.Length
    requires dest + count <= src || src + count <= dest
    modifies mem
    ensures r == dest
    ensures mem[..] == Copied(old(mem[..]), dest, src, count)
  {
    ghost var plan: Plan;
    r, plan := Memcpy(mem, dest, src, count, cfg);
  }

  /** `__pi___memcpy`: an alias of `__memcpy` for position-independent code. */
  method PiUnderscoreMemcpy(mem: array<bv8>, dest: nat, src: nat, count: nat, cfg: Config)
      returns (r: nat)
    requires mem.Length % W == 0
    requires dest + count <= mem.Length && src + count <= mem.Length
    requires dest + count <= src || src + count <= dest
    modifies mem
    ensures r == dest
    ensures mem[..] == Copied(old(mem[..]), dest, src, count)
  {
    ghost var plan: Plan;
    r, plan := Memcpy(mem, dest, src, count, cfg);
  }
}
