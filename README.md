# RISC-V `memcpy` of the Linux kernel, modelled in Dafny

This project models the kernel's `memcpy` for 64-bit RISC-V
(`arch/riscv/lib/string.c`). The model covers:

- `__memcpy`;
- the word copier `__memcpy_aligned`, which moves eight words per round;
- the aliases `memcpy`, `__pi_memcpy` and `__pi___memcpy`.

`__memcpy` copies blocks shorter than two words byte by byte. Longer blocks
go through up to three stages:

1. Unless the target handles misaligned word accesses efficiently
   (`CONFIG_HAVE_EFFICIENT_UNALIGNED_ACCESS`), a byte loop brings the
   destination to a word boundary.
2. If the source is then `distance` bytes off a word boundary, the shift path
   reads aligned source words only. It stores each destination word as the
   shift/OR of two consecutive source words. Otherwise `__memcpy_aligned`
   copies the largest multiple of 64 bytes.
3. A final byte loop copies what is left.

Memory is one array of bytes indexed by address. A word is a `bv64`, stored
least significant byte first. The build option is a `Config` parameter, so
both builds are verified.

For every source and destination range that lies inside memory, when the
two ranges do not overlap and memory is a whole number of 8-byte words
(`mem.Length % 8 == 0`), the model proves that:

- `__memcpy` leaves memory exactly as the naive forward byte loop would;
- it returns `dest`;
- when unaligned access is not efficient, every word load and store is at a
  word-aligned address;
- the shift/OR of two aligned words is the misaligned word between them;
- the sizes of the head, word and tail stages are the ones `PlanOf`
  computes from `dest`, `src`, `count` and the build option.

Files:

- `words.dfy` (module `Words`): word size, thresholds, little-endian
  loads and stores, and the shift/OR merge.
- `memory.dfy` (module `Memory`):
  - the byte array;
  - word accesses and when they are allowed;
  - the specification `Copied`, the byte loop `ByteLoop`, and the lemmas that
    compose copies.
- `riscv_string.dfy` (module `RiscvString`): the stages of `__memcpy`,
  `__memcpy_aligned`, `__memcpy` itself and its aliases.

## Model

| member | source | states |
|---|---|---|
| Words.LoadWord | arch/riscv/lib/string.c:34-41 | the `unsigned long` load: the word whose little-endian bytes are the eight given bytes; its meaning is stated by LoadStore, StoreLoad and EncodesLoad |
| Words.StoreWord | arch/riscv/lib/string.c:42-49 | the `unsigned long` store: the eight little-endian bytes of a word; its contract gives their number, and LoadStore and StoreLoad make it the inverse of LoadWord |
| Words.LoadStore | arch/riscv/lib/string.c:17-28 | For every word, loading the eight bytes that storing it writes gives back the same word. |
| Words.StoreLoad | arch/riscv/lib/string.c:17-28 | storing a loaded word gives back the bytes it was loaded from |
| Words.EncodesStore | arch/riscv/lib/string.c:17-28 | "memory holds the bytes of `v`" is the same as "a store of `v` wrote them", in both directions |
| Words.EncodesLoad | arch/riscv/lib/string.c:83-86 | a word load returns the word its eight bytes encode |
| Words.Merge | arch/riscv/lib/string.c:88-89 | the word the shift path stores, computed with the same shifts and OR; its meaning is stated by MergeBytes and MergeIsMisalignedLoad |
| Words.MergeBytes | arch/riscv/lib/string.c:88-89 | for every distance 1..7, the stored word is the top `8 - distance` bytes of `last` followed by the low `distance` bytes of `next` |
| Words.MergeIsMisalignedLoad | arch/riscv/lib/string.c:75-89 | the shift/OR of two consecutive aligned words equals the word loaded `distance` bytes into the first, as the comment before the loop promises |
| Words.MergeSlices | arch/riscv/lib/string.c:84-89 | merging a word that ends at a word boundary with the word after it gives the eight bytes that start `distance` bytes before that boundary |
| Memory.LoadWordAt | arch/riscv/lib/string.c:83 | a word load at `addr` returns the word held by the bytes at `addr`; with slow unaligned access, `addr` must be word aligned |
| Memory.StoreWordAt | arch/riscv/lib/string.c:88-89 | a word store replaces exactly the eight bytes at `addr` and leaves every other byte alone |
| Memory.Config | arch/riscv/lib/string.c:64 | the build option `CONFIG_HAVE_EFFICIENT_UNALIGNED_ACCESS`, as a value taken by every word access and every stage that makes word accesses; the byte loops take none |
| Memory.ByteLoop | arch/riscv/lib/string.c:110-112 | the reference forward byte loop, each byte read after the earlier ones are written; its contract states only that memory keeps its size, and ByteLoopIsCopy ties it to Copied |
| Memory.ByteLoopIsCopy | arch/riscv/lib/string.c:110-112 | on regions that do not overlap, the byte-at-a-time loop produces exactly the copy `Copied` |
| Memory.CopiedOutside | arch/riscv/lib/string.c:83-86 | a copy leaves every byte outside the destination as it was |
| Memory.LoadedOutside | arch/riscv/lib/string.c:83-86 | a word loaded during a copy from outside the destination holds what was there before the copy |
| Memory.CopiedWord | arch/riscv/lib/string.c:42-49 | storing the next eight source bytes at the next destination word extends a copy of `n` bytes to `n + 8` |
| Memory.CopiedThen | arch/riscv/lib/string.c:104-112 | copying `n` more bytes after `done` bytes, with both pointers advanced by `done`, is one copy of `done + n` bytes |
| Memory.CopiedInStages | arch/riscv/lib/string.c:64-112 | the head, word and tail copies, each continuing where the last stopped, make up one copy of all `count` bytes |
| Memory.LoadSourceWord | arch/riscv/lib/string.c:34-41 | word `i` of the source, loaded while the copy is in progress, holds the original source bytes; the access is aligned when it has to be |
| Memory.StoreNextWord | arch/riscv/lib/string.c:42-49 | storing the word that holds the next source bytes at the next destination word extends the copy by one word |
| RiscvString.AlignGap | arch/riscv/lib/string.c:66 | the aligner copies fewer than 8 bytes, ends on a word boundary and passes no boundary before it |
| RiscvString.AlignedCount | arch/riscv/lib/string.c:102 | `aligned_count` is a multiple of 64, not above `count`, and less than 64 below it |
| RiscvString.PlanOf | arch/riscv/lib/string.c:59-108 | the head, word-stage and tail sizes add up to `count`; short copies are byte-only; the shift path is taken iff `distance != 0`, only without efficient unaligned access, and leaves a tail below 8; the aligned path copies a multiple of 64 and leaves a tail below 64 |
| RiscvString.WordsThenRest | arch/riscv/lib/string.c:84 | the shift loop stops with `count % 8` bytes left |
| RiscvString.CopyRemainder | arch/riscv/lib/string.c:110-112 | the final loop leaves memory as the byte-at-a-time loop over `count` bytes does |
| RiscvString.AlignDestination | arch/riscv/lib/string.c:64-67 | the aligner copies `AlignGap(d)` bytes, one at a time, leaves `d` word aligned and more than a word still to copy |
| RiscvString.ShiftedCopy | arch/riscv/lib/string.c:72-96 | the shift path copies the largest whole number of words from the misaligned source, leaves `count % 8` bytes, and restores `s` to the byte after the last one copied |
| RiscvString.ShiftedRound | arch/riscv/lib/string.c:84-93 | one round stores the next source word at the next aligned destination word. It loads only aligned source words, keeps the loop invariant, and carries the word the next round needs |
| RiscvString.RoundWords | arch/riscv/lib/string.c:83-89 | in a round, the merge of `last` and `next` is the eight source bytes at `sw + distance`; when another round follows, `next` is still untouched source |
| RiscvString.LoadGroup | arch/riscv/lib/string.c:33-41 | the eight registers receive the eight next source words as they were before the copy |
| RiscvString.StoreGroup | arch/riscv/lib/string.c:42-49 | storing the eight registers extends the copy by 64 bytes |
| RiscvString.GroupStep | arch/riscv/lib/string.c:32 | a positive multiple of 64 stays a multiple of 64 after one round |
| RiscvString.MemcpyAligned | arch/riscv/lib/string.c:30-53 | `__memcpy_aligned` on a multiple of 64 bytes is a copy of exactly those bytes |
| RiscvString.CopyHead | arch/riscv/lib/string.c:64-70 | with slow unaligned access, the head stage copies `AlignGap(dest)` bytes and sets `distance` to the source's offset from a word boundary; otherwise it copies nothing and `distance` is 0 |
| RiscvString.CopyWords | arch/riscv/lib/string.c:72-108 | the word stage copies `bulk` bytes: whole words leaving `count % 8` on the shift path, `aligned_count` leaving `count % 64` on the aligned path |
| RiscvString.StagesFollowPlan | arch/riscv/lib/string.c:59-108 | the stage sizes the head, word and tail stages report are the ones `PlanOf` computes |
| RiscvString.Memcpy | arch/riscv/lib/string.c:55-115 | `__memcpy` returns `dest` and leaves memory as `Copied` and the byte-at-a-time loop do; the stage sizes it used are `PlanOf`'s |
| RiscvString.PublicMemcpy | arch/riscv/lib/string.c:118 | `memcpy` behaves as `__memcpy`: returns `dest` and copies the `count` bytes |
| RiscvString.PiMemcpy | arch/riscv/lib/string.c:120 | `__pi_memcpy` behaves as `__memcpy` |
| RiscvString.PiUnderscoreMemcpy | arch/riscv/lib/string.c:121 | `__pi___memcpy` behaves as `__memcpy` |

## Left out

- `drivers/pwm/pwm-thead.c` is not part of this model; it does not take part in copying memory.
- Overlapping source and destination: `memcpy` requires the caller to pass regions that do not overlap. `Memcpy`, its aliases, `CopyHead`, `CopyWords`, `ShiftedCopy`, `ShiftedRound` and `MemcpyAligned` require that too, and `LoadGroup` requires it for the 64 bytes it loads. The byte loops `CopyRemainder` and `AlignDestination` are stated with `ByteLoop`, which is defined for overlapping regions as well, and the stores `StoreNextWord` and `StoreGroup` are stated against the memory before the copy began, so these need no such condition.
- Concurrency: another hart or a device writing to either region during the copy is not modelled.
- The `register` storage class and the compiler's scheduling of the eight loads before the eight stores: the model keeps the order (all loads, then all stores) but nothing about registers.
- `EXPORT_SYMBOL`, the weak and strong aliasing and the linkage of the aliases: each alias is a method that calls `Memcpy`.
- 32-bit RISC-V: the word size is fixed at 8 bytes (RV64).
- Bit masks (`& WORD_MASK`, the 64-byte mask and its complement) are written as `%` and subtraction on natural numbers. They agree because the sizes are powers of two.
- `size_t` wrap-around: `count--` in the final loop leaves `count` at its maximum value after the last test. Nothing reads it afterwards, so counts are unbounded naturals in the model.
- Speed: the cost of a misaligned access is not modelled. The model only records which accesses are allowed to be misaligned.
- The memory around the copy: the shift path reads whole aligned words, including up to 7 bytes before the source and after its end. The model assumes memory is a whole number of aligned words (`mem.Length % 8 == 0`), which makes those reads stay in memory; faults from reading outside mapped memory are not modelled.
- `CONFIG_HAVE_EFFICIENT_UNALIGNED_ACCESS` is a run-time `Config` parameter instead of a build-time constant.
- Pointers are natural-number addresses into one byte array, so the C unions that reinterpret them are not modelled as such.
- The round of `__memcpy_aligned` is split into two methods, `LoadGroup` and `StoreGroup`, along its eight loads and eight stores.
