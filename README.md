# diskperf measurement routine in Dafny

diskperf measures how fast a file or block device can be read. It issues a
configurable number of reads of a fixed block size, either at pseudo-random
block-aligned offsets or sequentially from a random start, and prints a
throughput (sequential mode) or a mean latency per seek (random mode).

This project models the integer logic of `do_time_dev` in `diskperf.c`, in
one module `DiskPerf` (`diskperf.dfy`):

- **Target size.** `TargetSize` takes the answers of `open` and `stat`. For a
  block device it also takes the answer of `ioctl(BLKGETSIZE)`. All of these
  come in as one `Probe` value. The size is the sector count times 512 for a
  block device. For anything else (a regular file, a character device, a
  FIFO, a directory) it is `st_size`.
- **Checks.** `PrepareAsWritten` models the checks as the code has them: the
  target must open, the size must be known, `assert(size > 0)` must hold, and
  the target must not be smaller than one block. `Prepare` is the corrected
  check (see Findings).
- **Offsets.** `WrapSize` is `WRAP_SIZE` and `RandomOffset` is
  `RANDOM_OFFSET()`. `SeqPos` is the position of the sequential cursor after
  i steps. `ReadPos` is the offset that iteration i reads. It takes the
  stream of values `RANDOM_OFFSET()` wraps, called `draw`.
- **Read loop.** `ReadLoop` is the `for` loop, written as a `while` loop with
  invariants. It runs `nb_blocks` iterations and stops at the first failed
  seek, failed read or short read. It returns the completed count `b`, the
  offsets it sought to, the final cursor and how the last iteration ended.
- **Report count.** `ReportAsWritten` and `Report` give the integer the
  report is based on: bytes in sequential mode, seeks in random mode.
- **One target.** `DoTimeDevAsWritten` puts the pieces together for one
  target as the code has them. `DoTimeDev` does the same with the corrections
  of the Findings.

The operating system and the C library are inputs:

- `rand` is the stream of values `rand()` returns. Each value is at most
  `RandMax`, glibc's `RAND_MAX` of 2^31 - 1.
- In the code as written, each `RANDOM_OFFSET()` wraps one `rand()` value, so
  `draw` is `rand`. Draw 0 chooses the cursor's start. In random mode, draw
  i + 1 chooses the offset of iteration i.
- `io(i)` is what `lseek` and `read` answer in iteration i.

## Model

| member | source | states |
|---|---|---|
| `DiskPerf.TargetSize` | diskperf.c:66-89 | the size is unknown exactly when open or stat fails or, for a block device, the ioctl fails; the size of anything that is not a block device is st_size; a block device's size is a non-negative multiple of 512 whose quotient by 512 is the sector count |
| `DiskPerf.PrepareAsWritten` | diskperf.c:66-95 | as written: the open error exactly when open fails, the size-unknown error, the aborting assertion (size not positive), too small exactly when 0 < size < block size, ready exactly when the size is positive and at least one block, with that size |
| `DiskPerf.Prepare` | diskperf.c:66-95 | corrected: the open error exactly when open fails; ready exactly when 0 < block size < size; too small exactly when a positive size is at most one block; a zero block size is rejected |
| `DiskPerf.PrepareDiffersExactlyOnEdges` | diskperf.c:92 | the corrected check and the check as written disagree exactly when the size is positive and either the block size is 0 or the size equals the block size |
| `DiskPerf.AsWrittenAdmitsZeroModulus` | diskperf.c:92-99 | as written, a file of exactly one block is ready and the WRAP_SIZE modulus size - block_size is 0; the corrected check rejects it as too small |
| `DiskPerf.AsWrittenAdmitsZeroBlockSize` | diskperf.c:92-100 | as written, block size 0 passes the check for every non-empty file, which makes RANDOM_OFFSET divide by zero; the corrected check rejects it |
| `DiskPerf.WrapSize` | diskperf.c:99 | the wrapped offset lies in [0, size - block size), is at most its argument, and leaves offsets already in range unchanged |
| `DiskPerf.RandomOffset` | diskperf.c:100 | the offset is a multiple of the block size, lies in [0, size - block size) so the block read there ends before the end of the target, and is the block boundary at or just below the wrapped draw, so never more than the draw |
| `DiskPerf.RandomOffsetReachesEveryBlock` | diskperf.c:100 | a draw equal to a block-aligned offset of the range yields that offset |
| `DiskPerf.RandomOffsetReachable` | diskperf.c:99-100 | when every draw is at most a bound RAND_MAX, the offsets RANDOM_OFFSET can produce are exactly the block-aligned offsets of the range that are at most RAND_MAX (both directions) |
| `DiskPerf.LargeDeviceOffsetUnreachable` | diskperf.c:99-100 | on a 1 TiB device with 4096-byte blocks, no rand() value up to glibc's RAND_MAX yields the aligned, in-range offset 2^31 |
| `DiskPerf.Combine` | diskperf.c:100 | corrected: two rand() values are the two digits, in base RAND_MAX + 1, of the draw they form |
| `DiskPerf.WideDraw` | diskperf.c:99-100 | corrected: draw k is made of rand() calls 2k and 2k + 1; when the low call is within rand()'s range, they are exactly the high and low digits of the draw in base RAND_MAX + 1 |
| `DiskPerf.WideDraws` | diskperf.c:99-104 | corrected: the stream of draws the offsets are computed from, each made of two rand() calls as in WideDraw |
| `DiskPerf.WideOffsetReachesEveryBlock` | diskperf.c:99-100 | corrected: with draws made of two rand() values, every block-aligned offset of the range below 2^62 is produced by some pair of values each at most RAND_MAX |
| `DiskPerf.SeqPos` | diskperf.c:101-103 | the sequential cursor stays in [0, size - block size) after any number of steps |
| `DiskPerf.SeqPosClosedForm` | diskperf.c:101-103 | after i steps the cursor is (start + i * block size) mod (size - block size) |
| `DiskPerf.SeqPosAligned` | diskperf.c:103 | when size - block size and the start are multiples of the block size, the cursor stays block-aligned |
| `DiskPerf.SeqPosMayLoseAlignment` | diskperf.c:101-103 | otherwise it need not: 4096-byte blocks on a 12800-byte file bring the cursor to 3584 after three steps |
| `DiskPerf.ReadPos` | diskperf.c:101-104 | every offset read lies in [0, size - block size); in random mode it is also block-aligned and at most the draw it came from |
| `DiskPerf.StepOf` | diskperf.c:105-119 | an iteration completes exactly when the seek succeeds and read returns exactly block size bytes; a failed seek and a negative read result are told apart from a short read |
| `DiskPerf.CompletedPrefix` | diskperf.c:102-120 | the count is at most n, every iteration before it completed, and the iteration at the count, if there is one, did not |
| `DiskPerf.CompletedPrefixUnique` | diskperf.c:102-120 | any count with those two properties is the completed prefix |
| `DiskPerf.CompletedPrefixFull` | diskperf.c:102-120 | all n iterations complete exactly when every answer is a full read |
| `DiskPerf.ReadLoop` | diskperf.c:97-120 | b <= nb_blocks is the completed prefix; the iteration at b failed unless b == nb_blocks; the offsets sought are those of ReadPos, for the draws given, for iterations 0..b, including the aborting one; the cursor is not advanced by an aborting iteration |
| `DiskPerf.ReportAsWritten` | diskperf.c:127-138 | as written: sequential mode reports nb_blocks * block_size bytes whatever b is; random mode reports b seeks |
| `DiskPerf.Report` | diskperf.c:127-138 | corrected: sequential mode reports exactly b * block_size bytes; random mode reports b seeks |
| `DiskPerf.BytesRead` | diskperf.c:110 | the sum of the bytes the reads of the first n iterations returned, a failed seek or a negative result counting 0; every single read's result is at most that sum |
| `DiskPerf.BytesReadOfCompleted` | diskperf.c:110-119 | k completed iterations together read exactly k * block_size bytes |
| `DiskPerf.ReportCountsBytesRead` | diskperf.c:128 | the corrected sequential report counts exactly the bytes that the completed reads returned |
| `DiskPerf.ReportAsWrittenOverstates` | diskperf.c:128-136 | the two reports agree exactly in random mode or when no iteration failed; otherwise the report as written claims (nb_blocks - b) * block_size bytes too many |
| `DiskPerf.ShortReadHalfway` | diskperf.c:116-128 | with 1000 blocks of 4096 bytes and a short read at iteration 500, b is 500; the report as written claims 4096000 bytes and the corrected report 2048000 |
| `DiskPerf.DoTimeDevAsWritten` | diskperf.c:60-142 | as written: a target that fails the checks as written is rejected with that reason and never read; a ready target with block size 0 or size equal to the block size divides by zero; the outcome is Measured exactly when the target is ready and 0 < block size < size, never NoSamples, so zero completed iterations still give a report (Latency(0) in random mode); the loop runs with one rand() value per draw, every random-mode offset is at most RAND_MAX, and the report as written is computed from the completed count |
| `DiskPerf.DoTimeDev` | diskperf.c:60-142 | corrected: never divides by zero, neither in WRAP_SIZE/RANDOM_OFFSET nor in the report; a target that fails the corrected checks is rejected with that reason and never read; otherwise the loop runs with draws made of two rand() values each; NoSamples, with how the first iteration ended, exactly when no iteration completed (also when nb_blocks is 0); otherwise the corrected report is computed from its completed count, which is then positive |

## Findings

| source | as written | input that shows it | evidently intended | confidence | as-written member | corrected member |
|---|---|---|---|---|---|---|
| diskperf.c:92 | `size < block_size` rejects only targets smaller than a block | a 4096-byte file with the default 4096-byte blocks: the check passes, `size - block_size` is 0 and `WRAP_SIZE` at line 101 divides by zero | reject `size <= block_size`, so the offset range is non-empty | high; not executed | `PrepareAsWritten`, `AsWrittenAdmitsZeroModulus` | `Prepare`, `PrepareDiffersExactlyOnEdges` |
| diskperf.c:92 | nothing rejects a block size of 0 | `-s 0` on any non-empty file: the check passes and `RANDOM_OFFSET` at line 101 divides by `block_size` == 0 | reject a zero block size | medium; not executed | `PrepareAsWritten`, `AsWrittenAdmitsZeroBlockSize` | `Prepare`, `PrepareDiffersExactlyOnEdges` |
| diskperf.c:99-100 | each `RANDOM_OFFSET()` wraps a single `rand()` value, which is at most `RAND_MAX` | a 1 TiB device with 4096-byte blocks on glibc (`RAND_MAX` = 2^31 - 1): the aligned offset 2^31 is never chosen, and only the first 2 GiB are sampled; the sequential start is confined the same way | offsets spread over the whole range `[0, size - block_size)` | high; not executed | `RandomOffsetReachable`, `LargeDeviceOffsetUnreachable`, `DoTimeDevAsWritten` | `Combine`, `WideOffsetReachesEveryBlock`, `DoTimeDev` |
| diskperf.c:128 | the sequential byte count is `nb_blocks * block_size` | 1000 blocks of 4096 bytes with a short read at iteration 500: 4096000 bytes are reported, but only 2048000 bytes were in completed reads | `b * block_size`, the bytes of the completed reads | high; not executed | `ReportAsWritten`, `ShortReadHalfway`, `ReportAsWrittenOverstates` | `Report`, `ReportCountsBytesRead` |

`DoTimeDevAsWritten` follows the code. `DoTimeDev` uses the corrected
`Prepare`, `WideDraws` and `Report`. The corrected draw is made of two
`rand()` values: `rand()` calls 2k and 2k + 1 give draw k.

Other points where the code is read as written:

- An empty regular file fails `assert(size > 0)`. This is `AssertionAborts`.
  In a build with assertions enabled (without `NDEBUG`), it aborts the whole
  process. The file is not rejected as too small.
- The offset range is `[0, size - block_size)`. The offset `size -
  block_size` itself is never chosen, so when the size is a multiple of the
  block size, the last block is never read.
- Random mode divides the elapsed time by `b` also when `b` is 0. In floating
  point this gives an infinite or undefined number; no error is reported.
  `DoTimeDevAsWritten` then gives `Latency(0)`. The corrected `DoTimeDev`
  gives `NoSamples` instead, in both modes, whenever no iteration completed.

## Left out

- Dropping caches (`do_drop_caches`, the `system("sysctl ...")` call): a shell-out with no logic.
- `open`: only whether it fails is modelled, as the `Probe` value `OpenFailed`, which gives `OpenError`. The `O_NOATIME` flag is not modelled.
- `posix_fadvise` and `close`: the code discards their results with `(void)`, so they are not modelled.
- `stat`, `ioctl`, `lseek` and `read`: only their results are modelled, as the `Probe` and the per-iteration answers `io`.
- The messages written to standard error: `ReadLoop` returns how the last iteration ended in their place.
- `gettimeofday`, the elapsed time and the floating-point throughput and latency, and their `printf` formatting: wall-clock time and floating point. Only the integer count the report is computed from is modelled.
- `srand` and `rand`: the generator is a stream of naturals given as a parameter, bounded by glibc's `RAND_MAX`. Other C libraries may have a smaller `RAND_MAX`; the C standard only guarantees at least 32767. `RandomOffsetReachable` takes the bound as a parameter, so it covers them too. Each target's stream starts at its own first call; the single process-wide stream shared across targets is not modelled.
- `main`: option parsing with `getopt_long`, conversion with `strtoull`, the usage text and the exit codes. Looping over the targets is also part of `main` and is left out.
- Machine widths are left out. Sizes and counts are naturals. The model does not capture the truncation of `strtoull`'s result to the 32-bit `nb_blocks`, an overflow of `dev_blk_sz * 512` or of `nb_blocks * block_size`, or the conversions between signed `off_t` and unsigned `size_t`.
- The answer of the system in iteration i does not depend on the offset read: any single run is still described by some `io`.
- The read buffer `char buf[block_size]` at diskperf.c:62 is a stack array of variable length. With block size 0 its length is zero, which is undefined in C before any check runs. A block size beyond the stack limit (such as 16 MiB with an 8 MiB stack) crashes the process before `open`. The model has no stack, so for such block sizes it gives `Ready` or `Measured` where the process crashes.
- A build with `NDEBUG` is not modelled. There `assert(size > 0)` does nothing, so a target of size 0 reaches the check at line 92. It is then too small, or, with block size 0, ready with a zero modulus. The model always treats the assertion as aborting (`AssertionAborts`).
