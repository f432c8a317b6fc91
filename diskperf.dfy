/** A model of the measurement routine of diskperf (do_time_dev in diskperf.c):
    how the size of the target is found and checked, how read offsets are
    computed, how the timed read loop runs and stops, and which integer count
    the report is based on.  System calls, timing and floating point are
    abstracted away: the answers of open/stat/ioctl are a Probe, the values of
    rand() are a stream `rand` (the k-th call returns rand(k), never more than
    RandMax), and the answer of lseek/read in iteration i is io(i). */
module DiskPerf {

  datatype Option<T> = None | Some(value: T)

  /** RAND_MAX of glibc: rand() returns a value in [0, RandMax]. */
  const RandMax: nat := 0x7fff_ffff

  /** Size of one sector as counted by ioctl(BLKGETSIZE). */
  const SectorSize: nat := 512

  /** The options of main that do_time_dev uses for its arithmetic. */
  datatype Config = Config(blockSize: nat, nbBlocks: nat, sequential: bool)

  /** What open() and stat() and, for a block device, ioctl(BLKGETSIZE) report. */
  datatype Probe =
    | OpenFailed
    | StatFailed
    | OtherFile(stSize: int)             // anything that is not a block device
    | BlockDevice(sectors: Option<nat>)  // None: the ioctl failed

  /** How preparing a target ends: an error before the timed section, or ready with its size. */
  datatype Setup =
    | OpenError                 // open failed
    | SizeUnknown               // stat or ioctl failed
    | AssertionAborts(badSize: int)  // assert(size > 0) stops the process
    | ZeroBlockSize             // only the corrected check reports this
    | TooSmall(size: nat)
    | Ready(size: nat)

  /** The answer of the system to one iteration: lseek failed, or read returned `ret`. */
  datatype Attempt = SeekFailed | ReadReturned(ret: int)

  /** How one iteration ends. */
  datatype Step = Completed | SeekError | ReadError | ShortRead(ret: int)

  /** The integer quantity a report is computed from. */
  datatype Metric = Throughput(bytes: nat) | Latency(seeks: nat)

  datatype DevOutcome =
    | Rejected(setup: Setup)
    | DividesByZero             // the code as written divides by zero in RANDOM_OFFSET
    | NoSamples(last: Step)     // only the corrected routine: no iteration completed
    | Measured(completed: nat, positions: seq<nat>, cursor: nat, last: Step, metric: Metric)

  // ---------------------------------------------------------------------
  // Size of the target and the too-small check
  // ---------------------------------------------------------------------

  /** The size in bytes: the sector count times 512 for a block device, st_size otherwise. */
  function TargetSize(p: Probe): (r: Option<int>)
    ensures r.None? <==> p.OpenFailed? || p.StatFailed? || (p.BlockDevice? && p.sectors.None?)
    ensures p.OtherFile? ==> r == Some(p.stSize)
    ensures p.BlockDevice? && r.Some? ==> r.value >= 0 && r.value % SectorSize == 0
    ensures p.BlockDevice? && r.Some? ==> r.value / SectorSize == p.sectors.value
  {
    match p
    case OpenFailed => None
    case StatFailed => None
    case OtherFile(n) => Some(n)
    case BlockDevice(s) => if s.None? then None else Some(s.value * SectorSize)
  }

  /** The checks of do_time_dev as written: the size must be known, positive
      (an assertion) and not smaller than one block. */
  function PrepareAsWritten(p: Probe, bs: nat): (r: Setup)
    ensures r.OpenError? <==> p.OpenFailed?
    ensures r.SizeUnknown? <==> !p.OpenFailed? && TargetSize(p).None?
    ensures r.AssertionAborts? <==> TargetSize(p).Some? && TargetSize(p).value <= 0
    ensures r.TooSmall? <==> TargetSize(p).Some? && 0 < TargetSize(p).value < bs
    ensures r.Ready? <==> TargetSize(p).Some? && 0 < TargetSize(p).value && bs <= TargetSize(p).value
    ensures r.Ready? ==> Some(r.size as int) == TargetSize(p)
    ensures !r.ZeroBlockSize?
  {
    if p.OpenFailed? then OpenError else
    match TargetSize(p)
    case None => SizeUnknown
    case Some(size) =>
      if size <= 0 then AssertionAborts(size)
      else if size < bs then TooSmall(size)
      else Ready(size)
  }

  /** The corrected checks: a target is ready only when the offset range
      size - block size is non-empty and the block size is not zero, which is
      what WrapSize and RandomOffset need. */
  function Prepare(p: Probe, bs: nat): (r: Setup)
    ensures r.Ready? <==> TargetSize(p).Some? && 0 < bs < TargetSize(p).value
    ensures r.Ready? ==> Some(r.size as int) == TargetSize(p) && 0 < bs < r.size
    ensures r.TooSmall? <==> bs > 0 && TargetSize(p).Some? && 0 < TargetSize(p).value <= bs
    ensures r.ZeroBlockSize? <==> bs == 0 && TargetSize(p).Some? && TargetSize(p).value > 0
    ensures r.OpenError? <==> p.OpenFailed?
  {
    if p.OpenFailed? then OpenError else
    match TargetSize(p)
    case None => SizeUnknown
    case Some(size) =>
      if size <= 0 then AssertionAborts(size)
      else if bs == 0 then ZeroBlockSize
      else if size <= bs then TooSmall(size)
      else Ready(size)
  }

  /** The corrected check differs from the one as written exactly on a zero
      block size and on a target of exactly one block. */
  lemma PrepareDiffersExactlyOnEdges(p: Probe, bs: nat)
    ensures Prepare(p, bs) != PrepareAsWritten(p, bs)
        <==> TargetSize(p).Some? && TargetSize(p).value > 0 && (bs == 0 || TargetSize(p).value == bs)
  {
  }

  /** As written, a file of exactly one block passes the check, and the
      modulus size - block_size used by WRAP_SIZE is then zero. */
  lemma AsWrittenAdmitsZeroModulus(bs: nat)
    requires bs > 0
    ensures PrepareAsWritten(OtherFile(bs), bs) == Ready(bs)
    ensures PrepareAsWritten(OtherFile(bs), bs).size - bs == 0
    ensures Prepare(OtherFile(bs), bs) == TooSmall(bs)
  {
  }

  /** As written, a block size of zero passes the check for any non-empty
      target, and RANDOM_OFFSET then divides by zero. */
  lemma AsWrittenAdmitsZeroBlockSize(size: nat)
    requires size > 0
    ensures PrepareAsWritten(OtherFile(size), 0) == Ready(size)
    ensures Prepare(OtherFile(size), 0) == ZeroBlockSize
  {
  }

  // ---------------------------------------------------------------------
  // Offsets: WRAP_SIZE, RANDOM_OFFSET and the sequential cursor
  // ---------------------------------------------------------------------

  /** WRAP_SIZE(o): brings o into the offset range [0, size - bs). */
  function WrapSize(o: nat, size: nat, bs: nat): (r: nat)
    requires bs < size
    ensures r < size - bs
    ensures r <= o
    ensures o < size - bs ==> r == o
  {
    o % (size - bs)
  }

  /** RANDOM_OFFSET(): the wrapped draw rounded down to a block boundary. */
  function RandomOffset(draw: nat, size: nat, bs: nat): (r: nat)
    requires 0 < bs < size
    ensures r % bs == 0
    ensures r < size - bs && r + bs < size
    ensures r <= WrapSize(draw, size, bs) < r + bs
    ensures r <= draw
  {
    var w := WrapSize(draw, size, bs);
    FloorToBlock(w, bs);
    (w / bs) * bs
  }

  lemma FloorToBlock(w: nat, bs: nat)
    requires bs > 0
    ensures (w / bs) * bs % bs == 0
    ensures (w / bs) * bs <= w < (w / bs) * bs + bs
  {
    var q := w / bs;
    assert w == q * bs + w % bs;
    MultipleMod(q, bs);
  }

  lemma {:induction false} MultipleMod(q: nat, m: nat)
    requires m > 0
    ensures q * m % m == 0
  {
    if q > 0 {
      MultipleMod(q - 1, m);
      assert q * m == (q - 1) * m + m;
      ModPlusDivisor((q - 1) * m, m);
    }
  }

  lemma ModPlusDivisor(x: nat, m: nat)
    requires m > 0
    ensures (x + m) % m == x % m
  {
    var q, r := x / m, x % m;
    assert x + m == (q + 1) * m + r;
    ModUnique(x + m, q + 1, r, m);
  }

  /** Euclidean division has only one quotient and remainder. */
  lemma ModUnique(x: int, q: int, r: int, m: int)
    requires m > 0 && 0 <= r < m && x == q * m + r
    ensures x % m == r && x / m == q
  {
    var q', r' := x / m, x % m;
    assert (q - q') * m == r' - r;
    MulBetween(q - q', m);
  }

  /** The only multiple of m strictly between -m and m is zero. */
  lemma MulBetween(k: int, m: int)
    requires m > 0 && -m < k * m < m
    ensures k == 0
  {
  }

  /** A draw equal to a block-aligned offset of the range yields that offset. */
  lemma RandomOffsetReachesEveryBlock(o: nat, size: nat, bs: nat)
    requires 0 < bs < size && o < size - bs && o % bs == 0
    ensures RandomOffset(o, size, bs) == o
  {
  }

  /** With draws bounded by randMax, RANDOM_OFFSET produces exactly the
      block-aligned offsets of the range that are at most randMax. */
  lemma RandomOffsetReachable(o: nat, size: nat, bs: nat, randMax: nat)
    requires 0 < bs < size
    ensures (exists d: nat :: d <= randMax && RandomOffset(d, size, bs) == o)
        <==> o % bs == 0 && o < size - bs && o <= randMax
  {
    if o % bs == 0 && o < size - bs && o <= randMax {
      RandomOffsetReachesEveryBlock(o, size, bs);
    }
  }

  /** On a 1 TiB device with 4096-byte blocks, the aligned offset 2 GiB is
      never chosen by a single rand() value. */
  lemma LargeDeviceOffsetUnreachable()
    ensures !exists d: nat :: d <= RandMax && RandomOffset(d, 0x100_0000_0000, 4096) == 0x8000_0000
  {
    RandomOffsetReachable(0x8000_0000, 0x100_0000_0000, 4096, RandMax);
  }

  /** Two rand() values read as the digits of one number in base RandMax + 1. */
  function Combine(hi: nat, lo: nat): (d: nat)
    requires lo <= RandMax
    ensures d / (RandMax + 1) == hi && d % (RandMax + 1) == lo
  {
    var d := hi * (RandMax + 1) + lo;
    ModUnique(d, hi, lo, RandMax + 1);
    d
  }

  /** Corrected draw: the k-th offset draw takes calls 2k and 2k + 1 of rand(),
      which reaches every value below (RandMax + 1)^2 = 2^62. The low call is
      reduced modulo RandMax + 1 only so that the draw is defined for every
      stream; for a stream within rand()'s range the reduction changes nothing
      and the two calls are exactly the draw's digits. The high digit needs no
      bound: a larger one only makes a larger draw, which RANDOM_OFFSET wraps. */
  function WideDraw(rand: nat -> nat, k: nat): (d: nat)
    ensures rand(2 * k + 1) <= RandMax ==>
              d / (RandMax + 1) == rand(2 * k) && d % (RandMax + 1) == rand(2 * k + 1)
  {
    Combine(rand(2 * k), rand(2 * k + 1) % (RandMax + 1))
  }

  /** The stream of corrected draws. */
  function WideDraws(rand: nat -> nat): (draw: nat -> nat)
    ensures forall k: nat :: rand(2 * k + 1) <= RandMax ==>
              draw(k) / (RandMax + 1) == rand(2 * k) && draw(k) % (RandMax + 1) == rand(2 * k + 1)
  {
    (k: nat) => WideDraw(rand, k)
  }

  /** Every block-aligned offset of the range below 2^62 is produced by two
      values that rand() can return. */
  lemma WideOffsetReachesEveryBlock(o: nat, size: nat, bs: nat)
    requires 0 < bs < size && o < size - bs && o % bs == 0
    requires o < (RandMax + 1) * (RandMax + 1)
    ensures exists hi: nat, lo: nat :: hi <= RandMax && lo <= RandMax && RandomOffset(Combine(hi, lo), size, bs) == o
  {
    var hi, lo := o / (RandMax + 1), o % (RandMax + 1);
    ModUnique(o, hi, lo, RandMax + 1);
    assert Combine(hi, lo) == o;
    RandomOffsetReachesEveryBlock(o, size, bs);
  }

  /** The position of the sequential cursor after i advances from `start`. */
  function SeqPos(i: nat, start: nat, size: nat, bs: nat): (r: nat)
    requires bs < size && start < size - bs
    ensures r < size - bs
  {
    if i == 0 then start else WrapSize(SeqPos(i - 1, start, size, bs) + bs, size, bs)
  }

  /** The cursor moves forward by exactly one block per step, modulo size - bs. */
  lemma {:induction false} SeqPosClosedForm(i: nat, start: nat, size: nat, bs: nat)
    requires bs < size && start < size - bs
    ensures SeqPos(i, start, size, bs) == (start + i * bs) % (size - bs)
  {
    var m := size - bs;
    if i == 0 {
      ModUnique(start, 0, start, m);
    } else {
      SeqPosClosedForm(i - 1, start, size, bs);
      var x := start + (i - 1) * bs;
      assert start + i * bs == x + bs;
      ModOfSum(x, bs, m);
    }
  }

  lemma ModOfSum(x: nat, c: nat, m: nat)
    requires m > 0
    ensures (x % m + c) % m == (x + c) % m
  {
    var q := x / m;
    var y := x % m + c;
    var q2, r2 := y / m, y % m;
    assert x + c == (q + q2) * m + r2;
    ModUnique(x + c, q + q2, r2, m);
  }

  /** When the range is a whole number of blocks, an aligned cursor stays aligned. */
  lemma SeqPosAligned(i: nat, start: nat, size: nat, bs: nat)
    requires 0 < bs < size && start < size - bs
    requires start % bs == 0 && (size - bs) % bs == 0
    ensures SeqPos(i, start, size, bs) % bs == 0
  {
    SeqPosClosedForm(i, start, size, bs);
    AlignedStepsMod(start, i, bs, size - bs);
  }

  lemma AlignedStepsMod(start: nat, i: nat, b: nat, m: nat)
    requires b > 0 && m > 0 && start % b == 0 && m % b == 0
    ensures (start + i * b) % m % b == 0
  {
    var x, n := start / b + i, m / b;
    FactorSteps(start, i, b);
    ExactQuotient(m, b);
    ScaledModAligned(x, n, b);
  }

  lemma FactorSteps(start: nat, i: nat, b: nat)
    requires b > 0 && start % b == 0
    ensures start + i * b == (start / b + i) * b
  {
  }

  lemma ExactQuotient(m: nat, b: nat)
    requires b > 0 && m > 0 && m % b == 0
    ensures m == (m / b) * b && m / b > 0
  {
  }

  lemma ScaledModAligned(x: nat, n: nat, b: nat)
    requires n > 0 && b > 0
    ensures (x * b) % (n * b) % b == 0
  {
    ModScaled(x, n, b);
    MultipleMod(x % n, b);
  }

  /** Scaling both operands of % scales the remainder. */
  lemma ModScaled(x: nat, n: nat, b: nat)
    requires n > 0 && b > 0
    ensures (x * b) % (n * b) == (x % n) * b
  {
    var q, r := x / n, x % n;
    assert x * b == q * (n * b) + r * b;
    MulStrict(r, n, b);
    ModUnique(x * b, q, r * b, n * b);
  }

  lemma MulStrict(r: nat, n: nat, b: nat)
    requires r < n && b > 0
    ensures r * b < n * b
  {
  }

  /** When size - bs is not a whole number of blocks, the cursor leaves block
      boundaries: 4096-byte blocks on a 12800-byte file reach offset 3584. */
  lemma SeqPosMayLoseAlignment()
    ensures SeqPos(3, 0, 12800, 4096) == 3584 && 3584 % 4096 != 0
  {
  }

  /** The offset read in iteration i: the cursor in sequential mode, a fresh
      RANDOM_OFFSET() of draw i + 1 in random mode. Draw 0 chose the cursor's
      start. draw(k) is the value the k-th RANDOM_OFFSET() wraps: in the code
      as written, the k-th result of rand(). */
  function ReadPos(sequential: bool, draw: nat -> nat, i: nat, size: nat, bs: nat): (r: nat)
    requires 0 < bs < size
    ensures r < size - bs && r + bs < size
    ensures !sequential ==> r % bs == 0 && r <= draw(i + 1)
  {
    if sequential then SeqPos(i, RandomOffset(draw(0), size, bs), size, bs)
    else RandomOffset(draw(i + 1), size, bs)
  }

  // ---------------------------------------------------------------------
  // The read loop
  // ---------------------------------------------------------------------

  /** How an iteration ends given the answer of lseek and read. */
  function StepOf(a: Attempt, bs: nat): (s: Step)
    ensures s.Completed? <==> a == ReadReturned(bs)
    ensures s == SeekError <==> a.SeekFailed?
    ensures s == ReadError <==> a.ReadReturned? && a.ret < 0
  {
    match a
    case SeekFailed => SeekError
    case ReadReturned(ret) =>
      if ret < 0 then ReadError
      else if ret != bs then ShortRead(ret)
      else Completed
  }

  /** The number of leading iterations among the first n that complete. */
  function CompletedPrefix(io: nat -> Attempt, bs: nat, n: nat): (k: nat)
    ensures k <= n
    ensures forall i :: 0 <= i < k ==> StepOf(io(i), bs).Completed?
    ensures k < n ==> !StepOf(io(k), bs).Completed?
  {
    if n == 0 then 0
    else
      var k := CompletedPrefix(io, bs, n - 1);
      if k == n - 1 && StepOf(io(n - 1), bs).Completed? then n else k
  }

  /** CompletedPrefix is the only count with its two properties. */
  lemma CompletedPrefixUnique(io: nat -> Attempt, bs: nat, n: nat, k: nat)
    requires k <= n
    requires forall i :: 0 <= i < k ==> StepOf(io(i), bs).Completed?
    requires k < n ==> !StepOf(io(k), bs).Completed?
    ensures CompletedPrefix(io, bs, n) == k
  {
  }

  /** All n iterations complete exactly when no iteration fails. */
  lemma CompletedPrefixFull(io: nat -> Attempt, bs: nat, n: nat)
    ensures CompletedPrefix(io, bs, n) == n <==> forall i :: 0 <= i < n ==> io(i) == ReadReturned(bs)
  {
  }

  /** The loop of do_time_dev: `nbBlocks` iterations, each seeking and reading
      one block, stopping at the first failed seek, failed read or short read.
      Offsets come from `draw` as in ReadPos.
      It returns the completed count b, the offsets of the iterations it
      started, the final cursor and how the last iteration ended. */
  method ReadLoop(size: nat, cfg: Config, draw: nat -> nat, io: nat -> Attempt)
    returns (b: nat, positions: seq<nat>, cursor: nat, last: Step)
    requires 0 < cfg.blockSize < size
    ensures b == CompletedPrefix(io, cfg.blockSize, cfg.nbBlocks)
    ensures b <= cfg.nbBlocks
    ensures forall i :: 0 <= i < b ==> io(i) == ReadReturned(cfg.blockSize)
    ensures last == if b < cfg.nbBlocks then StepOf(io(b), cfg.blockSize) else Completed
    ensures last.Completed? <==> b == cfg.nbBlocks
    ensures |positions| == if b < cfg.nbBlocks then b + 1 else b
    ensures forall i :: 0 <= i < |positions| ==>
              positions[i] == ReadPos(cfg.sequential, draw, i, size, cfg.blockSize)
    ensures cursor == SeqPos(b, RandomOffset(draw(0), size, cfg.blockSize), size, cfg.blockSize)
  {
    var bs := cfg.blockSize;
    var start := RandomOffset(draw(0), size, bs);
    var seqPos := start;
    b := 0;
    positions := [];
    last := Completed;
    while b < cfg.nbBlocks
      invariant b <= cfg.nbBlocks
      invariant forall i :: 0 <= i < b ==> StepOf(io(i), bs).Completed?
      invariant |positions| == b
      invariant forall i :: 0 <= i < b ==> positions[i] == ReadPos(cfg.sequential, draw, i, size, bs)
      invariant seqPos == SeqPos(b, start, size, bs)
    {
      var pos := if cfg.sequential then seqPos else RandomOffset(draw(b + 1), size, bs);
      positions := positions + [pos];
      match io(b) {
        case SeekFailed =>
          last := SeekError;
          break;
        case ReadReturned(ret) =>
          if ret < 0 {
            last := ReadError;
            break;
          }
          if ret != bs {
            last := ShortRead(ret);
            break;
          }
      }
      b := b + 1;
      seqPos := WrapSize(seqPos + bs, size, bs);
    }
    cursor := seqPos;
    CompletedPrefixUnique(io, bs, cfg.nbBlocks, b);
  }

  // ---------------------------------------------------------------------
  // The count the report is based on
  // ---------------------------------------------------------------------

  /** As written: sequential mode reports nb_blocks * block_size bytes,
      random mode reports b seeks. */
  function ReportAsWritten(cfg: Config, b: nat): (r: Metric)
    ensures r.Throughput? <==> cfg.sequential
    ensures r.Throughput? ==> r.bytes == cfg.nbBlocks * cfg.blockSize
    ensures r.Latency? ==> r.seeks == b
  {
    if cfg.sequential then Throughput(cfg.nbBlocks * cfg.blockSize) else Latency(b)
  }

  /** Corrected: the bytes reported in sequential mode are those of the b completed reads. */
  function Report(cfg: Config, b: nat): (r: Metric)
    ensures r.Throughput? <==> cfg.sequential
    ensures r.Throughput? ==> r.bytes == b * cfg.blockSize
    ensures r.Latency? ==> r.seeks == b
  {
    if cfg.sequential then Throughput(b * cfg.blockSize) else Latency(b)
  }

  /** The bytes the first n iterations' reads returned. */
  function BytesRead(io: nat -> Attempt, n: nat): (r: nat)
    ensures forall i :: 0 <= i < n && io(i).ReadReturned? ==> io(i).ret <= r
  {
    if n == 0 then 0
    else BytesRead(io, n - 1) + (match io(n - 1) case ReadReturned(ret) => if ret > 0 then ret else 0 case SeekFailed => 0)
  }

  /** Each completed iteration read one whole block. */
  lemma {:induction false} BytesReadOfCompleted(io: nat -> Attempt, bs: nat, k: nat)
    requires forall i :: 0 <= i < k ==> StepOf(io(i), bs).Completed?
    ensures BytesRead(io, k) == k * bs
  {
    if k > 0 {
      BytesReadOfCompleted(io, bs, k - 1);
      assert io(k - 1) == ReadReturned(bs);
      assert k * bs == (k - 1) * bs + bs;
    }
  }

  /** The corrected sequential report counts exactly the bytes of the completed reads. */
  lemma ReportCountsBytesRead(cfg: Config, io: nat -> Attempt)
    requires cfg.sequential
    ensures Report(cfg, CompletedPrefix(io, cfg.blockSize, cfg.nbBlocks)).bytes
         == BytesRead(io, CompletedPrefix(io, cfg.blockSize, cfg.nbBlocks))
  {
    BytesReadOfCompleted(io, cfg.blockSize, CompletedPrefix(io, cfg.blockSize, cfg.nbBlocks));
  }

  /** As written, an aborted sequential run reports more bytes than it read;
      both reports agree exactly when the run was not cut short or is in random mode. */
  lemma ReportAsWrittenOverstates(cfg: Config, b: nat)
    requires b <= cfg.nbBlocks && cfg.blockSize > 0
    ensures ReportAsWritten(cfg, b) == Report(cfg, b) <==> !cfg.sequential || b == cfg.nbBlocks
    ensures cfg.sequential ==>
              ReportAsWritten(cfg, b).bytes == Report(cfg, b).bytes + (cfg.nbBlocks - b) * cfg.blockSize
  {
  }

  /** A short read at iteration 500 of 1000 leaves 500 completed reads; the
      report as written still claims 1000 blocks. */
  lemma ShortReadHalfway()
    ensures var io := (i: nat) => if i == 500 then ReadReturned(100) else ReadReturned(4096);
            var cfg := Config(4096, 1000, true);
            CompletedPrefix(io, 4096, 1000) == 500
            && ReportAsWritten(cfg, 500) == Throughput(4096000)
            && Report(cfg, 500) == Throughput(2048000)
  {
    var io := (i: nat) => if i == 500 then ReadReturned(100) else ReadReturned(4096);
    CompletedPrefixUnique(io, 4096, 1000, 500);
  }

  // ---------------------------------------------------------------------
  // One target
  // ---------------------------------------------------------------------

  /** do_time_dev as written: the checks as written, a division by zero in
      RANDOM_OFFSET when the offset range is empty or the block size is zero,
      offsets from single rand() values, and the report as written. */
  method DoTimeDevAsWritten(p: Probe, cfg: Config, rand: nat -> nat, io: nat -> Attempt) returns (outcome: DevOutcome)
    requires forall k :: rand(k) <= RandMax
    ensures !outcome.NoSamples?
    ensures outcome.Rejected? <==> !PrepareAsWritten(p, cfg.blockSize).Ready?
    ensures outcome.Rejected? ==> outcome.setup == PrepareAsWritten(p, cfg.blockSize)
    ensures outcome.DividesByZero? <==>
              PrepareAsWritten(p, cfg.blockSize).Ready?
              && (cfg.blockSize == 0 || PrepareAsWritten(p, cfg.blockSize).size == cfg.blockSize)
    ensures outcome.Measured? <==>
              PrepareAsWritten(p, cfg.blockSize).Ready? && 0 < cfg.blockSize < PrepareAsWritten(p, cfg.blockSize).size
    ensures outcome.Measured? ==>
              var size := PrepareAsWritten(p, cfg.blockSize).size;
              && 0 < cfg.blockSize < size
              && outcome.completed == CompletedPrefix(io, cfg.blockSize, cfg.nbBlocks)
              && (outcome.last.Completed? <==> outcome.completed == cfg.nbBlocks)
              && |outcome.positions| == (if outcome.completed < cfg.nbBlocks then outcome.completed + 1 else outcome.completed)
              && (forall i :: 0 <= i < |outcome.positions| ==>
                    outcome.positions[i] == ReadPos(cfg.sequential, rand, i, size, cfg.blockSize))
              && (!cfg.sequential ==> forall i :: 0 <= i < |outcome.positions| ==> outcome.positions[i] <= RandMax)
              && outcome.cursor == SeqPos(outcome.completed, RandomOffset(rand(0), size, cfg.blockSize), size, cfg.blockSize)
              && outcome.metric == ReportAsWritten(cfg, outcome.completed)
  {
    var setup := PrepareAsWritten(p, cfg.blockSize);
    if !setup.Ready? {
      return Rejected(setup);
    }
    if cfg.blockSize == 0 || setup.size == cfg.blockSize {
      return DividesByZero;
    }
    var b, positions, cursor, last := ReadLoop(setup.size, cfg, rand, io);
    outcome := Measured(b, positions, cursor, last, ReportAsWritten(cfg, b));
  }

  /** do_time_dev with the corrected checks, draws and report: a rejected
      target is never read; a ready one runs the loop with offsets drawn from
      two rand() values each; when no iteration completed it reports
      NoSamples, otherwise a metric from its completed count. */
  method DoTimeDev(p: Probe, cfg: Config, rand: nat -> nat, io: nat -> Attempt) returns (outcome: DevOutcome)
    requires forall k :: rand(k) <= RandMax
    ensures !outcome.DividesByZero?
    ensures outcome.Rejected? <==> !Prepare(p, cfg.blockSize).Ready?
    ensures outcome.Rejected? ==> outcome.setup == Prepare(p, cfg.blockSize)
    ensures outcome.NoSamples? <==>
              Prepare(p, cfg.blockSize).Ready? && CompletedPrefix(io, cfg.blockSize, cfg.nbBlocks) == 0
    ensures outcome.NoSamples? ==>
              outcome.last == if cfg.nbBlocks > 0 then StepOf(io(0), cfg.blockSize) else Completed
    ensures outcome.Measured? ==>
              var size := Prepare(p, cfg.blockSize).size;
              && outcome.completed > 0
              && 0 < cfg.blockSize < size
              && outcome.completed == CompletedPrefix(io, cfg.blockSize, cfg.nbBlocks)
              && (outcome.last.Completed? <==> outcome.completed == cfg.nbBlocks)
              && |outcome.positions| == (if outcome.completed < cfg.nbBlocks then outcome.completed + 1 else outcome.completed)
              && (forall i :: 0 <= i < |outcome.positions| ==>
                    outcome.positions[i] == ReadPos(cfg.sequential, WideDraws(rand), i, size, cfg.blockSize))
              && outcome.cursor == SeqPos(outcome.completed, RandomOffset(WideDraw(rand, 0), size, cfg.blockSize), size, cfg.blockSize)
              && outcome.metric == Report(cfg, outcome.completed)
  {
    var setup := Prepare(p, cfg.blockSize);
    if !setup.Ready? {
      return Rejected(setup);
    }
    var b, positions, cursor, last := ReadLoop(setup.size, cfg, WideDraws(rand), io);
    if b == 0 {
      return NoSamples(last);
    }
    outcome := Measured(b, positions, cursor, last, Report(cfg, b));
  }
}
