/**
 * The `entropy` command-line tool: it reads a file (or standard input) after
 * an optional skip offset, up to an optional size limit, and reports one
 * metric either for the whole input or for every complete block of a chosen
 * size, each block's result printed with the offset just past it.
 *
 * The file is the byte sequence that remains after the skip offset. `read()`
 * is a chunk source: `chunk(pos, size)` says how many of the `size` bytes asked
 * for at stream position `pos` it delivers (never more than remain). The
 * metric itself is an abstract `metric` from a frequency table and its symbol
 * count to a result and a status.
 */
module EntropyTool {
  import opened Entropy

  /** errno values the number parser would set, negated. */
  const EINVAL: int := 22
  const ERANGE: int := 34

  /** ULLONG_MAX, what `strtoull` returns on overflow. */
  const ULLONG_MAX: int := TWO_64 - 1

  // ---------------------------------------------------------------------------
  // Command-line parsing
  // ---------------------------------------------------------------------------

  /** A parsed value and the `*err` its parser leaves behind. */
  datatype Parsed<T> = Parsed(value: T, err: int)

  /**
   * `parse_metric`: the three metric names select their algorithm with
   * `*err == 0`; anything else sets `*err = -1` and still selects Shannon.
   */
  function ParseMetric(s: string): (r: Parsed<int>)
    ensures r.err == 0 <==> s == "entropy" || s == "chisq" || s == "bfd"
    ensures r.err != 0 ==> r.err == -1 && r.value == ALGO_SHANNON
    ensures r.value == ALGO_SHANNON || r.value == ALGO_CHISQ || r.value == ALGO_BFD
  {
    if s == "entropy" then Parsed(ALGO_SHANNON, 0)
    else if s == "chisq" then Parsed(ALGO_CHISQ, 0)
    else if s == "bfd" then Parsed(ALGO_BFD, 0)
    else Parsed(ALGO_SHANNON, -1)
  }

  /** The name the usage text gives each metric; parsing it gives the metric back. */
  function MetricName(algo: int): (name: string)
    requires algo == ALGO_SHANNON || algo == ALGO_CHISQ || algo == ALGO_BFD
    ensures ParseMetric(name) == Parsed(algo, 0)
  {
    if algo == ALGO_SHANNON then "entropy"
    else if algo == ALGO_CHISQ then "chisq"
    else "bfd"
  }

  /** Every accepted name is the name of the metric it selects. */
  lemma AcceptedNamesAreMetricNames(s: string)
    requires ParseMetric(s).err == 0
    ensures MetricName(ParseMetric(s).value) == s
  {
  }

  /** What `strtoull(str, &tmp, 0)` reports: the value and how many characters it used. */
  datatype Conversion = Conversion(value: u64, consumed: nat)

  /**
   * `parse_ull`: the empty-string / trailing-garbage check and the overflow
   * check both assign `*err`, but the unconditional `*err = 0` after them
   * overwrites either, so every input parses "successfully".
   */
  method ParseUll(s: string, strtoull: string -> Conversion, errIn: int)
    returns (value: u64, err: int)
    ensures err == 0
    ensures value == strtoull(s).value
  {
    var c := strtoull(s);
    value := c.value;
    err := errIn;
    if s == [] || c.consumed < |s| {
      err := -EINVAL;
    }
    if value == ULLONG_MAX {
      err := -ERANGE;
    }
    err := 0;
  }

  // ---------------------------------------------------------------------------
  // Read sizes
  // ---------------------------------------------------------------------------

  /** The options `process_file` receives, and the page size it reads in. */
  datatype Config = Config(blocksize: nat, sizeLimit: nat, skip: nat, pagesize: nat)

  /** `remaining` after the reset at the top of the loop: a fresh block starts full. */
  function BlockStart(cfg: Config, remaining: nat): (r: nat)
    ensures cfg.blocksize != 0 ==> r > 0
    ensures r == remaining || (remaining == 0 && r == cfg.blocksize)
  {
    if cfg.blocksize != 0 && remaining == 0 then cfg.blocksize else remaining
  }

  /** The size-limit adjustment: a read that would pass the limit loses `(total + size) % limit`. */
  function Clamp(total: nat, size: nat, limit: nat): int
    requires limit > 0
  {
    size - (total + size) % limit
  }

  /**
   * The adjusted read ends on the last multiple of the limit that the
   * unadjusted read reaches, giving up less than one limit.
   */
  lemma ClampRoundsDown(total: nat, size: nat, limit: nat)
    requires limit > 0
    ensures total + Clamp(total, size, limit) == (total + size) / limit * limit
    ensures size - limit < Clamp(total, size, limit) <= size
  {
  }

  /**
   * The adjusted read is never empty, and it ends exactly at the limit if and
   * only if the unadjusted read would have ended less than a whole limit past it.
   */
  lemma ClampLandsOnLimit(total: nat, size: nat, limit: nat)
    requires total < limit < total + size
    ensures 0 < Clamp(total, size, limit) <= size
    ensures total + Clamp(total, size, limit) == limit <==> total + size < 2 * limit
  {
    var x := total + size;
    var q, m := x / limit, x % limit;
    assert x == limit * q + m && 0 <= m < limit;
    if q == 1 {
      assert m == x - limit;
    } else {
      assert limit * q >= 2 * limit by {
        assert limit * q == limit * 2 + limit * (q - 2);
        assert limit * (q - 2) >= 0;
      }
      assert limit * q <= x;
    }
  }

  /**
   * `read_size`: within a block, what is left of the block if less than a
   * page, otherwise a page; then cut back if it would pass the size limit.
   */
  function ReadSize(cfg: Config, remaining: nat, total: nat): (r: nat)
    requires cfg.pagesize > 0
    requires cfg.blocksize != 0 ==> remaining > 0
    requires cfg.sizeLimit == 0 || total < cfg.sizeLimit
    ensures 0 < r <= cfg.pagesize
    ensures cfg.blocksize != 0 ==> r <= remaining
  {
    var size := if cfg.blocksize != 0 && remaining < cfg.pagesize then remaining else cfg.pagesize;
    if cfg.sizeLimit != 0 && total + size > cfg.sizeLimit then
      ClampLandsOnLimit(total, size, cfg.sizeLimit);
      Clamp(total, size, cfg.sizeLimit)
    else
      size
  }

  /**
   * Without a limit a read asks for a page, or within a block for what is left
   * of the block if that is less; with a limit no larger than a page, a read
   * never passes the limit.
   */
  lemma ReadSizeBounds(cfg: Config, remaining: nat, total: nat)
    requires cfg.pagesize > 0
    requires cfg.blocksize != 0 ==> remaining > 0
    requires cfg.sizeLimit == 0 || total < cfg.sizeLimit
    ensures cfg.sizeLimit == 0 && cfg.blocksize != 0 ==>
      ReadSize(cfg, remaining, total) == if remaining < cfg.pagesize then remaining else cfg.pagesize
    ensures cfg.sizeLimit == 0 && cfg.blocksize == 0 ==> ReadSize(cfg, remaining, total) == cfg.pagesize
    ensures cfg.sizeLimit != 0 && cfg.pagesize <= cfg.sizeLimit ==> total + ReadSize(cfg, remaining, total) <= cfg.sizeLimit
  {
    var size := if cfg.blocksize != 0 && remaining < cfg.pagesize then remaining else cfg.pagesize;
    if cfg.sizeLimit != 0 && total + size > cfg.sizeLimit {
      ClampLandsOnLimit(total, size, cfg.sizeLimit);
    }
  }

  /** `read(fd, buf, size)` at stream position `pos`: what the source delivers, capped by the request and the input. */
  function ReadCount(data: seq<Byte>, chunk: (nat, nat) -> nat, pos: nat, size: nat): (n: nat)
    requires pos <= |data|
    ensures n <= size && pos + n <= |data|
    ensures n == size || n == chunk(pos, size) || pos + n == |data|
  {
    var asked := if chunk(pos, size) < size then chunk(pos, size) else size;
    if asked < |data| - pos then asked else |data| - pos
  }

  /** The byte count one read returns, with `remaining` already reset for a fresh block. */
  function ReadAt(cfg: Config, data: seq<Byte>, chunk: (nat, nat) -> nat, total: nat, remaining: nat): (n: nat)
    requires cfg.pagesize > 0 && total <= |data|
    requires cfg.blocksize != 0 ==> remaining > 0
    requires cfg.sizeLimit == 0 || total < cfg.sizeLimit
    ensures total + n <= |data| && (cfg.blocksize != 0 ==> n <= remaining)
  {
    ReadCount(data, chunk, total, ReadSize(cfg, remaining, total))
  }

  // ---------------------------------------------------------------------------
  // The segmentation loop
  // ---------------------------------------------------------------------------

  /** What `libentropy_calculate` hands back: a result and a status. */
  datatype Calculation<R> = Calculation(result: R, status: int)

  /** One `print_result` call: a block's result with the offset just past the block, or the whole input's. */
  datatype Report<R> = BlockReport(offset: nat, result: R) | FileReport(result: R)

  /** The loop variables at the top of an iteration; the context is its table and symbol count. */
  datatype Progress<R> = Progress(total: nat, remaining: nat, table: seq<u64>, count: u64, reports: seq<Report<R>>)

  /** How the do-while loop ends: a block's calculation failed, or it ran out of input or of limit. */
  datatype LoopEnd<R> =
    | Failed(reports: seq<Report<R>>)
    | Finished(table: seq<u64>, count: u64, reports: seq<Report<R>>)

  /** One pass of the loop body: the state it leaves and the byte count `read` returned, unless a block's calculation failed. */
  datatype Pass<R> = Pass(next: Progress<R>, read: nat) | BlockFailed

  /**
   * The body of the do-while loop of `process_file`, below the size limit:
   * start a fresh block if needed, read, count the bytes, and at the end of a
   * block report its result and zero the context.
   */
  function Step<R>(cfg: Config, data: seq<Byte>, chunk: (nat, nat) -> nat,
                   metric: (seq<u64>, u64) -> Calculation<R>, p: Progress<R>): (r: Pass<R>)
    requires cfg.pagesize > 0
    requires p.total <= |data| && |p.table| == TABLE_SIZE
    requires cfg.sizeLimit == 0 || p.total < cfg.sizeLimit
    ensures r.Pass? ==> r.next.total == p.total + r.read <= |data| && |r.next.table| == TABLE_SIZE
  {
    var remaining := BlockStart(cfg, p.remaining);
    var n := ReadAt(cfg, data, chunk, p.total, remaining);
    var total := p.total + n;
    var left := if cfg.blocksize != 0 then remaining - n else remaining;
    var table := Tally(p.table, data[p.total..total]);
    var count := (p.count + n) % TWO_64;
    if cfg.blocksize != 0 && left == 0 then
      var c := metric(table, count);
      if c.status != STATUS_SUCCESS then BlockFailed
      else Pass(Progress(total, left, Zeros(), 0, p.reports + [BlockReport(cfg.skip + total, c.result)]), n)
    else
      Pass(Progress(total, left, table, count, p.reports), n)
  }

  /** The do-while loop of `process_file`, from the state `p`: it stops at the limit, on a failed block, or after an empty read. */
  function Loop<R>(cfg: Config, data: seq<Byte>, chunk: (nat, nat) -> nat,
                   metric: (seq<u64>, u64) -> Calculation<R>, p: Progress<R>): LoopEnd<R>
    requires cfg.pagesize > 0
    requires p.total <= |data| && |p.table| == TABLE_SIZE
    decreases |data| - p.total
  {
    if cfg.sizeLimit != 0 && p.total >= cfg.sizeLimit then
      Finished(p.table, p.count, p.reports)
    else
      match Step(cfg, data, chunk, metric, p)
      case BlockFailed => Failed(p.reports)
      case Pass(q, n) =>
        if n == 0 then Finished(q.table, q.count, q.reports)
        else Loop(cfg, data, chunk, metric, q)
  }

  /** After the loop: a failed block gives -1; in whole-input mode a successful calculation is reported. */
  function Conclude<R>(cfg: Config, metric: (seq<u64>, u64) -> Calculation<R>, e: LoopEnd<R>): (int, seq<Report<R>>)
  {
    match e
    case Failed(reports) => (-1, reports)
    case Finished(table, count, reports) =>
      if cfg.blocksize == 0 && metric(table, count).status == STATUS_SUCCESS then
        (0, reports + [FileReport(metric(table, count).result)])
      else
        (0, reports)
  }

  /** What `process_file` returns and prints when its loop goes on from `p`. */
  function Outcome<R>(cfg: Config, data: seq<Byte>, chunk: (nat, nat) -> nat,
                      metric: (seq<u64>, u64) -> Calculation<R>, p: Progress<R>): (int, seq<Report<R>>)
    requires cfg.pagesize > 0
    requires p.total <= |data| && |p.table| == TABLE_SIZE
  {
    Conclude(cfg, metric, Loop(cfg, data, chunk, metric, p))
  }

  /** `process_file` from a zeroed context: its return value and the results it prints. */
  function Process<R>(cfg: Config, data: seq<Byte>, chunk: (nat, nat) -> nat,
                      metric: (seq<u64>, u64) -> Calculation<R>): (int, seq<Report<R>>)
    requires cfg.pagesize > 0
  {
    Outcome(cfg, data, chunk, metric, Progress(0, 0, Zeros(), 0, []))
  }

  // ---------------------------------------------------------------------------
  // What the loop computes
  // ---------------------------------------------------------------------------

  /**
   * Block mode read independently of the loop: every complete block of
   * `blocksize` bytes from `done` on, in order, each reported with the offset
   * just past it. The first failing calculation ends the run with -1, and a
   * trailing partial block is never reported.
   */
  function Blocks<R>(data: seq<Byte>, end: nat, blocksize: nat, skip: nat,
                     metric: (seq<u64>, u64) -> Calculation<R>, done: nat): (int, seq<Report<R>>)
    requires blocksize > 0 && done <= end <= |data|
    decreases end - done
  {
    if end - done < blocksize then (0, [])
    else
      var c := metric(Tally(Zeros(), data[done..done + blocksize]), blocksize % TWO_64);
      if c.status != STATUS_SUCCESS then (-1, [])
      else
        var rest := Blocks(data, end, blocksize, skip, metric, done + blocksize);
        (rest.0, [BlockReport(skip + done + blocksize, c.result)] + rest.1)
  }

  /** Whole-input mode read independently of the loop: one report if the calculation succeeds, and 0 either way. */
  function WholeInput<R>(data: seq<Byte>, metric: (seq<u64>, u64) -> Calculation<R>): (int, seq<Report<R>>)
  {
    var c := metric(Tally(Zeros(), data), |data| % TWO_64);
    if c.status == STATUS_SUCCESS then (0, [FileReport(c.result)]) else (0, [])
  }

  /** `read` returns 0 only at the end of the input. */
  ghost predicate Progresses(chunk: (nat, nat) -> nat)
  {
    forall pos: nat, size: nat :: size > 0 ==> chunk(pos, size) > 0
  }

  /** The bytes the loop takes in when reads progress and a limit is no smaller than a page. */
  function Consumed(cfg: Config, data: seq<Byte>): (n: nat)
    ensures n <= |data|
  {
    if cfg.sizeLimit == 0 || |data| <= cfg.sizeLimit then |data| else cfg.sizeLimit
  }

  lemma DivStep(x: nat, d: nat)
    requires 0 < d <= x
    ensures x / d == (x - d) / d + 1
  {
    var q, r := (x - d) / d, (x - d) % d;
    var q', r' := x / d, x % d;
    assert x - d == q * d + r;
    assert x == q' * d + r';
    if q' < q + 1 {
      MulAtMost(q' + 1, q + 1, d, d);
      assert false;
    } else if q' > q + 1 {
      MulAtMost(q + 2, q', d, d);
      assert false;
    }
  }

  /** Kept apart from `BlocksCount`: stated inline, the division costs that proof far more. */
  lemma DivSmall(x: nat, d: nat)
    requires x < d
    ensures x / d == 0
  {
  }

  /**
   * `Blocks` ends with 0 exactly when it reported every complete block, and
   * with -1 after fewer.
   */
  lemma {:induction false} BlocksCount<R>(data: seq<Byte>, end: nat, blocksize: nat, skip: nat,
                                          metric: (seq<u64>, u64) -> Calculation<R>, done: nat)
    requires blocksize > 0 && done <= end <= |data|
    ensures var (ret, reports) := Blocks(data, end, blocksize, skip, metric, done);
      (ret == 0 || ret == -1) &&
      |reports| <= (end - done) / blocksize &&
      (ret == 0 <==> |reports| == (end - done) / blocksize)
    decreases end - done
  {
    if end - done < blocksize {
      DivSmall(end - done, blocksize);
    } else {
      DivStep(end - done, blocksize);
      var c := metric(Tally(Zeros(), data[done..done + blocksize]), blocksize % TWO_64);
      if c.status == STATUS_SUCCESS {
        BlocksCount(data, end, blocksize, skip, metric, done + blocksize);
      }
    }
  }

  /** A block report at an offset past `done`, carrying the calculation over the block that ends there. */
  ghost predicate BlockAt<R>(r: Report<R>, data: seq<Byte>, end: nat, blocksize: nat, skip: nat,
                             metric: (seq<u64>, u64) -> Calculation<R>, done: nat)
  {
    r.BlockReport? && done + blocksize <= r.offset - skip <= end <= |data| &&
    r.result == metric(Tally(Zeros(), data[r.offset - skip - blocksize..r.offset - skip]), blocksize % TWO_64).result
  }

  /** Every report of `Blocks` is the report of a complete block between `done` and `end`. */
  lemma {:induction false} BlocksInPlace<R>(data: seq<Byte>, end: nat, blocksize: nat, skip: nat,
                                            metric: (seq<u64>, u64) -> Calculation<R>, done: nat)
    requires blocksize > 0 && done <= end <= |data|
    ensures forall k :: 0 <= k < |Blocks(data, end, blocksize, skip, metric, done).1| ==>
      BlockAt(Blocks(data, end, blocksize, skip, metric, done).1[k], data, end, blocksize, skip, metric, done)
    decreases end - done
  {
    if end - done >= blocksize {
      var c := metric(Tally(Zeros(), data[done..done + blocksize]), blocksize % TWO_64);
      if c.status == STATUS_SUCCESS {
        BlocksInPlace(data, end, blocksize, skip, metric, done + blocksize);
        var rest := Blocks(data, end, blocksize, skip, metric, done + blocksize).1;
        var x := BlockReport(skip + done + blocksize, c.result);
        var reports := [x] + rest;
        assert Blocks(data, end, blocksize, skip, metric, done).1 == reports;
        forall k | 0 <= k < |reports|
          ensures BlockAt(reports[k], data, end, blocksize, skip, metric, done)
        {
          if k == 0 {
            assert x.offset - skip - blocksize == done;
          } else {
            assert reports[k] == rest[k - 1];
            assert BlockAt(rest[k - 1], data, end, blocksize, skip, metric, done + blocksize);
          }
        }
      }
    }
  }

  /** The first report of `Blocks` is one block past `skip + done`. */
  lemma BlocksFirst<R>(data: seq<Byte>, end: nat, blocksize: nat, skip: nat,
                       metric: (seq<u64>, u64) -> Calculation<R>, done: nat)
    requires blocksize > 0 && done <= end <= |data|
    ensures var reports := Blocks(data, end, blocksize, skip, metric, done).1;
      |reports| > 0 ==> reports[0].BlockReport? && reports[0].offset == skip + done + blocksize
  {
  }

  /** Report `i` and report `i + 1` are block reports exactly one block apart. */
  ghost predicate OneBlockApart<R>(reports: seq<Report<R>>, i: nat, blocksize: nat)
  {
    i + 1 < |reports| ==>
      reports[i].BlockReport? && reports[i + 1].BlockReport? &&
      reports[i + 1].offset == reports[i].offset + blocksize
  }

  /** Consecutive reports are block reports exactly one block apart. */
  ghost predicate Spaced<R>(reports: seq<Report<R>>, blocksize: nat)
  {
    forall i: nat :: OneBlockApart(reports, i, blocksize)
  }

  /** A block report one block before a spaced sequence extends it. */
  lemma SpacedCons<R>(x: Report<R>, rest: seq<Report<R>>, blocksize: nat)
    requires x.BlockReport? && Spaced(rest, blocksize)
    requires |rest| > 0 ==> rest[0].BlockReport? && rest[0].offset == x.offset + blocksize
    ensures Spaced([x] + rest, blocksize)
  {
    var reports := [x] + rest;
    forall i: nat
      ensures OneBlockApart(reports, i, blocksize)
    {
      if i + 1 < |reports| {
        assert reports[i + 1] == rest[i];
        if i == 0 {
          assert reports[i] == x;
        } else {
          assert reports[i] == rest[i - 1];
          assert OneBlockApart(rest, i - 1, blocksize);
        }
      }
    }
  }

  /** Consecutive reports of `Blocks` are exactly one block apart. */
  lemma {:induction false} BlocksSpacing<R>(data: seq<Byte>, end: nat, blocksize: nat, skip: nat,
                                            metric: (seq<u64>, u64) -> Calculation<R>, done: nat)
    requires blocksize > 0 && done <= end <= |data|
    ensures Spaced(Blocks(data, end, blocksize, skip, metric, done).1, blocksize)
    decreases end - done
  {
    if end - done >= blocksize {
      var c := metric(Tally(Zeros(), data[done..done + blocksize]), blocksize % TWO_64);
      if c.status == STATUS_SUCCESS {
        BlocksSpacing(data, end, blocksize, skip, metric, done + blocksize);
        BlocksFirst(data, end, blocksize, skip, metric, done + blocksize);
        var rest := Blocks(data, end, blocksize, skip, metric, done + blocksize).1;
        var x := BlockReport(skip + done + blocksize, c.result);
        assert Blocks(data, end, blocksize, skip, metric, done).1 == [x] + rest;
        SpacedCons(x, rest, blocksize);
      }
    }
  }

  /**
   * Below the limit, one read takes in at least one byte unless the input
   * is exhausted, never passes the bytes the loop consumes, and never
   * passes the end of the current block.
   */
  lemma ReadAdvances(cfg: Config, data: seq<Byte>, chunk: (nat, nat) -> nat, total: nat, remaining: nat)
    requires cfg.pagesize > 0 && Progresses(chunk) && (cfg.sizeLimit == 0 || cfg.pagesize <= cfg.sizeLimit)
    requires total <= Consumed(cfg, data) && (cfg.sizeLimit == 0 || total < cfg.sizeLimit)
    requires cfg.blocksize != 0 ==> remaining > 0
    ensures var n := ReadAt(cfg, data, chunk, total, remaining);
      total + n <= Consumed(cfg, data) && (n == 0 <==> total == |data|)
  {
    ReadSizeBounds(cfg, remaining, total);
  }

  /** The frequency table and symbol count after reading `data[from..to]` on top of `data[start..from]`. */
  lemma CountOn(data: seq<Byte>, start: nat, from: nat, to: nat, count: u64)
    requires start <= from <= to <= |data| && count == (from - start) % TWO_64
    ensures Tally(Tally(Zeros(), data[start..from]), data[from..to]) == Tally(Zeros(), data[start..to])
    ensures (count + (to - from)) % TWO_64 == (to - start) % TWO_64
  {
    var head, tail := data[start..from], data[from..to];
    assert Tally(Tally(Zeros(), head), tail) == Tally(Zeros(), data[start..to]) by {
      TallyConcat(Zeros(), head, tail);
      assert head + tail == data[start..to];
    }
    ModShift(from - start, count, to - from);
  }

  /** `Blocks` over a complete block: that block's calculation, then the blocks after it. */
  lemma BlocksNext<R>(data: seq<Byte>, end: nat, blocksize: nat, skip: nat,
                      metric: (seq<u64>, u64) -> Calculation<R>, done: nat)
    requires blocksize > 0 && done + blocksize <= end <= |data|
    ensures var c := metric(Tally(Zeros(), data[done..done + blocksize]), blocksize % TWO_64);
      var rest := Blocks(data, end, blocksize, skip, metric, done + blocksize);
      Blocks(data, end, blocksize, skip, metric, done)
        == if c.status != STATUS_SUCCESS then (-1, []) else (rest.0, [BlockReport(skip + done + blocksize, c.result)] + rest.1)
  {
  }

  /** `Blocks` over a complete block whose calculation succeeds. */
  lemma BlocksNextSucceeds<R>(data: seq<Byte>, end: nat, blocksize: nat, skip: nat,
                              metric: (seq<u64>, u64) -> Calculation<R>, done: nat)
    requires blocksize > 0 && done + blocksize <= end <= |data|
    requires metric(Tally(Zeros(), data[done..done + blocksize]), blocksize % TWO_64).status == STATUS_SUCCESS
    ensures Blocks(data, end, blocksize, skip, metric, done).0 == Blocks(data, end, blocksize, skip, metric, done + blocksize).0
    ensures Blocks(data, end, blocksize, skip, metric, done).1
      == [BlockReport(skip + done + blocksize, metric(Tally(Zeros(), data[done..done + blocksize]), blocksize % TWO_64).result)]
           + Blocks(data, end, blocksize, skip, metric, done + blocksize).1
  {
  }

  /** Where block mode stands inside the block that starts at `done`. */
  ghost predicate InBlock<R>(cfg: Config, data: seq<Byte>, chunk: (nat, nat) -> nat, p: Progress<R>, done: nat)
  {
    cfg.blocksize > 0 && cfg.pagesize > 0 &&
    Progresses(chunk) && (cfg.sizeLimit == 0 || cfg.pagesize <= cfg.sizeLimit) &&
    done <= p.total <= Consumed(cfg, data) && p.total - done < cfg.blocksize &&
    BlockStart(cfg, p.remaining) == cfg.blocksize - (p.total - done) &&
    p.table == Tally(Zeros(), data[done..p.total]) && p.count == (p.total - done) % TWO_64
  }

  /**
   * From any point inside a block, the block-mode loop produces what
   * `Blocks` produces over the bytes it will consume, after the reports
   * made so far.
   */
  lemma {:induction false} BlockLoop<R>(cfg: Config, data: seq<Byte>, chunk: (nat, nat) -> nat,
                                        metric: (seq<u64>, u64) -> Calculation<R>, p: Progress<R>, done: nat)
    requires InBlock(cfg, data, chunk, p, done)
    ensures Outcome(cfg, data, chunk, metric, p).0 == Blocks(data, Consumed(cfg, data), cfg.blocksize, cfg.skip, metric, done).0
    ensures Outcome(cfg, data, chunk, metric, p).1 == p.reports + Blocks(data, Consumed(cfg, data), cfg.blocksize, cfg.skip, metric, done).1
    decreases |data| - p.total, 1
  {
    var e := Consumed(cfg, data);
    var b := Blocks(data, e, cfg.blocksize, cfg.skip, metric, done);
    if cfg.sizeLimit != 0 && p.total >= cfg.sizeLimit {
      assert Loop(cfg, data, chunk, metric, p) == Finished(p.table, p.count, p.reports);
      assert b == (0, []);
      assert p.reports + [] == p.reports;
    } else {
      var remaining := BlockStart(cfg, p.remaining);
      var n := ReadAt(cfg, data, chunk, p.total, remaining);
      ReadAdvances(cfg, data, chunk, p.total, remaining);
      if n == 0 {
        assert data[p.total..p.total] == [];
        assert Step(cfg, data, chunk, metric, p) == Pass(Progress(p.total, remaining, p.table, p.count, p.reports), 0);
        assert b == (0, []);
        assert p.reports + [] == p.reports;
      } else if p.total + n - done == cfg.blocksize {
        BlockLoopAtBlockEnd(cfg, data, chunk, metric, p, done);
      } else {
        BlockLoopInsideBlock(cfg, data, chunk, metric, p, done);
      }
    }
  }

  /** Below the limit, a pass that read something is followed by the rest of the loop. */
  lemma LoopContinues<R>(cfg: Config, data: seq<Byte>, chunk: (nat, nat) -> nat,
                         metric: (seq<u64>, u64) -> Calculation<R>, p: Progress<R>)
    requires cfg.pagesize > 0 && p.total <= |data| && |p.table| == TABLE_SIZE
    requires cfg.sizeLimit == 0 || p.total < cfg.sizeLimit
    requires Step(cfg, data, chunk, metric, p).Pass? && Step(cfg, data, chunk, metric, p).read > 0
    ensures Loop(cfg, data, chunk, metric, p) == Loop(cfg, data, chunk, metric, Step(cfg, data, chunk, metric, p).next)
  {
  }

  /** The pass whose read completes the block at `done` calculates over exactly that block. */
  lemma BlockEndStep<R>(cfg: Config, data: seq<Byte>, chunk: (nat, nat) -> nat,
                        metric: (seq<u64>, u64) -> Calculation<R>, p: Progress<R>, done: nat)
    requires InBlock(cfg, data, chunk, p, done) && (cfg.sizeLimit == 0 || p.total < cfg.sizeLimit)
    requires var n := ReadAt(cfg, data, chunk, p.total, BlockStart(cfg, p.remaining));
      n > 0 && p.total + n - done == cfg.blocksize
    ensures done + cfg.blocksize <= Consumed(cfg, data)
    ensures var total := done + cfg.blocksize;
      var c := metric(Tally(Zeros(), data[done..total]), cfg.blocksize % TWO_64);
      Step(cfg, data, chunk, metric, p) ==
        if c.status != STATUS_SUCCESS then BlockFailed
        else Pass(Progress(total, 0, Zeros(), 0, p.reports + [BlockReport(cfg.skip + done + cfg.blocksize, c.result)]), total - p.total)
  {
    var remaining := BlockStart(cfg, p.remaining);
    var n := ReadAt(cfg, data, chunk, p.total, remaining);
    var total := p.total + n;
    ReadAdvances(cfg, data, chunk, p.total, remaining);
    CountOn(data, done, p.total, total, p.count);
  }

  /** After a successful block calculation the loop goes on from an empty table at the next block. */
  lemma BlockEndContinues<R>(cfg: Config, data: seq<Byte>, chunk: (nat, nat) -> nat,
                             metric: (seq<u64>, u64) -> Calculation<R>, p: Progress<R>, done: nat)
    requires InBlock(cfg, data, chunk, p, done) && (cfg.sizeLimit == 0 || p.total < cfg.sizeLimit)
    requires var n := ReadAt(cfg, data, chunk, p.total, BlockStart(cfg, p.remaining));
      n > 0 && p.total + n - done == cfg.blocksize
    requires metric(Tally(Zeros(), data[done..done + cfg.blocksize]), cfg.blocksize % TWO_64).status == STATUS_SUCCESS
    ensures done + cfg.blocksize <= Consumed(cfg, data)
    ensures Outcome(cfg, data, chunk, metric, p)
      == Outcome(cfg, data, chunk, metric,
                 Progress(done + cfg.blocksize, 0, Zeros(), 0,
                          p.reports + [BlockReport(cfg.skip + done + cfg.blocksize,
                                                   metric(Tally(Zeros(), data[done..done + cfg.blocksize]), cfg.blocksize % TWO_64).result)]))
  {
    BlockEndStep(cfg, data, chunk, metric, p, done);
    LoopContinues(cfg, data, chunk, metric, p);
  }

  /** A failed block calculation ends the loop. */
  lemma BlockEndFails<R>(cfg: Config, data: seq<Byte>, chunk: (nat, nat) -> nat,
                         metric: (seq<u64>, u64) -> Calculation<R>, p: Progress<R>, done: nat)
    requires InBlock(cfg, data, chunk, p, done) && (cfg.sizeLimit == 0 || p.total < cfg.sizeLimit)
    requires var n := ReadAt(cfg, data, chunk, p.total, BlockStart(cfg, p.remaining));
      n > 0 && p.total + n - done == cfg.blocksize
    requires metric(Tally(Zeros(), data[done..done + cfg.blocksize]), cfg.blocksize % TWO_64).status != STATUS_SUCCESS
    ensures done + cfg.blocksize <= Consumed(cfg, data)
    ensures Loop(cfg, data, chunk, metric, p) == Failed(p.reports)
  {
    BlockEndStep(cfg, data, chunk, metric, p, done);
  }

  /** A fresh block starts with an empty table. */
  lemma InBlockAtStart<R>(cfg: Config, data: seq<Byte>, chunk: (nat, nat) -> nat, q: Progress<R>)
    requires cfg.blocksize > 0 && cfg.pagesize > 0
    requires Progresses(chunk) && (cfg.sizeLimit == 0 || cfg.pagesize <= cfg.sizeLimit)
    requires q.total <= Consumed(cfg, data) && q.remaining == 0 && q.table == Zeros() && q.count == 0
    ensures InBlock(cfg, data, chunk, q, q.total)
  {
    assert data[q.total..q.total] == [];
  }

  /** A read that completes the block reports it (or fails), and the loop goes on from the next block. */
  lemma {:induction false} BlockLoopAtBlockEnd<R>(cfg: Config, data: seq<Byte>, chunk: (nat, nat) -> nat,
                                                  metric: (seq<u64>, u64) -> Calculation<R>, p: Progress<R>, done: nat)
    requires InBlock(cfg, data, chunk, p, done) && (cfg.sizeLimit == 0 || p.total < cfg.sizeLimit)
    requires var n := ReadAt(cfg, data, chunk, p.total, BlockStart(cfg, p.remaining));
      n > 0 && p.total + n - done == cfg.blocksize
    ensures Outcome(cfg, data, chunk, metric, p).0 == Blocks(data, Consumed(cfg, data), cfg.blocksize, cfg.skip, metric, done).0
    ensures Outcome(cfg, data, chunk, metric, p).1 == p.reports + Blocks(data, Consumed(cfg, data), cfg.blocksize, cfg.skip, metric, done).1
    decreases |data| - p.total, 0
  {
    var e := Consumed(cfg, data);
    var total := done + cfg.blocksize;
    var c := metric(Tally(Zeros(), data[done..total]), cfg.blocksize % TWO_64);
    if c.status == STATUS_SUCCESS {
      BlockEndContinues(cfg, data, chunk, metric, p, done);
      BlockLoopNextBlock(cfg, data, chunk, metric, p.reports, done);
    } else {
      BlockEndFails(cfg, data, chunk, metric, p, done);
      BlocksNext(data, e, cfg.blocksize, cfg.skip, metric, done);
      assert p.reports + [] == p.reports;
    }
  }

  /** From the start of a block, the loop reports the blocks from there on. */
  lemma {:induction false} BlockLoopFromStart<R>(cfg: Config, data: seq<Byte>, chunk: (nat, nat) -> nat,
                                                 metric: (seq<u64>, u64) -> Calculation<R>, start: nat, reports: seq<Report<R>>)
    requires cfg.blocksize > 0 && cfg.pagesize > 0
    requires Progresses(chunk) && (cfg.sizeLimit == 0 || cfg.pagesize <= cfg.sizeLimit)
    requires start <= Consumed(cfg, data)
    ensures Outcome(cfg, data, chunk, metric, Progress(start, 0, Zeros(), 0, reports)).0
      == Blocks(data, Consumed(cfg, data), cfg.blocksize, cfg.skip, metric, start).0
    ensures Outcome(cfg, data, chunk, metric, Progress(start, 0, Zeros(), 0, reports)).1
      == reports + Blocks(data, Consumed(cfg, data), cfg.blocksize, cfg.skip, metric, start).1
    decreases |data| - start, 2
  {
    var q := Progress(start, 0, Zeros(), 0, reports);
    InBlockAtStart(cfg, data, chunk, q);
    BlockLoop(cfg, data, chunk, metric, q, start);
  }

  /** Kept apart from `BlockLoopNextBlock`, whose context makes the sequence equality costly. */
  lemma AppendAssoc<T>(a: seq<T>, b: seq<T>, c: seq<T>)
    ensures (a + b) + c == a + (b + c)
  {
  }

  /** Once a block is reported, the loop goes on to report the blocks after it. */
  lemma {:induction false} BlockLoopNextBlock<R>(cfg: Config, data: seq<Byte>, chunk: (nat, nat) -> nat,
                                                 metric: (seq<u64>, u64) -> Calculation<R>, reports: seq<Report<R>>, done: nat)
    requires cfg.blocksize > 0 && cfg.pagesize > 0
    requires Progresses(chunk) && (cfg.sizeLimit == 0 || cfg.pagesize <= cfg.sizeLimit)
    requires done + cfg.blocksize <= Consumed(cfg, data)
    requires metric(Tally(Zeros(), data[done..done + cfg.blocksize]), cfg.blocksize % TWO_64).status == STATUS_SUCCESS
    ensures Outcome(cfg, data, chunk, metric,
                    Progress(done + cfg.blocksize, 0, Zeros(), 0,
                             reports + [BlockReport(cfg.skip + done + cfg.blocksize,
                                                    metric(Tally(Zeros(), data[done..done + cfg.blocksize]), cfg.blocksize % TWO_64).result)])).0
      == Blocks(data, Consumed(cfg, data), cfg.blocksize, cfg.skip, metric, done).0
    ensures Outcome(cfg, data, chunk, metric,
                    Progress(done + cfg.blocksize, 0, Zeros(), 0,
                             reports + [BlockReport(cfg.skip + done + cfg.blocksize,
                                                    metric(Tally(Zeros(), data[done..done + cfg.blocksize]), cfg.blocksize % TWO_64).result)])).1
      == reports + Blocks(data, Consumed(cfg, data), cfg.blocksize, cfg.skip, metric, done).1
    decreases |data| - (done + cfg.blocksize), 3
  {
    var e := Consumed(cfg, data);
    var x := BlockReport(cfg.skip + done + cfg.blocksize,
                         metric(Tally(Zeros(), data[done..done + cfg.blocksize]), cfg.blocksize % TWO_64).result);
    var rest := Blocks(data, e, cfg.blocksize, cfg.skip, metric, done + cfg.blocksize);
    BlocksNextSucceeds(data, e, cfg.blocksize, cfg.skip, metric, done);
    BlockLoopFromStart(cfg, data, chunk, metric, done + cfg.blocksize, reports + [x]);
    AppendAssoc(reports, [x], rest.1);
  }

  /** A read that stays inside the block only counts its bytes. */
  lemma {:induction false} BlockLoopInsideBlock<R>(cfg: Config, data: seq<Byte>, chunk: (nat, nat) -> nat,
                                                   metric: (seq<u64>, u64) -> Calculation<R>, p: Progress<R>, done: nat)
    requires InBlock(cfg, data, chunk, p, done) && (cfg.sizeLimit == 0 || p.total < cfg.sizeLimit)
    requires var n := ReadAt(cfg, data, chunk, p.total, BlockStart(cfg, p.remaining));
      n > 0 && p.total + n - done != cfg.blocksize
    ensures Outcome(cfg, data, chunk, metric, p).0 == Blocks(data, Consumed(cfg, data), cfg.blocksize, cfg.skip, metric, done).0
    ensures Outcome(cfg, data, chunk, metric, p).1 == p.reports + Blocks(data, Consumed(cfg, data), cfg.blocksize, cfg.skip, metric, done).1
    decreases |data| - p.total, 0
  {
    var remaining := BlockStart(cfg, p.remaining);
    var n := ReadAt(cfg, data, chunk, p.total, remaining);
    ReadAdvances(cfg, data, chunk, p.total, remaining);
    var total := p.total + n;
    CountOn(data, done, p.total, total, p.count);
    var q := Progress(total, remaining - n, Tally(p.table, data[p.total..total]), (p.count + n) % TWO_64, p.reports);
    assert Step(cfg, data, chunk, metric, p) == Pass(q, n);
    BlockLoop(cfg, data, chunk, metric, q, done);
  }

  /**
   * Block mode: with reads that progress and a limit no smaller than a page,
   * `process_file` reports exactly the complete blocks of the first
   * `Consumed` bytes, however `read` splits them.
   */
  lemma BlockMode<R>(cfg: Config, data: seq<Byte>, chunk: (nat, nat) -> nat,
                     metric: (seq<u64>, u64) -> Calculation<R>)
    requires cfg.blocksize > 0 && cfg.pagesize > 0
    requires Progresses(chunk) && (cfg.sizeLimit == 0 || cfg.pagesize <= cfg.sizeLimit)
    ensures Process(cfg, data, chunk, metric) == Blocks(data, Consumed(cfg, data), cfg.blocksize, cfg.skip, metric, 0)
  {
    assert data[0..0] == [];
    BlockLoop(cfg, data, chunk, metric, Progress(0, 0, Zeros(), 0, []), 0);
    var b := Blocks(data, Consumed(cfg, data), cfg.blocksize, cfg.skip, metric, 0);
    assert [] + b.1 == b.1;
  }

  /** From any point, the whole-input loop ends having counted every byte it will consume. */
  lemma {:induction false} WholeLoop<R>(cfg: Config, data: seq<Byte>, chunk: (nat, nat) -> nat,
                                        metric: (seq<u64>, u64) -> Calculation<R>, p: Progress<R>)
    requires cfg.blocksize == 0 && cfg.pagesize > 0
    requires Progresses(chunk) && (cfg.sizeLimit == 0 || cfg.pagesize <= cfg.sizeLimit)
    requires p.total <= Consumed(cfg, data)
    requires p.table == Tally(Zeros(), data[..p.total]) && p.count == p.total % TWO_64
    ensures Loop(cfg, data, chunk, metric, p)
      == Finished(Tally(Zeros(), data[..Consumed(cfg, data)]), Consumed(cfg, data) % TWO_64, p.reports)
    decreases |data| - p.total
  {
    var e := Consumed(cfg, data);
    if cfg.sizeLimit != 0 && p.total >= cfg.sizeLimit {
      assert Loop(cfg, data, chunk, metric, p) == Finished(p.table, p.count, p.reports);
      assert p.total == e;
    } else {
      var n := ReadAt(cfg, data, chunk, p.total, p.remaining);
      ReadAdvances(cfg, data, chunk, p.total, p.remaining);
      var total := p.total + n;
      CountOn(data, 0, p.total, total, p.count);
      assert data[0..p.total] == data[..p.total] && data[0..total] == data[..total];
      var q := Progress(total, p.remaining, Tally(p.table, data[p.total..total]), (p.count + n) % TWO_64, p.reports);
      assert Step(cfg, data, chunk, metric, p) == Pass(q, n);
      if n == 0 {
        assert total == e;
      } else {
        assert Loop(cfg, data, chunk, metric, p) == Loop(cfg, data, chunk, metric, q);
        WholeLoop(cfg, data, chunk, metric, q);
      }
    }
  }

  /**
   * Whole-input mode: with reads that progress and a limit no smaller than a
   * page, `process_file` measures exactly the first `Consumed` bytes, however
   * `read` splits them, and reports the result only if the calculation succeeds.
   */
  lemma WholeInputMode<R>(cfg: Config, data: seq<Byte>, chunk: (nat, nat) -> nat,
                          metric: (seq<u64>, u64) -> Calculation<R>)
    requires cfg.blocksize == 0 && cfg.pagesize > 0
    requires Progresses(chunk) && (cfg.sizeLimit == 0 || cfg.pagesize <= cfg.sizeLimit)
    ensures Process(cfg, data, chunk, metric) == WholeInput(data[..Consumed(cfg, data)], metric)
  {
    assert data[..0] == [];
    WholeLoop(cfg, data, chunk, metric, Progress(0, 0, Zeros(), 0, []));
    var c := metric(Tally(Zeros(), data[..Consumed(cfg, data)]), Consumed(cfg, data) % TWO_64);
    assert [] + [FileReport(c.result)] == [FileReport(c.result)];
  }

  /** Without blocks no calculation happens inside the loop, so it can only finish. */
  lemma {:induction false} WholeLoopFinishes<R>(cfg: Config, data: seq<Byte>, chunk: (nat, nat) -> nat,
                                                metric: (seq<u64>, u64) -> Calculation<R>, p: Progress<R>)
    requires cfg.blocksize == 0 && cfg.pagesize > 0
    requires p.total <= |data| && |p.table| == TABLE_SIZE
    ensures Loop(cfg, data, chunk, metric, p).Finished?
    decreases |data| - p.total
  {
    if cfg.sizeLimit == 0 || p.total < cfg.sizeLimit {
      match Step(cfg, data, chunk, metric, p)
      case Pass(q, n) =>
        if n != 0 {
          WholeLoopFinishes(cfg, data, chunk, metric, q);
        }
    }
  }

  /** In whole-input mode `process_file` returns 0 whatever the input, the reads and the calculation do. */
  lemma WholeInputNeverFails<R>(cfg: Config, data: seq<Byte>, chunk: (nat, nat) -> nat,
                                metric: (seq<u64>, u64) -> Calculation<R>)
    requires cfg.blocksize == 0 && cfg.pagesize > 0
    ensures Process(cfg, data, chunk, metric).0 == 0
  {
    WholeLoopFinishes(cfg, data, chunk, metric, Progress(0, 0, Zeros(), 0, []));
  }

  /**
   * A limit smaller than a page is overshot: with a 100-byte limit and
   * 4096-byte pages the first read is cut back by 4096 % 100 to 4000 bytes,
   * the loop then stops, and whole-input mode measures all 4000.
   */
  lemma LimitOvershoot<R>(data: seq<Byte>, chunk: (nat, nat) -> nat,
                          metric: (seq<u64>, u64) -> Calculation<R>, skip: nat)
    requires |data| >= 4000 && chunk(0, 4000) >= 4000
    ensures Process(Config(0, 100, skip, 4096), data, chunk, metric) == WholeInput(data[..4000], metric)
  {
    var cfg := Config(0, 100, skip, 4096);
    assert ReadSize(cfg, 0, 0) == 4000;
    assert data[0..4000] == data[..4000];
    var q := Progress(4000, 0, Tally(Zeros(), data[..4000]), 4000, []);
    assert Step(cfg, data, chunk, metric, Progress(0, 0, Zeros(), 0, [])) == Pass(q, 4000);
    assert Loop(cfg, data, chunk, metric, q) == Finished(q.table, q.count, q.reports);
    assert Loop(cfg, data, chunk, metric, Progress(0, 0, Zeros(), 0, [])) == Finished(q.table, q.count, []);
    var c := metric(q.table, q.count);
    assert [] + [FileReport(c.result)] == [FileReport(c.result)];
  }

  /**
   * `process_file` on the input that follows the skip offset. The context is
   * zeroed before the loop and after every reported block.
   */
  method ProcessFile<R>(cfg: Config, data: seq<Byte>, chunk: (nat, nat) -> nat,
                        metric: (seq<u64>, u64) -> Calculation<R>)
    returns (ret: int, reports: seq<Report<R>>)
    requires 0 < cfg.pagesize < TWO_64
    ensures (ret, reports) == Process(cfg, data, chunk, metric)
  {
    var ctx := new EntropyCtx();
    var total: nat := 0;
    var offset: nat := cfg.skip;
    var remaining: nat := 0;
    reports := [];
    ghost var end := Loop(cfg, data, chunk, metric, Progress(total, remaining, ctx.table[..], ctx.symbolCount, reports));
    while true
      invariant fresh(ctx) && fresh(ctx.table) && ctx.Valid()
      invariant total <= |data| && offset == cfg.skip + total
      invariant Loop(cfg, data, chunk, metric, Progress(total, remaining, ctx.table[..], ctx.symbolCount, reports)) == end
      decreases |data| - total
    {
      if cfg.sizeLimit != 0 && total >= cfg.sizeLimit {
        break;
      }
      var failed, bytesRead;
      failed, bytesRead, total, remaining, offset, reports :=
        Iteration(cfg, data, chunk, metric, ctx, total, remaining, offset, reports);
      if failed {
        ret := -1;
        return;
      }
      if bytesRead == 0 {
        break;
      }
    }
    if cfg.blocksize == 0 {
      var c := metric(ctx.table[..], ctx.symbolCount);
      if c.status == STATUS_SUCCESS {
        reports := reports + [FileReport(c.result)];
      }
    }
    ret := 0;
  }

  /** One pass through the body of the loop in `ProcessFile`, on the context `ctx`. */
  method Iteration<R>(cfg: Config, data: seq<Byte>, chunk: (nat, nat) -> nat,
                      metric: (seq<u64>, u64) -> Calculation<R>, ctx: EntropyCtx,
                      total: nat, remaining: nat, offset: nat, reports: seq<Report<R>>)
    returns (failed: bool, bytesRead: nat, total': nat, remaining': nat, offset': nat, reports': seq<Report<R>>)
    requires 0 < cfg.pagesize < TWO_64 && ctx.Valid()
    requires total <= |data| && (cfg.sizeLimit == 0 || total < cfg.sizeLimit)
    requires offset == cfg.skip + total
    modifies ctx, ctx.table
    ensures ctx.Valid() && offset' == cfg.skip + total'
    ensures failed ==> reports' == reports
    ensures Step(cfg, data, chunk, metric, Progress(total, remaining, old(ctx.table[..]), old(ctx.symbolCount), reports))
      == if failed then BlockFailed else Pass(Progress(total', remaining', ctx.table[..], ctx.symbolCount, reports'), bytesRead)
  {
    ghost var p := Progress(total, remaining, ctx.table[..], ctx.symbolCount, reports);
    remaining' := remaining;
    if cfg.blocksize != 0 && remaining' == 0 {
      remaining' := cfg.blocksize;
    }
    var readSize := ReadSize(cfg, remaining', total);
    bytesRead := ReadCount(data, chunk, total, readSize);
    var buf := data[total..total + bytesRead];
    if cfg.blocksize != 0 {
      remaining' := remaining' - bytesRead;
    }
    offset' := offset + bytesRead;
    total' := total + bytesRead;
    ctx.Update(buf);
    ghost var table, count := ctx.table[..], ctx.symbolCount;
    assert table == Tally(p.table, data[total..total']);
    failed, reports' := false, reports;
    if cfg.blocksize != 0 && remaining' == 0 {
      var c := metric(ctx.table[..], ctx.symbolCount);
      if c.status == STATUS_SUCCESS {
        reports' := reports + [BlockReport(offset', c.result)];
        assert Step(cfg, data, chunk, metric, p) == Pass(Progress(total', 0, Zeros(), 0, reports'), bytesRead);
        ctx.Reset();
      } else {
        failed := true;
        assert Step(cfg, data, chunk, metric, p) == BlockFailed;
      }
    } else {
      assert Step(cfg, data, chunk, metric, p) == Pass(Progress(total', remaining', table, count, reports), bytesRead);
    }
  }
}
