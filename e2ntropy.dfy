/**
 * The free-block iterator of libe2ntropy: a forward-only walk over the block
 * groups of an ext2/3/4 file system that hands out, one per call, the blocks
 * the allocation bitmap marks as unused, skipping whole groups whose block
 * bitmap was never initialised.
 *
 * The ext2fs library is not modelled: an opened file system is the immutable
 * `Filesystem` value below, whose fields are the few facts and lookups the
 * iterator asks of the library.
 */
module E2ntropy {
  import Entropy

  /** errno values returned negated by `e2ntropy_iter_next`. */
  const EINVAL: int := 22
  const ERANGE: int := 34

  /** EXT2_BG_BLOCK_UNINIT: the group's block bitmap has never been written. */
  const BG_BLOCK_UNINIT: int := 0x0002

  /** The value of `bg_flags` that means "not fetched for this group yet". */
  const FLAGS_UNSET: int := -1

  /** `__u16`, the type of a group descriptor's flags. */
  type u16 = x: int | 0 <= x < 0x10000

  /** A non-zero `errcode_t` from the I/O channel. */
  type ErrorCode = c: int | c != 0 witness 1

  /** What `io_channel_read_blk64` does for one block. */
  datatype ReadResult = ReadOk(data: seq<Entropy.Byte>) | ReadFailed(code: ErrorCode)

  /** The opened file system, as far as the iterator consults it. */
  datatype Filesystem = Filesystem(
    groupDescCount: nat,            // fs->group_desc_count
    clustersPerGroup: nat,          // fs->super->s_clusters_per_group
    blocksize: nat,                 // fs->blocksize
    hasGroupDescCsum: bool,         // ext2fs_has_group_desc_csum(fs)
    groupFlags: nat -> u16,         // ext2fs_bg_flags(fs, group)
    blockInUse: nat -> bool,        // ext2fs_test_block_bitmap2(fs->block_map, block)
    readBlock: nat -> ReadResult)   // io_channel_read_blk64(fs->io, block, 1, buf)

  /** A successful read fills exactly one block. */
  ghost predicate WellFormed(fs: Filesystem)
  {
    forall b: nat :: fs.readBlock(b).ReadOk? ==> |fs.readBlock(b).data| == fs.blocksize
  }

  /** `e2ntropy_iter_blocksize`: the one buffer size `e2ntropy_iter_next` accepts. */
  function Blocksize(fs: Filesystem): nat
  {
    fs.blocksize
  }

  /** `e2ntropy_iter_block_index`: the absolute block at `offset` in `group`. */
  function BlockIndex(clustersPerGroup: nat, group: nat, offset: nat): nat
  {
    group * clustersPerGroup + offset
  }

  /** Bit 1 of a two's-complement C `int`: floor division by 2, then parity. */
  predicate BlockUninit(flags: int)
  {
    (flags / BG_BLOCK_UNINIT) % 2 == 1
  }

  /** Flags as fetched: the descriptor's word with the checksum feature, else 0. */
  function FetchFlags(fs: Filesystem, group: nat): (flags: int)
    ensures 0 <= flags < 0x10000
    ensures !fs.hasGroupDescCsum ==> flags == 0 && !BlockUninit(flags)
  {
    if fs.hasGroupDescCsum then fs.groupFlags(group) else 0
  }

  // ---------------------------------------------------------------------
  // The iterator's state and one call of `e2ntropy_iter_next`, as values
  // ---------------------------------------------------------------------

  /** The fields of `struct e2ntropy_iter` that the walk reads and writes. */
  datatype IterState = IterState(
    bgIndex: nat,        // current block group
    bgOffset: nat,       // current cluster offset within the group
    bgOffsetNext: nat,   // where the next call resumes
    bgFlags: int,        // cached group flags, FLAGS_UNSET when not fetched
    maxBlocks: nat)      // device capacity in blocks

  /** What a call returns: 0 with a block, -EINVAL, -ERANGE or the read error. */
  datatype Outcome = Yielded(block: nat) | InvalidArgument | OutOfRange | ReadError(code: ErrorCode)

  function Code(o: Outcome): int
  {
    match o
    case Yielded(_) => 0
    case InvalidArgument => -EINVAL
    case OutOfRange => -ERANGE
    case ReadError(c) => c
  }

  /** `e2ntropy_iter_init`: everything zero, flags unset, resume at offset 1. */
  function InitState(maxBlocks: nat): IterState
  {
    IterState(0, 0, 1, FLAGS_UNSET, maxBlocks)
  }

  /** Moving on to the next group: offset 0 and flags to be fetched again. */
  function NextGroup(s: IterState): IterState
  {
    s.(bgIndex := s.bgIndex + 1, bgOffset := 0, bgFlags := FLAGS_UNSET)
  }

  function GroupsLeft(fs: Filesystem, s: IterState): nat
  {
    if s.bgIndex < fs.groupDescCount then fs.groupDescCount - s.bgIndex else 0
  }

  function ClustersLeft(fs: Filesystem, s: IterState): nat
  {
    if s.bgOffset < fs.clustersPerGroup then fs.clustersPerGroup - s.bgOffset else 0
  }

  /** The code from label `try_next_bg`. The walk never moves backwards or touches the resume point, except on success. */
  function TryNextBg(fs: Filesystem, s: IterState): (r: (IterState, Outcome))
    decreases GroupsLeft(fs, s), ClustersLeft(fs, s) + 1
    ensures r.0.bgIndex >= s.bgIndex && r.0.maxBlocks == s.maxBlocks
    ensures !r.1.InvalidArgument?
    ensures !r.1.Yielded? ==> r.0.bgOffsetNext == s.bgOffsetNext
  {
    if s.bgIndex >= fs.groupDescCount then (s, OutOfRange)
    else
      var s1 := if s.bgFlags == FLAGS_UNSET then s.(bgFlags := FetchFlags(fs, s.bgIndex)) else s;
      if BlockUninit(s1.bgFlags) then TryNextBg(fs, NextGroup(s1))
      else TryNextBlock(fs, s1)
  }

  /** The code from label `try_next_block`, entered only for a group that exists. */
  function TryNextBlock(fs: Filesystem, s: IterState): (r: (IterState, Outcome))
    requires s.bgIndex < fs.groupDescCount
    decreases GroupsLeft(fs, s), ClustersLeft(fs, s)
    ensures r.0.bgIndex >= s.bgIndex && r.0.maxBlocks == s.maxBlocks
    ensures !r.1.InvalidArgument?
    ensures !r.1.Yielded? ==> r.0.bgOffsetNext == s.bgOffsetNext
  {
    if s.bgOffset >= fs.clustersPerGroup then TryNextBg(fs, NextGroup(s))
    else
      var block := BlockIndex(fs.clustersPerGroup, s.bgIndex, s.bgOffset);
      if block >= s.maxBlocks then (s, OutOfRange)
      else if fs.blockInUse(block) then TryNextBlock(fs, s.(bgOffset := s.bgOffset + 1))
      else
        match fs.readBlock(block)
        case ReadFailed(code) => (s, ReadError(code))
        case ReadOk(_) => (s.(bgOffsetNext := s.bgOffset + 1), Yielded(block))
  }

  /** One call of `e2ntropy_iter_next(iter, buf_size, buf)`. */
  function Step(fs: Filesystem, s: IterState, bufSize: nat): (IterState, Outcome)
  {
    if bufSize != fs.blocksize then (s, InvalidArgument)
    else TryNextBg(fs, s.(bgOffset := s.bgOffsetNext))
  }

  // ---------------------------------------------------------------------
  // Block indices
  // ---------------------------------------------------------------------

  lemma MulMonotone(a: nat, b: nat, c: nat)
    requires a <= b
    ensures a * c <= b * c
  {
  }

  /** Within a group, the index of (group, offset) determines both. */
  lemma BlockIndexDivMod(c: nat, g: nat, o: nat)
    requires o < c
    ensures BlockIndex(c, g, o) / c == g && BlockIndex(c, g, o) % c == o
  {
    var x := g * c + o;
    var q, r := x / c, x % c;
    assert x == q * c + r;
    if q < g {
      MulMonotone(q + 1, g, c);
      assert false;
    } else if q > g {
      MulMonotone(g + 1, q, c);
      assert false;
    }
  }

  /** Distinct (group, offset) pairs with in-range offsets map to distinct blocks. */
  lemma BlockIndexInjective(c: nat, g1: nat, o1: nat, g2: nat, o2: nat)
    requires o1 < c && o2 < c
    requires BlockIndex(c, g1, o1) == BlockIndex(c, g2, o2)
    ensures g1 == g2 && o1 == o2
  {
    BlockIndexDivMod(c, g1, o1);
    BlockIndexDivMod(c, g2, o2);
  }

  /** The index orders (group, offset) pairs lexicographically. */
  lemma BlockIndexOrder(c: nat, g1: nat, o1: nat, g2: nat, o2: nat)
    requires o1 < c && o2 < c
    ensures BlockIndex(c, g1, o1) < BlockIndex(c, g2, o2) <==> g1 < g2 || (g1 == g2 && o1 < o2)
  {
    if g1 < g2 {
      MulMonotone(g1 + 1, g2, c);
    } else if g2 < g1 {
      MulMonotone(g2 + 1, g1, c);
    }
  }

  // ---------------------------------------------------------------------
  // What the walk guarantees
  // ---------------------------------------------------------------------

  function Min(a: nat, b: nat): nat
  {
    if a <= b then a else b
  }

  /**
   * How far a (group, offset) position lies along the disk: its block index,
   * with an offset past the end of the group counted as the group's end.
   */
  function Position(fs: Filesystem, group: nat, offset: nat): nat
  {
    BlockIndex(fs.clustersPerGroup, group, Min(offset, fs.clustersPerGroup))
  }

  lemma PositionMonotone(fs: Filesystem, g1: nat, o1: nat, g2: nat, o2: nat)
    requires g1 < g2 || (g1 == g2 && o1 <= o2)
    ensures Position(fs, g1, o1) <= Position(fs, g2, o2)
  {
    if g1 < g2 {
      MulMonotone(g1 + 1, g2, fs.clustersPerGroup);
    }
  }

  /** The cached flags are unset, or they are the current group's flags. */
  ghost predicate FlagsCached(fs: Filesystem, s: IterState)
  {
    s.bgFlags == FLAGS_UNSET || (s.bgIndex < fs.groupDescCount && s.bgFlags == FetchFlags(fs, s.bgIndex))
  }

  /**
   * A block the walk may read: below device capacity, free in the bitmap, in
   * a group whose bitmap is initialised.
   */
  ghost predicate Readable(fs: Filesystem, maxBlocks: nat, block: nat)
  {
    && fs.clustersPerGroup > 0
    && block < maxBlocks
    && !fs.blockInUse(block)
    && !BlockUninit(FetchFlags(fs, block / fs.clustersPerGroup))
  }

  /** No block in [lo, hi) could be read by the walk. */
  ghost predicate NoneReadable(fs: Filesystem, maxBlocks: nat, lo: nat, hi: nat)
  {
    forall b: nat :: lo <= b < hi ==> !Readable(fs, maxBlocks, b)
  }

  lemma NoneReadableExtend(fs: Filesystem, maxBlocks: nat, lo: nat, hi: nat)
    requires !Readable(fs, maxBlocks, lo) && NoneReadable(fs, maxBlocks, lo + 1, hi)
    ensures NoneReadable(fs, maxBlocks, lo, hi)
  {
  }

  /** Every block of a group whose flags say BLOCK_UNINIT is passed over. */
  lemma UninitGroupNoneReadable(fs: Filesystem, maxBlocks: nat, group: nat, offset: nat)
    requires BlockUninit(FetchFlags(fs, group))
    ensures NoneReadable(fs, maxBlocks, Position(fs, group, offset), Position(fs, group + 1, 0))
  {
    var c := fs.clustersPerGroup;
    forall b: nat | Position(fs, group, offset) <= b < Position(fs, group + 1, 0) && c > 0
      ensures b / c == group
    {
      BlockIndexDivMod(c, group, b - group * c);
    }
  }

  /**
   * What one walk from `s` to `r` guarantees. It stops at the first block it
   * could read, or runs out of groups, or reaches the device capacity.
   */
  ghost predicate WalkResult(fs: Filesystem, s: IterState, r: (IterState, Outcome))
  {
    var (s', o) := r;
    && FlagsCached(fs, s')
    && (s'.bgIndex == s.bgIndex && s.bgFlags != FLAGS_UNSET ==> s'.bgFlags == s.bgFlags)
    && Position(fs, s.bgIndex, s.bgOffset) <= Position(fs, s'.bgIndex, s'.bgOffset)
    && NoneReadable(fs, s.maxBlocks, Position(fs, s.bgIndex, s.bgOffset), Position(fs, s'.bgIndex, s'.bgOffset))
    && (o.OutOfRange? ==>
          s'.bgIndex >= fs.groupDescCount
          || (s'.bgOffset < fs.clustersPerGroup
              && s.maxBlocks <= BlockIndex(fs.clustersPerGroup, s'.bgIndex, s'.bgOffset)
                             == Position(fs, s'.bgIndex, s'.bgOffset)))
    && (o.Yielded? || o.ReadError? ==>
          s'.bgOffset < fs.clustersPerGroup
          && BlockIndex(fs.clustersPerGroup, s'.bgIndex, s'.bgOffset) == Position(fs, s'.bgIndex, s'.bgOffset)
          && Readable(fs, s.maxBlocks, BlockIndex(fs.clustersPerGroup, s'.bgIndex, s'.bgOffset)))
    && (o.Yielded? ==>
          o.block == BlockIndex(fs.clustersPerGroup, s'.bgIndex, s'.bgOffset)
          && s'.bgOffsetNext == s'.bgOffset + 1
          && fs.readBlock(o.block).ReadOk?)
    && (o.ReadError? ==> fs.readBlock(BlockIndex(fs.clustersPerGroup, s'.bgIndex, s'.bgOffset)) == ReadFailed(o.code))
  }

  lemma {:induction false} TryNextBgResult(fs: Filesystem, s: IterState)
    requires FlagsCached(fs, s)
    ensures WalkResult(fs, s, TryNextBg(fs, s))
    decreases GroupsLeft(fs, s), ClustersLeft(fs, s) + 1, 1
  {
    if s.bgIndex < fs.groupDescCount {
      if BlockUninit(FetchFlags(fs, s.bgIndex)) {
        TryNextBgUninit(fs, s);
      } else {
        TryNextBlockResult(fs, s.(bgFlags := FetchFlags(fs, s.bgIndex)));
      }
    }
  }

  /** `TryNextBg` on a group whose flags say BLOCK_UNINIT. */
  lemma {:induction false} TryNextBgUninit(fs: Filesystem, s: IterState)
    requires FlagsCached(fs, s) && s.bgIndex < fs.groupDescCount
    requires BlockUninit(FetchFlags(fs, s.bgIndex))
    ensures TryNextBg(fs, s) == TryNextBg(fs, NextGroup(s))
    ensures WalkResult(fs, s, TryNextBg(fs, s))
    decreases GroupsLeft(fs, s), ClustersLeft(fs, s) + 1, 0
  {
    var s1 := s.(bgFlags := FetchFlags(fs, s.bgIndex));
    assert NextGroup(s1) == NextGroup(s);
    assert TryNextBg(fs, s) == TryNextBg(fs, NextGroup(s1));
    TryNextBgResult(fs, NextGroup(s1));
    PositionMonotone(fs, s.bgIndex, s.bgOffset, s.bgIndex + 1, 0);
    UninitGroupNoneReadable(fs, s.maxBlocks, s.bgIndex, s.bgOffset);
  }

  lemma {:induction false} TryNextBlockResult(fs: Filesystem, s: IterState)
    requires s.bgIndex < fs.groupDescCount && s.bgFlags == FetchFlags(fs, s.bgIndex)
    requires !BlockUninit(s.bgFlags)
    ensures WalkResult(fs, s, TryNextBlock(fs, s))
    decreases GroupsLeft(fs, s), ClustersLeft(fs, s), 2
  {
    var c := fs.clustersPerGroup;
    if s.bgOffset >= c {
      TryNextBlockEndOfGroup(fs, s);
    } else if BlockIndex(c, s.bgIndex, s.bgOffset) < s.maxBlocks && fs.blockInUse(BlockIndex(c, s.bgIndex, s.bgOffset)) {
      TryNextBlockInUse(fs, s);
    } else {
      TryNextBlockStops(fs, s);
    }
  }

  /** `TryNextBlock` past the group's last offset. */
  lemma {:induction false} TryNextBlockEndOfGroup(fs: Filesystem, s: IterState)
    requires s.bgIndex < fs.groupDescCount && s.bgOffset >= fs.clustersPerGroup
    ensures TryNextBlock(fs, s) == TryNextBg(fs, NextGroup(s))
    ensures WalkResult(fs, s, TryNextBlock(fs, s))
    decreases GroupsLeft(fs, s), ClustersLeft(fs, s), 1
  {
    TryNextBgResult(fs, NextGroup(s));
    assert Position(fs, s.bgIndex, s.bgOffset) == Position(fs, s.bgIndex + 1, 0);
  }

  /** `TryNextBlock` on a block the bitmap marks as used. */
  lemma {:induction false} TryNextBlockInUse(fs: Filesystem, s: IterState)
    requires s.bgIndex < fs.groupDescCount && s.bgFlags == FetchFlags(fs, s.bgIndex)
    requires !BlockUninit(s.bgFlags) && s.bgOffset < fs.clustersPerGroup
    requires var block := BlockIndex(fs.clustersPerGroup, s.bgIndex, s.bgOffset);
      block < s.maxBlocks && fs.blockInUse(block)
    ensures TryNextBlock(fs, s) == TryNextBlock(fs, s.(bgOffset := s.bgOffset + 1))
    ensures WalkResult(fs, s, TryNextBlock(fs, s))
    decreases GroupsLeft(fs, s), ClustersLeft(fs, s), 1
  {
    var c := fs.clustersPerGroup;
    var block := BlockIndex(c, s.bgIndex, s.bgOffset);
    var next := s.(bgOffset := s.bgOffset + 1);
    var r := TryNextBlock(fs, next);
    TryNextBlockResult(fs, next);
    assert TryNextBlock(fs, s) == r;
    BlockIndexDivMod(c, s.bgIndex, s.bgOffset);
    assert Position(fs, s.bgIndex, s.bgOffset) == block;
    assert Position(fs, next.bgIndex, next.bgOffset) == block + 1;
    NoneReadableExtend(fs, s.maxBlocks, block, Position(fs, r.0.bgIndex, r.0.bgOffset));
  }

  /** The cases of `TryNextBlock` that end the walk where it stands. */
  lemma TryNextBlockStops(fs: Filesystem, s: IterState)
    requires s.bgIndex < fs.groupDescCount && s.bgFlags == FetchFlags(fs, s.bgIndex)
    requires !BlockUninit(s.bgFlags) && s.bgOffset < fs.clustersPerGroup
    requires var block := BlockIndex(fs.clustersPerGroup, s.bgIndex, s.bgOffset);
      block >= s.maxBlocks || !fs.blockInUse(block)
    ensures WalkResult(fs, s, TryNextBlock(fs, s))
  {
    var c := fs.clustersPerGroup;
    BlockIndexDivMod(c, s.bgIndex, s.bgOffset);
    assert Position(fs, s.bgIndex, s.bgOffset) == BlockIndex(c, s.bgIndex, s.bgOffset);
  }

  function ResumePosition(fs: Filesystem, s: IterState): nat
  {
    Position(fs, s.bgIndex, s.bgOffsetNext)
  }

  predicate StrictlyIncreasing(xs: seq<nat>)
  {
    forall i, j :: 0 <= i < j < |xs| ==> xs[i] < xs[j]
  }

  /** Blocks handed out correctly: ascending, none is block 0, each was readable. */
  ghost predicate HandedOut(fs: Filesystem, maxBlocks: nat, blocks: seq<nat>)
  {
    && StrictlyIncreasing(blocks)
    && forall i :: 0 <= i < |blocks| ==> 0 < blocks[i] && Readable(fs, maxBlocks, blocks[i])
  }

  /**
   * The iterator invariant, given the blocks handed out so far: they were
   * handed out correctly and all lie before the resume point.
   */
  ghost predicate Inv(fs: Filesystem, s: IterState, yielded: seq<nat>)
  {
    && 1 <= s.bgOffsetNext
    && (fs.clustersPerGroup == 0 || s.bgOffsetNext <= fs.clustersPerGroup)
    && FlagsCached(fs, s)
    && HandedOut(fs, s.maxBlocks, yielded)
    && (forall i :: 0 <= i < |yielded| ==> yielded[i] < ResumePosition(fs, s))
  }

  lemma InitEstablishesInv(fs: Filesystem, maxBlocks: nat)
    ensures Inv(fs, InitState(maxBlocks), [])
  {
  }

  /**
   * Every call keeps the invariant: a yielded block comes after every block
   * yielded before (so none repeats), is not block 0, is free, below capacity
   * and outside uninitialised groups.
   */
  lemma StepPreservesInv(fs: Filesystem, s: IterState, yielded: seq<nat>, bufSize: nat)
    requires Inv(fs, s, yielded)
    ensures var (s', o) := Step(fs, s, bufSize);
      && (o.Yielded? ==> Inv(fs, s', yielded + [o.block]))
      && (!o.Yielded? ==> Inv(fs, s', yielded))
  {
    if bufSize == fs.blocksize {
      var s0 := s.(bgOffset := s.bgOffsetNext);
      TryNextBgResult(fs, s0);
      var (s', o) := TryNextBg(fs, s0);
      PositionMonotone(fs, s.bgIndex, s.bgOffsetNext, s'.bgIndex, s.bgOffsetNext);
      if o.Yielded? {
        var c := fs.clustersPerGroup;
        BlockIndexDivMod(c, s'.bgIndex, s'.bgOffset);
        assert ResumePosition(fs, s') == o.block + 1;
        if |yielded| == 0 {
          assert ResumePosition(fs, s) >= 1 by {
            MulMonotone(0, s.bgIndex, c);
          }
        }
      }
    }
  }

  /** A buffer of the wrong size is refused with -EINVAL and nothing changes. */
  lemma WrongBufferSize(fs: Filesystem, s: IterState, bufSize: nat)
    ensures Step(fs, s, bufSize).1 == InvalidArgument <==> bufSize != Blocksize(fs)
    ensures bufSize != Blocksize(fs) ==> Step(fs, s, bufSize).0 == s
  {
  }

  /** Once every group has been visited, each call returns -ERANGE and stays there. */
  lemma ExhaustedIsFinal(fs: Filesystem, s: IterState)
    requires s.bgIndex >= fs.groupDescCount
    ensures Step(fs, s, Blocksize(fs)) == (s.(bgOffset := s.bgOffsetNext), OutOfRange)
  {
  }

  /** A failed read leaves the resume point alone, while any group skipping done on the way persists. */
  lemma ReadErrorKeepsResumePoint(fs: Filesystem, s: IterState)
    requires FlagsCached(fs, s) && Step(fs, s, Blocksize(fs)).1.ReadError?
    ensures var s' := Step(fs, s, Blocksize(fs)).0;
      s'.bgOffsetNext == s.bgOffsetNext && s'.bgIndex >= s.bgIndex
      && s'.bgOffset < fs.clustersPerGroup
      && Readable(fs, s.maxBlocks, BlockIndex(fs.clustersPerGroup, s'.bgIndex, s'.bgOffset))
  {
    TryNextBgResult(fs, s.(bgOffset := s.bgOffsetNext));
  }

  /**
   * -ERANGE is final: whether the groups ran out or the device capacity was
   * reached, the next call returns -ERANGE again.
   */
  lemma OutOfRangeIsFinal(fs: Filesystem, s: IterState, yielded: seq<nat>)
    requires Inv(fs, s, yielded) && Step(fs, s, Blocksize(fs)).1 == OutOfRange
    ensures var s' := Step(fs, s, Blocksize(fs)).0;
      Step(fs, s', Blocksize(fs)).1 == OutOfRange
  {
    var s0 := s.(bgOffset := s.bgOffsetNext);
    TryNextBgResult(fs, s0);
    var s' := TryNextBg(fs, s0).0;
    var t := s'.(bgOffset := s'.bgOffsetNext);
    if s'.bgIndex < fs.groupDescCount {
      // Every block from the resume point on is beyond capacity or was passed
      // over, so the walk from it cannot stop at a readable block.
      TryNextBgResult(fs, t);
      PositionMonotone(fs, s.bgIndex, s.bgOffsetNext, s'.bgIndex, s.bgOffsetNext);
    }
  }

  /** The outcomes of `n` successive calls, each with a buffer of the right size. */
  function Run(fs: Filesystem, s: IterState, n: nat): (r: seq<Outcome>)
    ensures |r| == n
    decreases n
  {
    if n == 0 then []
    else
      var (s', o) := Step(fs, s, Blocksize(fs));
      [o] + Run(fs, s', n - 1)
  }

  /** The blocks among some outcomes, in order. */
  function YieldedBlocks(os: seq<Outcome>): seq<nat>
  {
    if os == [] then []
    else (if os[0].Yielded? then [os[0].block] else []) + YieldedBlocks(os[1..])
  }

  /**
   * Over any number of calls, the blocks handed out ascend strictly (so no
   * block is handed out twice) and each was free, below capacity, outside
   * uninitialised groups and not block 0.
   */
  lemma {:induction false} RunInv(fs: Filesystem, s: IterState, yielded: seq<nat>, n: nat)
    requires Inv(fs, s, yielded)
    ensures HandedOut(fs, s.maxBlocks, yielded + YieldedBlocks(Run(fs, s, n)))
    decreases n
  {
    if n == 0 {
      assert yielded + YieldedBlocks(Run(fs, s, n)) == yielded;
    } else {
      var (s', o) := Step(fs, s, Blocksize(fs));
      var run := Run(fs, s, n);
      assert run[0] == o && run[1..] == Run(fs, s', n - 1);
      StepPreservesInv(fs, s, yielded, Blocksize(fs));
      var head := if o.Yielded? then [o.block] else [];
      RunInv(fs, s', yielded + head, n - 1);
      var rest := YieldedBlocks(Run(fs, s', n - 1));
      assert YieldedBlocks(run) == head + rest;
      assert yielded + YieldedBlocks(run) == (yielded + head) + rest;
    }
  }

  /** From a fresh iterator, no block is handed out twice, whatever the number of calls. */
  lemma RunFromInit(fs: Filesystem, maxBlocks: nat, n: nat)
    ensures HandedOut(fs, maxBlocks, YieldedBlocks(Run(fs, InitState(maxBlocks), n)))
  {
    RunInv(fs, InitState(maxBlocks), [], n);
    assert [] + YieldedBlocks(Run(fs, InitState(maxBlocks), n)) == YieldedBlocks(Run(fs, InitState(maxBlocks), n));
  }

  /** After a -ERANGE, every later call returns -ERANGE. */
  lemma {:induction false} RunAfterOutOfRange(fs: Filesystem, s: IterState, yielded: seq<nat>, n: nat)
    requires Inv(fs, s, yielded) && Step(fs, s, Blocksize(fs)).1 == OutOfRange
    ensures forall i :: 0 <= i < n ==> Run(fs, Step(fs, s, Blocksize(fs)).0, n)[i] == OutOfRange
    decreases n
  {
    if n > 0 {
      var s' := Step(fs, s, Blocksize(fs)).0;
      StepPreservesInv(fs, s, yielded, Blocksize(fs));
      OutOfRangeIsFinal(fs, s, yielded);
      RunAfterOutOfRange(fs, s', yielded, n - 1);
    }
  }

  /** The iterator's state after `n` successive calls with a buffer of the right size. */
  function After(fs: Filesystem, s: IterState, n: nat): (r: IterState)
    ensures r.maxBlocks == s.maxBlocks
    decreases n
  {
    if n == 0 then s else After(fs, Step(fs, s, Blocksize(fs)).0, n - 1)
  }

  /**
   * No block was passed over: every readable block of an existing group
   * between block 1 and the resume point has been handed out.
   */
  ghost predicate Complete(fs: Filesystem, s: IterState, yielded: seq<nat>)
  {
    forall b: nat ::
      (1 <= b < ResumePosition(fs, s) && b < fs.groupDescCount * fs.clustersPerGroup
       && Readable(fs, s.maxBlocks, b)) ==> b in yielded
  }

  /** A call that does not fail to read keeps every readable block before the resume point handed out. */
  lemma StepComplete(fs: Filesystem, s: IterState, yielded: seq<nat>, bufSize: nat)
    requires Inv(fs, s, yielded) && Complete(fs, s, yielded)
    requires !Step(fs, s, bufSize).1.ReadError?
    ensures var (s', o) := Step(fs, s, bufSize);
      Complete(fs, s', yielded + (if o.Yielded? then [o.block] else []))
  {
    if bufSize == fs.blocksize {
      var s0 := s.(bgOffset := s.bgOffsetNext);
      TryNextBgResult(fs, s0);
      var (s', o) := TryNextBg(fs, s0);
      var c := fs.clustersPerGroup;
      if o.Yielded? {
        BlockIndexDivMod(c, s'.bgIndex, s'.bgOffset);
        assert ResumePosition(fs, s') == o.block + 1;
      } else if s'.bgIndex >= fs.groupDescCount {
        MulMonotone(fs.groupDescCount, s'.bgIndex, c);
      }
    }
  }

  /**
   * Over calls none of which fails to read, no readable block is skipped:
   * every readable block of an existing group before the final resume point
   * is among the blocks handed out.
   */
  lemma {:induction false} RunComplete(fs: Filesystem, s: IterState, yielded: seq<nat>, n: nat)
    requires Inv(fs, s, yielded) && Complete(fs, s, yielded)
    requires forall i :: 0 <= i < n ==> !Run(fs, s, n)[i].ReadError?
    ensures Complete(fs, After(fs, s, n), yielded + YieldedBlocks(Run(fs, s, n)))
    decreases n
  {
    if n == 0 {
      assert yielded + YieldedBlocks(Run(fs, s, n)) == yielded;
    } else {
      var (s', o) := Step(fs, s, Blocksize(fs));
      var run := Run(fs, s, n);
      assert run[0] == o && run[1..] == Run(fs, s', n - 1);
      StepPreservesInv(fs, s, yielded, Blocksize(fs));
      StepComplete(fs, s, yielded, Blocksize(fs));
      var head := if o.Yielded? then [o.block] else [];
      var tail := Run(fs, s', n - 1);
      forall i | 0 <= i < |tail|
        ensures !tail[i].ReadError?
      {
        assert tail[i] == run[i + 1];
      }
      RunComplete(fs, s', yielded + head, n - 1);
      var rest := YieldedBlocks(tail);
      assert YieldedBlocks(run) == head + rest;
      assert yielded + YieldedBlocks(run) == (yielded + head) + rest;
    }
  }

  /**
   * From a fresh iterator, as long as no read fails, the blocks handed out are
   * exactly the readable blocks of existing groups from block 1 up to the
   * resume point: none is skipped (here) and none is wrong (`RunFromInit`).
   */
  lemma RunFromInitComplete(fs: Filesystem, maxBlocks: nat, n: nat)
    requires forall i :: 0 <= i < n ==> !Run(fs, InitState(maxBlocks), n)[i].ReadError?
    ensures forall b: nat ::
      (1 <= b < ResumePosition(fs, After(fs, InitState(maxBlocks), n))
       && b < fs.groupDescCount * fs.clustersPerGroup && Readable(fs, maxBlocks, b))
      ==> b in YieldedBlocks(Run(fs, InitState(maxBlocks), n))
  {
    var s := InitState(maxBlocks);
    assert ResumePosition(fs, s) <= 1;
    RunComplete(fs, s, [], n);
    assert [] + YieldedBlocks(Run(fs, s, n)) == YieldedBlocks(Run(fs, s, n));
  }

  // ---------------------------------------------------------------------
  // Worked examples
  // ---------------------------------------------------------------------

  lemma RunStep(fs: Filesystem, s: IterState, n: nat, s': IterState, o: Outcome)
    requires n > 0 && Step(fs, s, Blocksize(fs)) == (s', o)
    ensures Run(fs, s, n) == [o] + Run(fs, s', n - 1)
  {
  }

  /**
   * Two groups of 8 blocks with the checksum feature; blocks 0 to 2 are in
   * use and group 1 is flagged BLOCK_UNINIT.
   */
  function UninitExample(): Filesystem
  {
    Filesystem(2, 8, 1, true, (g: nat) => if g == 1 then BG_BLOCK_UNINIT else 0,
      (b: nat) => b <= 2, (b: nat) => ReadOk([0]))
  }

  /** `n` successful calls handing out the blocks `first`, `first + 1`, ... */
  function YieldsFrom(first: nat, n: nat): seq<Outcome>
    decreases n
  {
    if n == 0 then [] else [Yielded(first)] + YieldsFrom(first + 1, n - 1)
  }

  lemma UninitExampleFirstCall(maxBlocks: nat)
    requires maxBlocks > 3
    ensures Step(UninitExample(), InitState(maxBlocks), 1) == (IterState(0, 3, 4, 0, maxBlocks), Yielded(3))
  {
    var fs := UninitExample();
    var s := IterState(0, 1, 1, 0, maxBlocks);
    assert FetchFlags(fs, 0) == 0;
    assert TryNextBlock(fs, s.(bgOffset := 3)) == (IterState(0, 3, 4, 0, maxBlocks), Yielded(3));
    assert TryNextBlock(fs, s.(bgOffset := 2)) == TryNextBlock(fs, s.(bgOffset := 3));
    assert TryNextBlock(fs, s) == TryNextBlock(fs, s.(bgOffset := 2));
    assert TryNextBg(fs, s.(bgFlags := FLAGS_UNSET)) == TryNextBlock(fs, s);
  }

  lemma UninitExampleLaterCall(offset: nat, maxBlocks: nat)
    requires 3 <= offset < 7 && offset + 1 < maxBlocks
    ensures Step(UninitExample(), IterState(0, offset, offset + 1, 0, maxBlocks), 1)
         == (IterState(0, offset + 1, offset + 2, 0, maxBlocks), Yielded(offset + 1))
  {
    var fs := UninitExample();
    var s := IterState(0, offset + 1, offset + 1, 0, maxBlocks);
    assert BlockIndex(8, 0, offset + 1) == offset + 1;
    assert !fs.blockInUse(offset + 1) && fs.readBlock(offset + 1) == ReadOk([0]);
    assert TryNextBlock(fs, s) == (s.(bgOffsetNext := offset + 2), Yielded(offset + 1));
    assert TryNextBg(fs, s) == TryNextBlock(fs, s);
  }

  /** The call after block `last - 1`: the capacity, or the end of group 0 and the skip of group 1. */
  lemma UninitExampleLastCall(maxBlocks: nat)
    requires maxBlocks > 3
    ensures var last := Min(maxBlocks, 8);
      Step(UninitExample(), IterState(0, last - 1, last, 0, maxBlocks), 1).1 == OutOfRange
  {
    var fs := UninitExample();
    var last := Min(maxBlocks, 8);
    var s := IterState(0, last, last, 0, maxBlocks);
    if maxBlocks < 8 {
      assert BlockIndex(8, 0, last) == maxBlocks;
      assert TryNextBlock(fs, s) == (s, OutOfRange);
    } else {
      assert FetchFlags(fs, 1) == BG_BLOCK_UNINIT;
      assert TryNextBg(fs, NextGroup(s)) == TryNextBg(fs, IterState(2, 0, 8, -1, maxBlocks));
      assert TryNextBlock(fs, s) == TryNextBg(fs, NextGroup(s));
    }
    assert TryNextBg(fs, s) == TryNextBlock(fs, s);
  }

  lemma {:induction false} UninitExampleFrom(offset: nat, maxBlocks: nat)
    requires 3 <= offset < Min(maxBlocks, 8)
    ensures var last := Min(maxBlocks, 8);
      Run(UninitExample(), IterState(0, offset, offset + 1, 0, maxBlocks), last - offset)
      == YieldsFrom(offset + 1, last - offset - 1) + [OutOfRange]
    decreases 8 - offset
  {
    var fs := UninitExample();
    var last := Min(maxBlocks, 8);
    var s := IterState(0, offset, offset + 1, 0, maxBlocks);
    if offset + 1 == last {
      UninitExampleLastCall(maxBlocks);
      var (s', o) := Step(fs, s, 1);
      RunStep(fs, s, 1, s', o);
    } else {
      var s' := IterState(0, offset + 1, offset + 2, 0, maxBlocks);
      UninitExampleLaterCall(offset, maxBlocks);
      UninitExampleFrom(offset + 1, maxBlocks);
      RunStep(fs, s, last - offset, s', Yielded(offset + 1));
    }
  }

  /**
   * From a fresh iterator with capacity at least 4, the blocks from 3 up to
   * the capacity or the end of group 0 come out in order, then -ERANGE; group
   * 1 never appears. With capacity 16 that is blocks 3 to 7, with capacity 5
   * blocks 3 and 4.
   */
  lemma UninitGroupSkipped(maxBlocks: nat)
    requires maxBlocks > 3
    ensures var last := Min(maxBlocks, 8);
      Run(UninitExample(), InitState(maxBlocks), last - 2)
      == YieldsFrom(3, last - 3) + [OutOfRange]
  {
    var fs := UninitExample();
    var last := Min(maxBlocks, 8);
    UninitExampleFirstCall(maxBlocks);
    UninitExampleFrom(3, maxBlocks);
    RunStep(fs, InitState(maxBlocks), last - 2, IterState(0, 3, 4, 0, maxBlocks), Yielded(3));
  }

  /**
   * No checksum feature, two groups of 8 blocks; blocks 1 to 4, 6 and 7 are
   * in use and block 8, the first of group 1, cannot be read.
   */
  function ReadErrorExample(): Filesystem
  {
    Filesystem(2, 8, 1, false, (g: nat) => 0,
      (b: nat) => 1 <= b <= 4 || b == 6 || b == 7,
      (b: nat) => if b == 8 then ReadFailed(5) else ReadOk([0]))
  }

  lemma ReadErrorExampleFirstCall()
    ensures Step(ReadErrorExample(), InitState(16), 1) == (IterState(0, 5, 6, 0, 16), Yielded(5))
  {
    var fs := ReadErrorExample();
    var s := IterState(0, 1, 1, 0, 16);
    assert TryNextBlock(fs, s.(bgOffset := 5)) == (IterState(0, 5, 6, 0, 16), Yielded(5));
    assert TryNextBlock(fs, s.(bgOffset := 4)) == TryNextBlock(fs, s.(bgOffset := 5));
    assert TryNextBlock(fs, s.(bgOffset := 3)) == TryNextBlock(fs, s.(bgOffset := 4));
    assert TryNextBlock(fs, s.(bgOffset := 2)) == TryNextBlock(fs, s.(bgOffset := 3));
  }

  lemma ReadErrorExampleSecondCall()
    ensures Step(ReadErrorExample(), IterState(0, 5, 6, 0, 16), 1) == (IterState(1, 0, 6, 0, 16), ReadError(5))
  {
    var fs := ReadErrorExample();
    assert TryNextBlock(fs, IterState(0, 8, 6, 0, 16)) == (IterState(1, 0, 6, 0, 16), ReadError(5));
    assert TryNextBlock(fs, IterState(0, 7, 6, 0, 16)) == TryNextBlock(fs, IterState(0, 8, 6, 0, 16));
  }

  lemma ReadErrorExampleThirdCall()
    ensures Step(ReadErrorExample(), IterState(1, 0, 6, 0, 16), 1) == (IterState(1, 6, 7, 0, 16), Yielded(14))
  {
  }

  /**
   * After the failed read of block 8 the iterator stays in group 1 but keeps
   * the resume offset 6 from group 0, so the retry hands out block 14 and the
   * free blocks 9 to 13 are never visited.
   */
  lemma ReadErrorSkipsAhead()
    ensures Run(ReadErrorExample(), InitState(16), 3) == [Yielded(5), ReadError(5), Yielded(14)]
    ensures forall b: nat :: 9 <= b < 14 ==> Readable(ReadErrorExample(), 16, b)
  {
    var fs := ReadErrorExample();
    var s1, s2, s3 := IterState(0, 5, 6, 0, 16), IterState(1, 0, 6, 0, 16), IterState(1, 6, 7, 0, 16);
    ReadErrorExampleFirstCall();
    ReadErrorExampleSecondCall();
    ReadErrorExampleThirdCall();
    assert Run(fs, s3, 0) == [];
    RunStep(fs, s2, 1, s3, Yielded(14));
    assert Run(fs, s2, 1) == [Yielded(14)];
    RunStep(fs, s1, 2, s2, ReadError(5));
    assert Run(fs, s1, 2) == [ReadError(5), Yielded(14)];
    RunStep(fs, InitState(16), 3, s1, Yielded(5));
    ReadErrorExampleGapReadable();
  }

  /** Blocks 9 to 13, which the retry skips, are free blocks of an initialised group. */
  lemma ReadErrorExampleGapReadable()
    ensures forall b: nat :: 9 <= b < 14 ==> Readable(ReadErrorExample(), 16, b)
  {
    forall b: nat | 9 <= b < 14
      ensures Readable(ReadErrorExample(), 16, b)
    {
      BlockIndexDivMod(8, 1, b - 8);
    }
  }

  // ---------------------------------------------------------------------
  // The iterator object (`struct e2ntropy_iter`)
  // ---------------------------------------------------------------------

  class Iterator {
    /** `iter->ctx->fs` */
    const fs: Filesystem
    var bgIndex: nat
    var bgOffset: nat
    var bgOffsetNext: nat
    var bgFlags: int
    var maxBlocks: nat
    /** The blocks handed out so far, oldest first. */
    ghost var yielded: seq<nat>

    function State(): IterState
      reads this
    {
      IterState(bgIndex, bgOffset, bgOffsetNext, bgFlags, maxBlocks)
    }

    ghost predicate Valid()
      reads this
    {
      WellFormed(fs) && Inv(fs, State(), yielded)
    }

    /**
     * `e2ntropy_iter_init`, with the device capacity already queried:
     * zeroed fields, flags unset and resume offset 1, so block 0 is never read.
     */
    constructor (fs: Filesystem, maxBlocks: nat)
      requires WellFormed(fs)
      ensures Valid() && this.fs == fs && yielded == []
      ensures State() == InitState(maxBlocks)
    {
      this.fs := fs;
      bgIndex, bgOffset, bgOffsetNext, bgFlags := 0, 0, 1, FLAGS_UNSET;
      this.maxBlocks := maxBlocks;
      yielded := [];
    }

    /**
     * `e2ntropy_iter_next(iter, buf->Length, buf)`: the buffer check, then
     * the walk from the resume point.
     */
    method Next(buf: array<Entropy.Byte>) returns (err: int)
      requires Valid()
      modifies this, buf
      ensures Valid()
      ensures var (s', o) := Step(fs, old(State()), buf.Length);
        && State() == s' && err == Code(o)
        && yielded == old(yielded) + (if o.Yielded? then [o.block] else [])
        && (o.Yielded? ==> fs.readBlock(o.block) == ReadOk(buf[..]))
        && (!o.Yielded? ==> buf[..] == old(buf[..]))
    {
      StepPreservesInv(fs, State(), yielded, buf.Length);
      if buf.Length != fs.blocksize {
        return -EINVAL;
      }
      bgOffset := bgOffsetNext;
      err := WalkGroups(buf);
    }

    /**
     * The loop at label `try_next_bg`, one iteration per group. Both ways of
     * leaving a group (its flags say BLOCK_UNINIT, or `ScanGroup` used up
     * its offsets) move to the next group alike.
     */
    method WalkGroups(buf: array<Entropy.Byte>) returns (err: int)
      requires WellFormed(fs) && buf.Length == fs.blocksize
      modifies this`bgIndex, this`bgOffset, this`bgOffsetNext, this`bgFlags, this`yielded, buf
      ensures var (s', o) := TryNextBg(fs, old(State()));
        && State() == s' && err == Code(o)
        && yielded == old(yielded) + (if o.Yielded? then [o.block] else [])
        && (o.Yielded? ==> fs.readBlock(o.block) == ReadOk(buf[..]))
        && (!o.Yielded? ==> buf[..] == old(buf[..]))
    {
      ghost var post := TryNextBg(fs, State());
      while true
        invariant TryNextBg(fs, State()) == post
        invariant yielded == old(yielded) && buf[..] == old(buf[..])
        decreases GroupsLeft(fs, State())
      {
        if bgIndex >= fs.groupDescCount {
          return -ERANGE;
        }
        if bgFlags == FLAGS_UNSET {
          bgFlags := FetchFlags(fs, bgIndex);
        }
        assert post == if BlockUninit(bgFlags) then TryNextBg(fs, NextGroup(State())) else TryNextBlock(fs, State());
        if !BlockUninit(bgFlags) {
          var finished;
          err, finished := ScanGroup(buf);
          if finished {
            return;
          }
        }
        ghost var next := NextGroup(State());
        assert post == TryNextBg(fs, next);
        bgIndex, bgOffset, bgFlags := bgIndex + 1, 0, FLAGS_UNSET;
        assert State() == next;
      }
    }

    /**
     * The loop at label `try_next_block` over the offsets of the current
     * group. It either finishes the call, with the outcome `TryNextBlock`
     * describes, or runs off the end of the group with nothing else changed.
     */
    method ScanGroup(buf: array<Entropy.Byte>) returns (err: int, finished: bool)
      requires WellFormed(fs) && buf.Length == fs.blocksize
      requires bgIndex < fs.groupDescCount
      modifies this`bgOffset, this`bgOffsetNext, this`yielded, buf
      ensures var (s', o) := TryNextBlock(fs, old(State()));
        if finished then
          && State() == s' && err == Code(o)
          && yielded == old(yielded) + (if o.Yielded? then [o.block] else [])
          && (o.Yielded? ==> fs.readBlock(o.block) == ReadOk(buf[..]))
          && (!o.Yielded? ==> buf[..] == old(buf[..]))
        else
          && bgOffset >= fs.clustersPerGroup && bgOffsetNext == old(bgOffsetNext)
          && TryNextBg(fs, NextGroup(State())) == (s', o)
          && yielded == old(yielded) && buf[..] == old(buf[..])
    {
      ghost var post := TryNextBlock(fs, State());
      while bgOffset < fs.clustersPerGroup
        invariant TryNextBlock(fs, State()) == post
        invariant bgOffsetNext == old(bgOffsetNext)
        invariant yielded == old(yielded) && buf[..] == old(buf[..])
        decreases fs.clustersPerGroup - bgOffset
      {
        var block := BlockIndex(fs.clustersPerGroup, bgIndex, bgOffset);
        if block >= maxBlocks {
          return -ERANGE, true;
        }
        if !fs.blockInUse(block) {
          match fs.readBlock(block)
          case ReadFailed(code) =>
            return code, true;
          case ReadOk(data) =>
            forall i | 0 <= i < buf.Length {
              buf[i] := data[i];
            }
            bgOffsetNext := bgOffset + 1;
            yielded := yielded + [block];
            return 0, true;
        }
        bgOffset := bgOffset + 1;
      }
      return 0, false;
    }
  }
}
