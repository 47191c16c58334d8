/**
 Where the counters, the ring and the event flag word lie in shared memory: the descriptor's
 offsets, the size of the region made for them, and the pages mapped to reach them. Sizes are
 64 bits wide, offsets 32, and mmap's arguments are signed 32-bit integers.

 The program rounds with bit masks; `WordMask` and `PageMask` say what they do to the numbers.
 */
module Layout {
  import opened Prelude
  import Bits
  import Ring

  const SIZE_MAX: nat := Ring.TWO_TO_64 - 1
  const INT_MAX: nat := 0x7FFF_FFFF
  const TWO_TO_32: nat := 0x1_0000_0000
  const WORD: nat := 8
  const COUNTER_SIZE: nat := 8
  const FLAG_SIZE: nat := 4

  /** Positions of the grantors. */
  const READPTRPOS: nat := 0
  const WRITEPTRPOS: nat := 1
  const DATAPTRPOS: nat := 2
  const EVFLAGWORDPOS: nat := 3

  // ----- widths and rounding -----

  /** What a 64-bit and a 32-bit unsigned variable keep of x. */
  function Wrap64(x: int): (r: nat)
    ensures 0 <= x <= SIZE_MAX ==> r == x
  {
    x % Ring.TWO_TO_64
  }

  function Wrap32(x: int): (r: nat)
    ensures 0 <= x < TWO_TO_32 ==> r == x
  {
    x % TWO_TO_32
  }

  function RoundDown(x: nat, unit: nat): nat
    requires unit > 0
  {
    x - x % unit
  }

  /** x rounded up, where nothing overflows. */
  function RoundUp(x: nat, unit: nat): nat
    requires unit > 0
  {
    RoundDown(x + unit - 1, unit)
  }

  /** RoundUp gives the least multiple that is large enough. */
  lemma RoundUpLeast(x: nat, unit: nat, m: nat)
    requires unit > 0
    ensures x <= RoundUp(x, unit) < x + unit && RoundUp(x, unit) % unit == 0
    ensures m % unit == 0 && x <= m ==> RoundUp(x, unit) <= m
  {
    var y := x + unit - 1;
    assert y == y / unit * unit + y % unit;
    DivModUnique(RoundUp(x, unit), unit, y / unit, 0);
    if m % unit == 0 && x <= m < RoundUp(x, unit) {
      LapDistinct(m, RoundUp(x, unit), unit);
    }
  }

  /** What getpagesize() may return. */
  ghost predicate IsPageSize(pageSize: nat) {
    exists k: nat :: k <= 30 && Bits.Pow2(k) == pageSize
  }

  lemma PageSizes(pageSize: nat)
    requires IsPageSize(pageSize)
    ensures 0 < pageSize < INT_MAX && (INT_MAX + 1) % pageSize == 0
  {
    var k: nat :| k <= 30 && Bits.Pow2(k) == pageSize;
    Bits.Pow2Values();
    Bits.Pow2Divides(k, 30);
    Bits.Pow2Divides(k, 31);
  }

  lemma PageSizeBound(pageSize: nat)
    requires IsPageSize(pageSize)
    ensures 0 < pageSize < INT_MAX
  {
    PageSizes(pageSize);
  }

  lemma RoundUpBound(x: nat)
    ensures x <= RoundUp(x, WORD) < x + WORD
  {
    RoundUpLeast(x, WORD, 0);
  }

  /** Masking with the complement of 7 rounds down to a word, and masking with 7 leaves what that takes away. */
  lemma WordMask(x: nat)
    requires x <= SIZE_MAX
    ensures Bits.And(x, SIZE_MAX - (WORD - 1)) == RoundDown(x, WORD)
    ensures Bits.And(x, WORD - 1) == x % WORD
  {
    hide Bits.And;
    Bits.Pow2Values();
    Bits.LowMask(x, 3);
    Bits.HighMask(x, 3, 64);
  }

  /** Masking with the complement of a page size less one rounds down to a page. */
  lemma PageMask(x: nat, pageSize: nat)
    requires x <= SIZE_MAX && IsPageSize(pageSize)
    ensures 0 < pageSize <= SIZE_MAX && Bits.And(x, SIZE_MAX - (pageSize - 1)) == RoundDown(x, pageSize)
  {
    hide Bits.And, Bits.Pow2;
    PageSizeBound(pageSize);
    var k: nat :| k <= 30 && Bits.Pow2(k) == pageSize;
    Bits.Pow2Values();
    Bits.HighMask(x, k, 64);
  }

  /** What the constructor computes to reach whole pages, in 64 bits. */
  function PageAligned(x: nat, pageSize: nat): nat
    requires 0 < pageSize <= SIZE_MAX
  {
    Bits.And(Wrap64(x + pageSize - 1), SIZE_MAX - (pageSize - 1))
  }

  lemma PageRounds(x: nat, pageSize: nat)
    requires IsPageSize(pageSize) && x + pageSize - 1 <= SIZE_MAX
    ensures 0 < pageSize <= SIZE_MAX
    ensures PageAligned(x, pageSize) == RoundUp(x, pageSize)
  {
    PageSizes(pageSize);
    hide Bits.And, IsPageSize;
    PageMask(x + pageSize - 1, pageSize);
  }

  /** None where the program aborts. */
  function AlignToWordBoundary(length: nat): Option<nat> {
    if length <= SIZE_MAX - WORD + 1 then
      Some(Bits.And(Wrap64(length + WORD - 1), SIZE_MAX - (WORD - 1)))
    else
      None
  }

  function IsAlignedToWordBoundary(offset: nat): bool {
    Bits.And(offset, WORD - 1) == 0
  }

  /** It aborts exactly when the rounded length does not fit 64 bits. */
  lemma AlignMeaning(length: nat)
    ensures AlignToWordBoundary(length) ==
            if RoundUp(length, WORD) <= SIZE_MAX then Some(RoundUp(length, WORD)) else None
  {
    RoundUpLeast(length, WORD, Ring.TWO_TO_64);
    WordMask(Wrap64(length + WORD - 1));
    hide Bits.And;
    if length > SIZE_MAX - WORD + 1 && RoundUp(length, WORD) <= SIZE_MAX {
      LapDistinct(RoundUp(length, WORD), Ring.TWO_TO_64, WORD);
    }
  }

  lemma AlignMultiple(length: nat)
    requires length % WORD == 0 && length <= SIZE_MAX
    ensures AlignToWordBoundary(length) == Some(length)
  {
    RoundUpLeast(length, WORD, length);
    AlignMeaning(length);
  }

  // ----- the AIDL descriptor -----

  datatype GrantorDescriptor = GrantorDescriptor(flags: int, fdIndex: int, offset: int, extent: int)

  const NO_GRANTOR := GrantorDescriptor(0, 0, 0, 0)

  /** The sizes the AIDL descriptor takes: its largest offset and the message size fit 31 bits. */
  predicate Describable(bufferSize: nat, messageSize: nat) {
    RoundUp(2 * COUNTER_SIZE + bufferSize, WORD) <= INT_MAX && messageSize <= INT_MAX
  }

  /** Those are rings of at most 2^31 - 24 bytes. */
  lemma DescribableExactly(bufferSize: nat, messageSize: nat)
    ensures Describable(bufferSize, messageSize) <==> bufferSize <= INT_MAX - 23 && messageSize <= INT_MAX
  {
    RoundUpLeast(2 * COUNTER_SIZE + bufferSize, WORD, INT_MAX + 1 - WORD);
    hide RoundUp;
  }

  /** Counters, ring and event flag word, one after the other in one file. */
  function InOneFile(bufferSize: nat, withFlag: bool): seq<GrantorDescriptor> {
    [GrantorDescriptor(0, 0, 0, COUNTER_SIZE),
     GrantorDescriptor(0, 0, COUNTER_SIZE, COUNTER_SIZE),
     GrantorDescriptor(0, 0, 2 * COUNTER_SIZE, bufferSize)]
    + if withFlag then [GrantorDescriptor(0, 0, RoundUp(2 * COUNTER_SIZE + bufferSize, WORD), FLAG_SIZE)] else []
  }

  /** Counters and event flag word in one file, the ring in a second one. */
  function InTwoFiles(bufferSize: nat, withFlag: bool): seq<GrantorDescriptor> {
    [GrantorDescriptor(0, 0, 0, COUNTER_SIZE),
     GrantorDescriptor(0, 0, COUNTER_SIZE, COUNTER_SIZE),
     GrantorDescriptor(0, 1, 0, bufferSize)]
    + if withFlag then [GrantorDescriptor(0, 0, 2 * COUNTER_SIZE, FLAG_SIZE)] else []
  }

  function MemSize(bufferSize: nat): seq<nat> {
    [COUNTER_SIZE, COUNTER_SIZE, bufferSize, FLAG_SIZE]
  }

  /** Where the running offset stands before each position. */
  function OffsetBefore(bufferSize: nat, pos: nat): nat {
    match pos
    case 0 => 0
    case 1 => COUNTER_SIZE
    case 2 => 2 * COUNTER_SIZE
    case 3 => 2 * COUNTER_SIZE + bufferSize
    case _ => 2 * COUNTER_SIZE + bufferSize + FLAG_SIZE
  }

  /** One turn of the loop places the grantor the layout has there, without any wrap. */
  lemma OneFileStep(bufferSize: nat, withFlag: bool, pos: nat)
    requires RoundUp(2 * COUNTER_SIZE + bufferSize, WORD) <= INT_MAX && pos < |InOneFile(bufferSize, withFlag)|
    ensures var aligned := AlignToWordBoundary(OffsetBefore(bufferSize, pos));
            && aligned.Some? && InOneFile(bufferSize, withFlag)[pos] ==
                                GrantorDescriptor(0, 0, Wrap32(aligned.value), MemSize(bufferSize)[pos])
    ensures Wrap64(OffsetBefore(bufferSize, pos) + MemSize(bufferSize)[pos]) == OffsetBefore(bufferSize, pos + 1)
  {
    var total := 2 * COUNTER_SIZE + bufferSize;
    RoundUpLeast(total, WORD, 0);
    AlignMeaning(total);
    AlignMultiple(OffsetBefore(0, if pos <= DATAPTRPOS then pos else 0));
    var aligned := AlignToWordBoundary(OffsetBefore(bufferSize, pos));
    hide RoundUp, AlignToWordBoundary, Wrap64, Wrap32;
    assert aligned == Some(InOneFile(bufferSize, withFlag)[pos].offset);
  }

  class AidlMQDescriptorShim {
    var grantors: seq<GrantorDescriptor>
    var quantum: int

    /** The constructor for a new queue: no grantors unless the sizes can be described. */
    constructor (bufferSize: nat, messageSize: nat, configureEventFlag: bool)
      requires bufferSize <= SIZE_MAX && messageSize <= SIZE_MAX
      requires AlignToWordBoundary(Wrap64(2 * COUNTER_SIZE + bufferSize)).Some?
      ensures grantors == if Describable(bufferSize, messageSize) then InOneFile(bufferSize, configureEventFlag) else []
      ensures quantum == Wrap32(messageSize)
    {
      grantors, quantum := [], Wrap32(messageSize);
      new;
      AlignMeaning(2 * COUNTER_SIZE + bufferSize);
      RoundUpLeast(2 * COUNTER_SIZE + bufferSize, WORD, 0);
      hide RoundUp, AlignToWordBoundary, Wrap64, Wrap32;
      var overflow := bufferSize > SIZE_MAX - (COUNTER_SIZE + COUNTER_SIZE);
      var largestOffset := AlignToWordBoundary(Wrap64(2 * COUNTER_SIZE + bufferSize)).value;
      if overflow || largestOffset > INT_MAX || messageSize > INT_MAX {
        return;
      }
      grantors := seq(if configureEventFlag then EVFLAGWORDPOS + 1 else DATAPTRPOS + 1, _ => NO_GRANTOR);
      var memSize := MemSize(bufferSize);
      ghost var all := InOneFile(bufferSize, configureEventFlag);
      var grantorPos, offset := 0, 0;
      assert OffsetBefore(bufferSize, 0) == 0;
      hide MemSize, OffsetBefore;
      while grantorPos < |grantors|
        invariant 0 <= grantorPos <= |grantors| == |all|
        invariant offset == OffsetBefore(bufferSize, grantorPos)
        invariant grantors[..grantorPos] == all[..grantorPos]
        invariant quantum == Wrap32(messageSize)
      {
        OneFileStep(bufferSize, configureEventFlag, grantorPos);
        var aligned := AlignToWordBoundary(offset).value;
        ghost var before := grantors;
        grantors := grantors[grantorPos := GrantorDescriptor(0, 0, Wrap32(aligned), memSize[grantorPos])];
        assert grantors[..grantorPos + 1] == before[..grantorPos] + [all[grantorPos]] == all[..grantorPos + 1];
        offset := Wrap64(offset + memSize[grantorPos]);
        grantorPos := grantorPos + 1;
      }
      assert grantors == grantors[..grantorPos] == all[..grantorPos] == all;
    }
  }

  // ----- the memory of a new queue -----

  /** What the queue's constructor makes: a region of `regionSize` bytes for file 0 and the descriptor. */
  datatype Memory = Rejected | Aborted | Memory(regionSize: nat, grantors: seq<GrantorDescriptor>)

  function MetaDataSize(withFlag: bool): (size: nat)
    ensures 2 * COUNTER_SIZE <= size <= 2 * COUNTER_SIZE + FLAG_SIZE
  {
    2 * COUNTER_SIZE + if withFlag then FLAG_SIZE else 0
  }

  /** The region for one file, where nothing overflows. */
  function RegionSize(bufferSize: nat, withFlag: bool, pageSize: nat): nat
    requires pageSize > 0
  {
    RoundUp(RoundUp(bufferSize, WORD) + MetaDataSize(withFlag), pageSize)
  }

  /** n messages of `quantum` bytes are too many bytes for 64 bits exactly when the program's division says so. */
  lemma TooLarge(n: nat, quantum: nat)
    requires quantum > 0
    ensures n > SIZE_MAX / quantum <==> n * quantum > SIZE_MAX
  {
    var d := SIZE_MAX / quantum;
    assert SIZE_MAX == d * quantum + SIZE_MAX % quantum;
    if n > d {
      Ring.ScaleOrder(quantum, d + 1, n);
      assert quantum * (d + 1) == d * quantum + quantum;
    } else {
      Ring.ScaleOrder(quantum, n, d);
    }
  }

  /** One turn of that loop places the grantor the layout has there; the ring does not count. */
  lemma TwoFilesStep(bufferSize: nat, withFlag: bool, pos: nat)
    requires pos < |InTwoFiles(bufferSize, withFlag)|
    ensures var aligned := AlignToWordBoundary(if pos == DATAPTRPOS then 0 else OffsetBefore(0, pos));
            && aligned.Some?
            && InTwoFiles(bufferSize, withFlag)[pos] ==
               GrantorDescriptor(0, if pos == DATAPTRPOS then 1 else 0, Wrap32(aligned.value), MemSize(bufferSize)[pos])
    ensures |MemSize(bufferSize)| == 4
    ensures OffsetBefore(0, pos + 1) == OffsetBefore(0, pos) + if pos == DATAPTRPOS then 0 else MemSize(bufferSize)[pos]
  {
    AlignMultiple(if pos == DATAPTRPOS then 0 else OffsetBefore(0, pos));
    hide AlignToWordBoundary, Wrap32;
  }

  /** The grantors for user-supplied memory: the loop that skips the ring when it counts offsets. */
  method TwoFileGrantors(bufferSize: nat, configureEventFlag: bool) returns (grantors: seq<GrantorDescriptor>)
    ensures grantors == InTwoFiles(bufferSize, configureEventFlag)
  {
    grantors := seq(if configureEventFlag then EVFLAGWORDPOS + 1 else DATAPTRPOS + 1, _ => NO_GRANTOR);
    var memSize := MemSize(bufferSize);
    ghost var all := InTwoFiles(bufferSize, configureEventFlag);
    var grantorPos, offset := 0, 0;
    hide AlignToWordBoundary, MemSize, Wrap32;
    while grantorPos < |grantors|
      invariant 0 <= grantorPos <= |grantors| == |all|
      invariant offset == OffsetBefore(0, grantorPos)
      invariant grantors[..grantorPos] == all[..grantorPos]
    {
      TwoFilesStep(bufferSize, configureEventFlag, grantorPos);
      var grantorFdIndex, grantorOffset;
      if grantorPos == DATAPTRPOS {
        grantorFdIndex, grantorOffset := 1, 0;
      } else {
        grantorFdIndex, grantorOffset := 0, offset;
        offset := offset + memSize[grantorPos];
      }
      var aligned := AlignToWordBoundary(grantorOffset).value;
      ghost var before := grantors;
      grantors := grantors[grantorPos := GrantorDescriptor(0, grantorFdIndex, Wrap32(aligned), memSize[grantorPos])];
      assert grantors[..grantorPos + 1] == before[..grantorPos] + [all[grantorPos]] == all[..grantorPos + 1];
      grantorPos := grantorPos + 1;
    }
    assert grantors == grantors[..grantorPos] == all[..grantorPos] == all;
  }

  /** kAshmemSizePageAligned, in 64 bits; None where the program aborts. */
  function AshmemSize(queueSize: nat, withFlag: bool, userSupplied: bool, pageSize: nat): Option<nat>
    requires 0 < pageSize <= SIZE_MAX
  {
    if userSupplied then Some(PageAligned(MetaDataSize(withFlag), pageSize))
    else
      match AlignToWordBoundary(queueSize)
      case None => None
      case Some(aligned) => Some(PageAligned(aligned + MetaDataSize(withFlag), pageSize))
  }

  /** Enough whole pages, with no sum overflowing, unless the size is one that the descriptor refuses anyway. */
  lemma AshmemMeaning(queueSize: nat, withFlag: bool, pageSize: nat)
    requires IsPageSize(pageSize) && queueSize <= INT_MAX
    ensures 0 < pageSize < INT_MAX
    ensures AshmemSize(queueSize, withFlag, false, pageSize) == Some(RegionSize(queueSize, withFlag, pageSize))
  {
    hide RoundUp, AlignToWordBoundary, PageAligned, IsPageSize, MetaDataSize;
    PageSizeBound(pageSize);
    RoundUpBound(queueSize);
    AlignMeaning(queueSize);
    PageRounds(RoundUp(queueSize, WORD) + MetaDataSize(withFlag), pageSize);
  }

  /** With user-supplied memory only the counters and the flag word need room. */
  lemma AshmemForUser(queueSize: nat, withFlag: bool, pageSize: nat)
    requires IsPageSize(pageSize)
    ensures 0 < pageSize < INT_MAX
    ensures AshmemSize(queueSize, withFlag, true, pageSize) == Some(RoundUp(MetaDataSize(withFlag), pageSize))
  {
    hide RoundUp, AlignToWordBoundary, PageAligned, IsPageSize, MetaDataSize;
    PageSizeBound(pageSize);
    PageRounds(MetaDataSize(withFlag), pageSize);
  }

  lemma AshmemAborts(queueSize: nat, withFlag: bool, pageSize: nat)
    requires 0 < pageSize <= SIZE_MAX
    ensures AshmemSize(queueSize, withFlag, false, pageSize).None? <==> RoundUp(queueSize, WORD) > SIZE_MAX
  {
    hide RoundUp, AlignToWordBoundary, PageAligned;
    AlignMeaning(queueSize);
  }

  /** Where rounding overflows: a ring within 7 bytes of 2^64, or that becomes so with the counters. */
  predicate Aborts(queueSize: nat) {
    || queueSize > SIZE_MAX - (WORD - 1)
    || SIZE_MAX - (WORD - 1) < 2 * COUNTER_SIZE + queueSize <= SIZE_MAX
  }

  /** The region and the descriptor of a ring of `queueSize` bytes. */
  method Reserve(queueSize: nat, quantum: nat, configureEventFlag: bool, userSupplied: bool, pageSize: nat)
    returns (memory: Memory)
    requires queueSize <= SIZE_MAX && quantum <= SIZE_MAX && IsPageSize(pageSize)
    ensures pageSize > 0 && !memory.Rejected?
    ensures memory.Aborted? <==> !userSupplied && Aborts(queueSize)
    ensures userSupplied ==>
              && memory.regionSize == RoundUp(MetaDataSize(configureEventFlag), pageSize)
              && memory.grantors == InTwoFiles(queueSize, configureEventFlag)
    ensures !userSupplied && Describable(queueSize, quantum) ==>
              && !Aborts(queueSize)
              && memory.regionSize == RegionSize(queueSize, configureEventFlag, pageSize)
              && memory.grantors == InOneFile(queueSize, configureEventFlag)
    ensures !userSupplied && !Describable(queueSize, quantum) && !Aborts(queueSize) ==> memory.grantors == []
  {
    AbortMeaning(queueSize);
    RoundUpBound(2 * COUNTER_SIZE + queueSize);
    AshmemForUser(queueSize, configureEventFlag, pageSize);
    AshmemAborts(queueSize, configureEventFlag, pageSize);
    if Describable(queueSize, quantum) {
      AshmemMeaning(queueSize, configureEventFlag, pageSize);
    }
    hide RoundUp, AlignToWordBoundary, AshmemSize, Aborts, Wrap64, RegionSize, InOneFile, InTwoFiles;
    var region := AshmemSize(queueSize, configureEventFlag, userSupplied, pageSize);
    if region.None? {
      return Aborted;
    }
    if userSupplied {
      var grantors := TwoFileGrantors(queueSize, configureEventFlag);
      return Memory(region.value, grantors);
    }
    if AlignToWordBoundary(Wrap64(2 * COUNTER_SIZE + queueSize)).None? {
      return Aborted;
    }
    var descriptor := new AidlMQDescriptorShim(queueSize, quantum, configureEventFlag);
    return Memory(region.value, descriptor.grantors);
  }

  /** The two places where the program aborts do so exactly for these sizes, none of which the descriptor takes. */
  lemma AbortMeaning(queueSize: nat)
    requires queueSize <= SIZE_MAX
    ensures Aborts(queueSize) <==>
            || RoundUp(queueSize, WORD) > SIZE_MAX
            || AlignToWordBoundary(Wrap64(2 * COUNTER_SIZE + queueSize)).None?
    ensures Aborts(queueSize) ==> queueSize > INT_MAX
  {
    AlignMeaning(queueSize);
    hide RoundUp, Bits.And;
    var total := 2 * COUNTER_SIZE + queueSize;
    if total > SIZE_MAX {
      DivModUnique(total, Ring.TWO_TO_64, 1, total - Ring.TWO_TO_64);
    }
  }

  /** The queue's constructor up to the mapping; `userBuffer` is the size of user-supplied memory for the ring. */
  method NewQueue(n: nat, quantum: nat, configureEventFlag: bool, userBuffer: Option<nat>, pageSize: nat)
    returns (memory: Memory)
    requires n <= SIZE_MAX && 0 < quantum <= SIZE_MAX && 0 < pageSize && IsPageSize(pageSize)
    ensures memory.Rejected? <==>
            n == 0 || n * quantum > SIZE_MAX || (userBuffer.Some? && n * quantum > userBuffer.value)
    ensures memory.Aborted? <==> !memory.Rejected? && userBuffer.None? && Aborts(n * quantum)
    ensures memory.Memory? && userBuffer.Some? ==>
              && memory.regionSize == RoundUp(MetaDataSize(configureEventFlag), pageSize)
              && memory.grantors == InTwoFiles(n * quantum, configureEventFlag)
    ensures memory.Memory? && userBuffer.None? ==>
              memory.grantors ==
              if Describable(n * quantum, quantum) then InOneFile(n * quantum, configureEventFlag) else []
    ensures memory.Memory? && memory.grantors != [] && userBuffer.None? ==>
              memory.regionSize == RegionSize(n * quantum, configureEventFlag, pageSize)
  {
    TooLarge(n, quantum);
    hide Describable, Aborts, RoundUp, RegionSize, InOneFile, InTwoFiles, IsPageSize;
    if n > SIZE_MAX / quantum {
      return Rejected;
    }
    if n == 0 {
      return Rejected;
    }
    if userBuffer.Some? && n * quantum > userBuffer.value {
      return Rejected;
    }
    memory := Reserve(n * quantum, quantum, configureEventFlag, userBuffer.Some?, pageSize);
  }

  /** Two grantors share no byte. */
  predicate Apart(a: GrantorDescriptor, b: GrantorDescriptor) {
    a.fdIndex != b.fdIndex || a.offset + a.extent <= b.offset || b.offset + b.extent <= a.offset
  }

  /** Aligned, expressible as int32 and inside its file. */
  predicate InFile(g: GrantorDescriptor, fileSizes: seq<nat>) {
    && 0 <= g.offset <= INT_MAX && g.offset % WORD == 0
    && 0 <= g.fdIndex < |fileSizes| && 0 <= g.extent
    && g.offset + g.extent <= fileSizes[g.fdIndex]
  }

  /** Every grantor is, and apart from every other. */
  ghost predicate Sound(grantors: seq<GrantorDescriptor>, fileSizes: seq<nat>) {
    && (forall i | 0 <= i < |grantors| :: InFile(grantors[i], fileSizes))
    && (forall i, j | 0 <= i < j < |grantors| :: Apart(grantors[i], grantors[j]))
  }

  /** Every size the descriptor takes is laid out soundly, in a region of whole pages whose size no sum overflowed. */
  lemma OneFileSound(bufferSize: nat, messageSize: nat, withFlag: bool, pageSize: nat)
    requires Describable(bufferSize, messageSize) && 0 < pageSize < INT_MAX
    ensures Sound(InOneFile(bufferSize, withFlag), [RegionSize(bufferSize, withFlag, pageSize)])
    ensures RegionSize(bufferSize, withFlag, pageSize) % pageSize == 0
    ensures RegionSize(bufferSize, withFlag, pageSize) <= SIZE_MAX
  {
    RegionHolds(bufferSize, withFlag, pageSize);
    hide RoundUp, RegionSize;
    InARow(bufferSize, RoundUp(2 * COUNTER_SIZE + bufferSize, WORD), withFlag,
           RegionSize(bufferSize, withFlag, pageSize));
  }

  /** Counters, ring and, at `flagOffset`, the event flag word. */
  lemma InARow(bufferSize: nat, flagOffset: nat, withFlag: bool, region: nat)
    requires flagOffset % WORD == 0 && 2 * COUNTER_SIZE + bufferSize <= flagOffset <= INT_MAX
    requires flagOffset + (if withFlag then FLAG_SIZE else 0) <= region
    requires flagOffset == RoundUp(2 * COUNTER_SIZE + bufferSize, WORD)
    ensures Sound(InOneFile(bufferSize, withFlag), [region])
  {
    hide RoundUp;
    var all := InOneFile(bufferSize, withFlag);
    var sizes := [region];
    assert InFile(all[0], sizes) && InFile(all[1], sizes) && InFile(all[2], sizes);
    assert withFlag ==> InFile(all[3], sizes);
    hide InFile;
  }

  lemma RegionHolds(bufferSize: nat, withFlag: bool, pageSize: nat)
    requires RoundUp(2 * COUNTER_SIZE + bufferSize, WORD) <= INT_MAX && 0 < pageSize < INT_MAX
    ensures var flagOffset, region := RoundUp(2 * COUNTER_SIZE + bufferSize, WORD),
                                      RegionSize(bufferSize, withFlag, pageSize);
            && flagOffset % WORD == 0 && 2 * COUNTER_SIZE + bufferSize <= flagOffset
            && flagOffset + (if withFlag then FLAG_SIZE else 0) <= region <= SIZE_MAX && region % pageSize == 0
  {
    var ring := RoundUp(bufferSize, WORD);
    RoundUpLeast(bufferSize, WORD, 0);
    DivModUnique(ring + 2 * COUNTER_SIZE, WORD, ring / WORD + 2, 0);
    RoundUpLeast(2 * COUNTER_SIZE + bufferSize, WORD, ring + 2 * COUNTER_SIZE);
    RoundUpLeast(ring + MetaDataSize(withFlag), pageSize, 0);
    hide RoundUp;
  }

  lemma TwoFilesSound(bufferSize: nat, userBuffer: nat, withFlag: bool, pageSize: nat)
    requires bufferSize <= userBuffer && 0 < pageSize < INT_MAX
    ensures Sound(InTwoFiles(bufferSize, withFlag), [RoundUp(MetaDataSize(withFlag), pageSize), userBuffer])
  {
    RoundUpLeast(MetaDataSize(withFlag), pageSize, 0);
    hide RoundUp;
  }

  // ----- mapping -----

  /** The fields' widths. */
  predicate Typed(g: GrantorDescriptor) {
    0 <= g.fdIndex < TWO_TO_32 && 0 <= g.offset < TWO_TO_32 && 0 <= g.extent <= SIZE_MAX
  }

  /** Conversion to a signed 32-bit int. */
  function ToInt32(x: int): int {
    var u := Wrap32(x);
    if u > INT_MAX then u - TWO_TO_32 else u
  }

  function MapOffset(g: GrantorDescriptor, pageSize: nat): int
    requires pageSize > 0
  {
    ToInt32(g.offset / pageSize * pageSize)
  }

  /** offset - mapOffset, computed in unsigned 32 bits. */
  function Delta(g: GrantorDescriptor, pageSize: nat): nat
    requires pageSize > 0
  {
    Wrap32(g.offset - MapOffset(g, pageSize))
  }

  function MapLength(g: GrantorDescriptor, pageSize: nat): int
    requires pageSize > 0
  {
    ToInt32(Wrap64(Delta(g, pageSize) + g.extent))
  }

  /** The smallest extent a grantor may have. */
  function MinExtent(pos: nat): nat {
    if pos == READPTRPOS || pos == WRITEPTRPOS then COUNTER_SIZE
    else if pos == EVFLAGWORDPOS then FLAG_SIZE
    else 0
  }

  predicate Mappable(grantors: seq<GrantorDescriptor>, idx: nat, numFds: nat, pageSize: nat) {
    && idx < |grantors| && 0 <= ToInt32(grantors[idx].fdIndex) < numFds
    && grantors[idx].offset % WORD == 0 && grantors[idx].extent <= INT_MAX - pageSize
    && forall i | 0 <= i < |grantors| :: MinExtent(i) <= grantors[i].extent
  }

  /** Eight bytes for either counter, four for the flag word, and nothing of the ring or of what is unknown. */
  predicate Holds(grantors: seq<GrantorDescriptor>) {
    && (|grantors| > READPTRPOS ==> 8 <= grantors[READPTRPOS].extent)
    && (|grantors| > WRITEPTRPOS ==> 8 <= grantors[WRITEPTRPOS].extent)
    && (|grantors| > EVFLAGWORDPOS ==> 4 <= grantors[EVFLAGWORDPOS].extent)
  }

  /** An index of 2^31 or more is taken for a negative one. */
  lemma FileIndex(index: nat)
    requires index < TWO_TO_32
    ensures 0 <= ToInt32(index) <==> index <= 0x7FFF_FFFF
    ensures 0 <= ToInt32(index) ==> ToInt32(index) == index
  {
  }

  /** The positions and sizes that a mapping takes, in numbers. */
  lemma MappableExactly(grantors: seq<GrantorDescriptor>, idx: nat, numFds: nat, pageSize: nat)
    requires forall i | 0 <= i < |grantors| :: Typed(grantors[i])
    ensures Mappable(grantors, idx, numFds, pageSize) <==>
            && idx < |grantors| && grantors[idx].fdIndex < numFds && grantors[idx].fdIndex <= 0x7FFF_FFFF
            && grantors[idx].offset % 8 == 0 && grantors[idx].extent + pageSize <= 0x7FFF_FFFF
            && Holds(grantors)
    ensures Holds(grantors) <==>
            && (|grantors| > 0 ==> 8 <= grantors[0].extent) && (|grantors| > 1 ==> 8 <= grantors[1].extent)
            && (|grantors| > 3 ==> 4 <= grantors[3].extent)
  {
    if idx < |grantors| {
      assert Typed(grantors[idx]);
      FileIndex(grantors[idx].fdIndex);
    }
    hide ToInt32;
    if Holds(grantors) {
      forall i | 0 <= i < |grantors|
        ensures MinExtent(i) <= grantors[i].extent
      {
        assert Typed(grantors[i]);
      }
    } else {
      var i :| i in {READPTRPOS, WRITEPTRPOS, EVFLAGWORDPOS} && i < |grantors| && grantors[i].extent < MinExtent(i);
    }
  }

  /** The arguments of mmap, and where in the mapping the grantor begins. */
  datatype Mapping = Mapping(fd: int, offset: int, length: int, delta: nat)

  /** mapGrantorDescr(): all its checks, then the arithmetic. */
  method MapGrantorDescr(grantors: seq<GrantorDescriptor>, idx: nat, numFds: nat, pageSize: nat)
    returns (mapping: Option<Mapping>)
    requires 0 < pageSize < INT_MAX
    requires forall i | 0 <= i < |grantors| :: Typed(grantors[i])
    ensures mapping.Some? <==> Mappable(grantors, idx, numFds, pageSize)
    ensures mapping.Some? ==> Holds(grantors)
    ensures mapping.Some? ==>
              && mapping.value.fd == ToInt32(grantors[idx].fdIndex)
              && mapping.value.delta == grantors[idx].offset % pageSize
              && mapping.value.length == grantors[idx].offset % pageSize + grantors[idx].extent <= INT_MAX
              && mapping.value.offset == ToInt32(grantors[idx].offset - grantors[idx].offset % pageSize)
  {
    if idx >= |grantors| {
      return None;
    }
    var g := grantors[idx];
    var fdIndex := ToInt32(g.fdIndex);
    if fdIndex < 0 || fdIndex >= numFds {
      return None;
    }
    WordMask(g.offset);
    hide Bits.And;
    if !IsAlignedToWordBoundary(g.offset) {
      return None;
    }
    var i := 0;
    while i < |grantors|
      invariant 0 <= i <= |grantors|
      invariant forall k | 0 <= k < i :: MinExtent(k) <= grantors[k].extent
    {
      if grantors[i].extent < MinExtent(i) {
        return None;
      }
      i := i + 1;
    }
    if g.extent > INT_MAX - pageSize {
      return None;
    }
    MappableExactly(grantors, idx, numFds, pageSize);
    MappingMeaning(g, pageSize);
    return Some(Mapping(fdIndex, MapOffset(g, pageSize), MapLength(g, pageSize), Delta(g, pageSize)));
  }

  /** The mapping starts at a page and reaches exactly from there to the end of the grantor. */
  predicate Covers(g: GrantorDescriptor, pageSize: nat)
    requires pageSize > 0
  {
    && 0 <= MapOffset(g, pageSize) <= g.offset && MapOffset(g, pageSize) % pageSize == 0
    && g.offset == MapOffset(g, pageSize) + Delta(g, pageSize) && Delta(g, pageSize) < pageSize
    && MapOffset(g, pageSize) + MapLength(g, pageSize) == g.offset + g.extent
  }

  /** The length never leaves `int`; the pages mapped are the grantor's exactly when its offset does not either. */
  lemma MappingMeaning(g: GrantorDescriptor, pageSize: nat)
    requires Typed(g) && 0 < pageSize < INT_MAX && g.extent <= INT_MAX - pageSize
    ensures Delta(g, pageSize) == g.offset % pageSize
    ensures MapLength(g, pageSize) == g.offset % pageSize + g.extent < INT_MAX
    ensures MapOffset(g, pageSize) == ToInt32(g.offset - g.offset % pageSize)
    ensures Covers(g, pageSize) <==> g.offset - g.offset % pageSize <= INT_MAX
  {
    hide ToInt32, Wrap32, Wrap64;
    FloorOf(g.offset, pageSize);
    var inPage := g.offset % pageSize;
    var floor := g.offset - inPage;
    Widths(floor, inPage, g.extent);
    assert MapOffset(g, pageSize) == ToInt32(floor);
    hide MapOffset;
    assert Delta(g, pageSize) == Wrap32(floor + inPage - ToInt32(floor));
  }

  lemma FloorOf(offset: nat, pageSize: nat)
    requires pageSize > 0
    ensures offset / pageSize * pageSize == offset - offset % pageSize
    ensures 0 <= offset - offset % pageSize && (offset - offset % pageSize) % pageSize == 0
  {
    assert offset == offset / pageSize * pageSize + offset % pageSize;
    DivModUnique(offset - offset % pageSize, pageSize, offset / pageSize, 0);
  }

  /** The same arithmetic on a page's offset and the offset in the page. */
  lemma Widths(floor: nat, inPage: nat, extent: nat)
    requires floor + inPage < TWO_TO_32 && inPage + extent <= INT_MAX
    ensures ToInt32(floor) == if floor <= INT_MAX then floor else floor - TWO_TO_32
    ensures Wrap32(floor + inPage - ToInt32(floor)) == inPage
    ensures ToInt32(Wrap64(inPage + extent)) == inPage + extent
  {
    if floor > INT_MAX {
      DivModUnique(inPage + TWO_TO_32, TWO_TO_32, 1, inPage);
    }
  }

  /** That is when the offset is below 2^31. */
  lemma CoversExactly(g: GrantorDescriptor, pageSize: nat)
    requires Typed(g) && IsPageSize(pageSize) && g.extent <= INT_MAX - pageSize
    ensures pageSize > 0 && (Covers(g, pageSize) <==> g.offset <= INT_MAX)
  {
    PageSizes(pageSize);
    hide IsPageSize;
    hide Covers, MapOffset, MapLength, Delta, ToInt32;
    MappingMeaning(g, pageSize);
    FloorOf(g.offset, pageSize);
    var floor := g.offset - g.offset % pageSize;
    assert g.offset < floor + pageSize;
    if floor <= INT_MAX < g.offset {
      LapDistinct(floor, INT_MAX + 1, pageSize);
    }
  }

  /** unmapGrantorDescr(): what is handed to munmap. */
  function UnmapGrantorDescr(grantors: seq<GrantorDescriptor>, address: nat, idx: nat, pageSize: nat)
    : Option<(int, int)>
    requires pageSize > 0
  {
    if address == 0 || idx >= |grantors| then None
    else
      var base := address - Delta(grantors[idx], pageSize);
      if base == 0 then None else Some((base, MapLength(grantors[idx], pageSize)))
  }

  /** The mapping covers the grantor inside its file, and unmapping gives back the pages mapped, wherever they are. */
  ghost predicate MapsBack(grantors: seq<GrantorDescriptor>, i: nat, fileSizes: seq<nat>, pageSize: nat)
    requires i < |grantors| && pageSize > 0
  {
    && Covers(grantors[i], pageSize)
    && 0 <= grantors[i].fdIndex < |fileSizes|
    && MapOffset(grantors[i], pageSize) + MapLength(grantors[i], pageSize) <= fileSizes[grantors[i].fdIndex]
    && forall base: nat | 0 < base ::
         UnmapGrantorDescr(grantors, base + Delta(grantors[i], pageSize), i, pageSize) ==
         Some((base, MapLength(grantors[i], pageSize)))
  }

  /** Every grantor can be mapped. */
  ghost predicate AllMappable(grantors: seq<GrantorDescriptor>, numFds: nat, pageSize: nat) {
    forall i | 0 <= i < |grantors| :: Mappable(grantors, i, numFds, pageSize)
  }

  /** Every grantor that can be mapped is covered by its mapping. */
  ghost predicate AllMapBack(grantors: seq<GrantorDescriptor>, fileSizes: seq<nat>, pageSize: nat)
    requires pageSize > 0
  {
    forall i: nat | i < |grantors| && Mappable(grantors, i, |fileSizes|, pageSize) ::
      MapsBack(grantors, i, fileSizes, pageSize)
  }

  /**
   A queue the descriptor takes can be mapped in full exactly when its ring is no larger than 2^31 - 1 less a page.
   */
  lemma OneFileMaps(bufferSize: nat, messageSize: nat, withFlag: bool, pageSize: nat)
    requires Describable(bufferSize, messageSize) && COUNTER_SIZE <= pageSize <= INT_MAX - COUNTER_SIZE
    ensures AllMappable(InOneFile(bufferSize, withFlag), 1, pageSize) <==> bufferSize <= INT_MAX - pageSize
    ensures AllMapBack(InOneFile(bufferSize, withFlag), [RegionSize(bufferSize, withFlag, pageSize)], pageSize)
  {
    OneFileMappable(bufferSize, withFlag, pageSize);
    OneFileSound(bufferSize, messageSize, withFlag, pageSize);
    SoundMapsBack(InOneFile(bufferSize, withFlag), [RegionSize(bufferSize, withFlag, pageSize)], pageSize);
  }

  /** So can one with user-supplied memory for the ring. */
  lemma TwoFilesMap(bufferSize: nat, userBuffer: nat, withFlag: bool, pageSize: nat)
    requires bufferSize <= userBuffer && COUNTER_SIZE <= pageSize <= INT_MAX - COUNTER_SIZE
    ensures AllMappable(InTwoFiles(bufferSize, withFlag), 2, pageSize) <==> bufferSize <= INT_MAX - pageSize
    ensures AllMapBack(InTwoFiles(bufferSize, withFlag), [RoundUp(MetaDataSize(withFlag), pageSize), userBuffer],
                       pageSize)
  {
    TwoFilesMappable(bufferSize, withFlag, pageSize);
    TwoFilesSound(bufferSize, userBuffer, withFlag, pageSize);
    SoundMapsBack(InTwoFiles(bufferSize, withFlag), [RoundUp(MetaDataSize(withFlag), pageSize), userBuffer], pageSize);
  }

  lemma SoundMapsBack(grantors: seq<GrantorDescriptor>, fileSizes: seq<nat>, pageSize: nat)
    requires Sound(grantors, fileSizes) && |fileSizes| <= INT_MAX && 0 < pageSize < INT_MAX
    ensures AllMapBack(grantors, fileSizes, pageSize)
  {
    hide Sound, Mappable, MapsBack;
    forall i: nat | i < |grantors| && Mappable(grantors, i, |fileSizes|, pageSize)
      ensures MapsBack(grantors, i, fileSizes, pageSize)
    {
      GrantorMaps(grantors, i, fileSizes, pageSize);
    }
  }

  lemma GrantorMaps(grantors: seq<GrantorDescriptor>, i: nat, fileSizes: seq<nat>, pageSize: nat)
    requires Sound(grantors, fileSizes) && |fileSizes| <= INT_MAX && 0 < pageSize < INT_MAX
    requires i < |grantors| && Mappable(grantors, i, |fileSizes|, pageSize)
    ensures MapsBack(grantors, i, fileSizes, pageSize)
  {
    var g := grantors[i];
    assert Typed(g) && g.extent <= INT_MAX - pageSize && g.offset <= INT_MAX && 0 <= g.fdIndex < |fileSizes|
           && g.offset + g.extent <= fileSizes[g.fdIndex];
    hide Sound, Mappable, MapOffset, MapLength, Delta;
    MappingMeaning(g, pageSize);
    assert g.offset - g.offset % pageSize <= g.offset;
  }

  lemma OneFileMappable(bufferSize: nat, withFlag: bool, pageSize: nat)
    requires COUNTER_SIZE <= pageSize <= INT_MAX - COUNTER_SIZE
    ensures AllMappable(InOneFile(bufferSize, withFlag), 1, pageSize) <==> bufferSize <= INT_MAX - pageSize
  {
    RoundUpLeast(2 * COUNTER_SIZE + bufferSize, WORD, 0);
    hide RoundUp;
    var grantors := InOneFile(bufferSize, withFlag);
    if bufferSize <= INT_MAX - pageSize {
      forall i | 0 <= i < |grantors|
        ensures Mappable(grantors, i, 1, pageSize)
      {
      }
    } else {
      assert !Mappable(grantors, DATAPTRPOS, 1, pageSize);
    }
  }

  lemma TwoFilesMappable(bufferSize: nat, withFlag: bool, pageSize: nat)
    requires COUNTER_SIZE <= pageSize <= INT_MAX - COUNTER_SIZE
    ensures AllMappable(InTwoFiles(bufferSize, withFlag), 2, pageSize) <==> bufferSize <= INT_MAX - pageSize
  {
    var grantors := InTwoFiles(bufferSize, withFlag);
    if bufferSize <= INT_MAX - pageSize {
      forall i | 0 <= i < |grantors|
        ensures Mappable(grantors, i, 2, pageSize)
      {
      }
    } else {
      assert !Mappable(grantors, DATAPTRPOS, 2, pageSize);
    }
  }
}
