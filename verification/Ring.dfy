/**
 The ring arithmetic of the queue: byte counters that only grow, the two regions a
 transaction covers, and the copies in and out of them.

 Counters are bytes, as in the program. The ring is addressed in cells of one message
 each: `CounterCell` shows that every offset the program computes is a whole number of
 messages, so a cell is never split. `Bits64` counters wrap at 2^64 exactly where the
 program's do; `Unbounded` counters are the integers they stand for.
 */
module Ring {
  import opened Prelude

  const TWO_TO_64: nat := 0x1_0000_0000_0000_0000

  datatype Flavor = Synchronized | Unsynchronized

  datatype Width = Unbounded | Bits64

  datatype Geometry = Geometry(flavor: Flavor, width: Width, quantum: nat, capacity: nat) {
    predicate Valid() {
      0 < quantum && 0 < capacity
    }

    /** Ring size in bytes. */
    function Size(): (size: nat)
      ensures Valid() ==> 0 < size
    {
      quantum * capacity
    }

    /** What a counter-sized variable keeps of x. */
    function Trim(x: int): int {
      if width.Bits64? then x % TWO_TO_64 else x
    }

    /** The counter that has passed k messages. */
    function Counter(k: nat): int {
      Trim(quantum * k)
    }

    /** The program's getQuantumCount. */
    function QuantumCount(): int
      requires Valid()
    {
      Size() / quantum
    }

    /** A counter that has passed k messages still locates them: it never wrapped, or the ring divides 2^64. */
    predicate Locates(k: nat)
      requires Valid()
    {
      width.Unbounded? || TWO_TO_64 % Size() == 0 || quantum * k < TWO_TO_64
    }
  }

  type Config = g: Geometry | g.Valid() witness Geometry(Synchronized, Unbounded, 1, 1)

  // ----- counters -----

  function AvailableToReadBytes(w: int, r: int): int {
    if w < r then 0 else w - r
  }

  function AvailableToWriteBytes(c: Config, w: int, r: int): int {
    var available := AvailableToReadBytes(w, r);
    if c.Size() < available then 0 else c.Size() - available
  }

  function AvailableToWrite(c: Config, w: int, r: int): int {
    AvailableToWriteBytes(c, w, r) / c.quantum
  }

  predicate Misaligned(c: Config, ptr: int) {
    ptr % c.quantum != 0
  }

  /** The distance tested by beginRead and commitRead. */
  function Lag(c: Config, w: int, r: int): int {
    c.Trim(w - r)
  }

  /** commitRead's test, and beginRead's first one. */
  predicate Overrun(c: Config, w: int, r: int) {
    Lag(c, w, r) > c.Size()
  }

  // ----- transactions -----

  /** A run of ring cells; `None` is the null address. */
  datatype MemRegion = MemRegion(address: Option<nat>, length: nat)

  datatype MemTransaction = MemTransaction(first: MemRegion, second: MemRegion) {
    function Length(): nat {
      first.length + second.length
    }
  }

  const NULL_REGION := MemRegion(None, 0)

  /** The regions beginWrite and beginRead hand out for n messages at a counter. */
  function Regions(c: Config, ptr: int, n: nat): MemTransaction {
    var offset := ptr % c.Size();
    var contiguous := (c.Size() - offset) / c.quantum;
    if contiguous < n then
      MemTransaction(MemRegion(Some(offset / c.quantum), contiguous), MemRegion(Some(0), n - contiguous))
    else
      MemTransaction(MemRegion(Some(offset / c.quantum), n), NULL_REGION)
  }

  datatype ReadGrant = ReadMisaligned | ReadOverrun | ReadTooFew | ReadGranted(tx: MemTransaction)

  function BeginRead(c: Config, w: int, r: int, n: nat): ReadGrant {
    if Misaligned(c, w) || Misaligned(c, r) then ReadMisaligned
    else if Overrun(c, w, r) then ReadOverrun
    else if Lag(c, w, r) < c.Trim(n * c.quantum) then ReadTooFew
    else ReadGranted(Regions(c, r, n))
  }

  function GetSlot(tx: MemTransaction, idx: nat): Option<nat> {
    if idx > tx.Length() then
      None
    else if idx < tx.first.length then
      if tx.first.address.None? then None else Some(tx.first.address.value + idx)
    else
      if tx.second.address.None? then None else Some(tx.second.address.value + idx - tx.first.length)
  }

  datatype RegionInfo = RegionInfo(firstCount: nat, secondCount: nat, firstBase: nat, secondBase: nat)

  /** A region without an address holds nothing. */
  predicate NullIsEmpty(tx: MemTransaction) {
    && (tx.first.address.None? ==> tx.first.length == 0)
    && (tx.second.address.None? ==> tx.second.length == 0)
  }

  /** Both regions lie in a ring of `capacity` cells, and a second region ends before the first begins. */
  predicate InRing(tx: MemTransaction, capacity: nat) {
    && NullIsEmpty(tx)
    && (tx.first.address.Some? ==> tx.first.address.value + tx.first.length <= capacity)
    && (tx.second.address.Some? ==>
          tx.first.address.Some? && tx.second.address.value + tx.second.length <= tx.first.address.value)
  }

  /** The part of each region that messages startIdx .. startIdx + n occupy; `None` when they do not fit. */
  function GetMemRegionInfo(tx: MemTransaction, startIdx: nat, n: nat): Option<RegionInfo>
    requires NullIsEmpty(tx)
  {
    if startIdx + n > tx.Length() then
      None
    else
      var firstLength := tx.first.length;
      var firstCount :=
        if startIdx < firstLength then (if n < firstLength - startIdx then n else firstLength - startIdx) else 0;
      var secondCount := n - firstCount;
      var secondStartIdx := if startIdx > firstLength then startIdx - firstLength else 0;
      Some(RegionInfo(firstCount, secondCount,
                      if firstCount != 0 then tx.first.address.value + startIdx else 0,
                      if secondCount != 0 then tx.second.address.value + secondStartIdx else 0))
  }

  // ----- copies -----

  /** memcpy into a sequence of cells. */
  function Blit<T>(ring: seq<T>, base: nat, data: seq<T>): (result: seq<T>)
    requires base + |data| <= |ring|
    ensures |result| == |ring|
    ensures forall cell: nat | cell < |ring| ::
              result[cell] == if base <= cell < base + |data| then data[cell - base] else ring[cell]
  {
    ring[..base] + data + ring[base + |data|..]
  }

  /** A memcpy that is left out when there is nothing to copy. */
  function BlitSome<T>(ring: seq<T>, base: nat, data: seq<T>): (result: seq<T>)
    requires base + |data| <= |ring|
    ensures |result| == |ring|
    ensures forall cell: nat | cell < |ring| ::
              result[cell] == if base <= cell < base + |data| then data[cell - base] else ring[cell]
  {
    if |data| != 0 then Blit(ring, base, data) else ring
  }

  /** The two memcpys of copyTo. */
  function TwoBlits<T>(ring: seq<T>, info: RegionInfo, data: seq<T>): (after: seq<T>)
    requires info.firstBase + info.firstCount <= |ring| && info.secondBase + info.secondCount <= |ring|
    requires info.firstCount + info.secondCount <= |data|
    ensures |after| == |ring|
  {
    BlitSome(BlitSome(ring, info.firstBase, data[..info.firstCount]),
             info.secondBase, data[info.firstCount..info.firstCount + info.secondCount])
  }

  /** What the two memcpys of copyFrom bring. */
  function Gather<T>(ring: seq<T>, info: RegionInfo): (data: seq<T>)
    requires info.firstBase + info.firstCount <= |ring| && info.secondBase + info.secondCount <= |ring|
    ensures |data| == info.firstCount + info.secondCount
  {
    (if info.firstCount != 0 then ring[info.firstBase..info.firstBase + info.firstCount] else [])
    + (if info.secondCount != 0 then ring[info.secondBase..info.secondBase + info.secondCount] else [])
  }

  lemma WindowAccepted(tx: MemTransaction, startIdx: nat, n: nat)
    requires NullIsEmpty(tx)
    ensures GetMemRegionInfo(tx, startIdx, n).Some? <==> startIdx + n <= tx.Length()
  {
  }

  /** Both parts of a window lie inside the ring. */
  lemma WindowFits(tx: MemTransaction, capacity: nat, startIdx: nat, n: nat)
    requires InRing(tx, capacity) && startIdx + n <= tx.Length()
    ensures var info := GetMemRegionInfo(tx, startIdx, n).value;
            && info.firstBase + info.firstCount <= capacity && info.secondBase + info.secondCount <= capacity
            && info.firstCount + info.secondCount == n
            && (info.firstCount != 0 && info.secondCount != 0 ==> info.secondBase + info.secondCount <= info.firstBase)
  {
  }

  /** MemTransaction::copyTo: the ring afterwards, or `None` when it returns false. */
  function CopyTo<T>(ring: seq<T>, tx: MemTransaction, data: Option<seq<T>>, startIdx: nat, n: nat): Option<seq<T>>
    requires InRing(tx, |ring|)
    requires data.Some? ==> n <= |data.value|
  {
    if data.None? then None else
    match GetMemRegionInfo(tx, startIdx, n)
    case None => None
    case Some(info) =>
      WindowFits(tx, |ring|, startIdx, n);
      Some(TwoBlits(ring, info, data.value))
  }

  /** MemTransaction::copyFrom: the n messages copied out, or `None` when it returns false. */
  function CopyFrom<T>(ring: seq<T>, tx: MemTransaction, startIdx: nat, n: nat): Option<seq<T>>
    requires InRing(tx, |ring|)
  {
    match GetMemRegionInfo(tx, startIdx, n)
    case None => None
    case Some(info) =>
      WindowFits(tx, |ring|, startIdx, n);
      Some(Gather(ring, info))
  }

  // ----- what counters locate -----

  /** A counter that locates message k is a whole number of messages into the ring, at cell k mod capacity. */
  lemma CounterCell(c: Config, k: nat)
    requires c.Locates(k)
    ensures !Misaligned(c, c.Counter(k))
    ensures c.Counter(k) % c.Size() == c.quantum * (k % c.capacity)
    ensures (c.Counter(k) % c.Size()) / c.quantum == k % c.capacity
    ensures (c.Size() - c.Counter(k) % c.Size()) / c.quantum == c.capacity - k % c.capacity
    ensures c.QuantumCount() == c.capacity
  {
    var q := c.quantum;
    ScaledDivMod(q, k, c.capacity);
    ScaledDivMod(q, k % c.capacity, c.capacity);
    ScaledDivMod(q, c.capacity - k % c.capacity, c.capacity);
    ScaledDivMod(q, c.capacity, c.capacity);
    assert c.Size() - q * (k % c.capacity) == q * (c.capacity - k % c.capacity);
    if c.width.Bits64? && q * k >= TWO_TO_64 {
      ModOfMod(q * k, TWO_TO_64, c.Size());
      QuantumDividesToo(c);
      ModOfMod(q * k, TWO_TO_64, q);
    } else if c.width.Bits64? {
      DivModUnique(q * k, TWO_TO_64, 0, q * k);
    }
  }

  lemma QuantumDividesToo(c: Config)
    requires TWO_TO_64 % c.Size() == 0
    ensures TWO_TO_64 % c.quantum == 0
  {
    var t := TWO_TO_64 / c.Size();
    assert TWO_TO_64 == c.Size() * t;
    assert TWO_TO_64 == (t * c.capacity) * c.quantum + 0 by {
      assert c.Size() * t == c.quantum * (c.capacity * t);
    }
    DivModUnique(TWO_TO_64, c.quantum, t * c.capacity, 0);
  }

  /**
   The two regions handed out for n messages at message k hold exactly n messages, lie inside
   the ring and apart from each other, and slot i is ring cell (k + i) mod capacity.
   */
  lemma CyclicSlice(c: Config, k: nat, n: nat)
    requires c.Locates(k) && n <= c.capacity
    ensures var tx := Regions(c, c.Counter(k), n);
            && tx.Length() == n
            && InRing(tx, c.capacity)
            && forall i: nat | i < n :: GetSlot(tx, i) == Some((k + i) % c.capacity)
  {
    CounterCell(c, k);
    forall i: nat | i < n
      ensures GetSlot(Regions(c, c.Counter(k), n), i) == Some((k + i) % c.capacity)
    {
      ModOfSum(k, i, c.capacity);
    }
  }

  /** The distance between two counters less than 2^64 apart is the distance between the messages, in bytes. */
  lemma LagOfCounters(c: Config, w: nat, r: nat)
    requires r <= w && (c.width.Unbounded? || c.quantum * (w - r) < TWO_TO_64)
    ensures Lag(c, c.Counter(w), c.Counter(r)) == c.quantum * (w - r)
  {
    if c.width.Bits64? {
      var a, b := c.quantum * w, c.quantum * r;
      var k := a / TWO_TO_64 - b / TWO_TO_64;
      assert a == TWO_TO_64 * (a / TWO_TO_64) + a % TWO_TO_64;
      assert b == TWO_TO_64 * (b / TWO_TO_64) + b % TWO_TO_64;
      assert a % TWO_TO_64 - b % TWO_TO_64 == -k * TWO_TO_64 + (a - b);
      assert a - b == c.quantum * (w - r);
      DivModUnique(a % TWO_TO_64 - b % TWO_TO_64, TWO_TO_64, -k, a - b);
    }
  }

  /** Messages within one lap are bytes within one ring size. */
  lemma ScaledLap(c: Config, p: nat, w: nat)
    requires p <= w <= p + c.capacity
    ensures c.quantum * p <= c.quantum * w <= c.quantum * p + c.Size()
  {
    ScaleOrder(c.quantum, w, p);
    ScaleOrder(c.quantum, p + c.capacity, w);
    assert c.quantum * (p + c.capacity) == c.quantum * p + c.Size();
  }

  /** Adding n messages to a counter. */
  lemma CounterPlus(c: Config, k: nat, n: nat)
    ensures c.Trim(c.Counter(k) + n * c.quantum) == c.Counter(k + n)
  {
    var x, y := c.quantum * k, n * c.quantum;
    assert c.quantum * (k + n) == x + y;
    if c.width.Bits64? {
      var t := x / TWO_TO_64;
      var u := (x % TWO_TO_64 + y) / TWO_TO_64;
      assert x == TWO_TO_64 * t + x % TWO_TO_64;
      DivModUnique(x + y, TWO_TO_64, t + u, (x % TWO_TO_64 + y) % TWO_TO_64);
    }
  }

  lemma QuantumCountIsCapacity(c: Config)
    ensures c.QuantumCount() == c.capacity
  {
    ScaledDivMod(c.quantum, c.capacity, c.capacity);
  }

  /** Byte comparisons are message comparisons. */
  lemma ScaleOrder(q: nat, a: int, b: int)
    requires 0 < q
    ensures q * a < q * b <==> a < b
    ensures q * a == q * b <==> a == b
  {
    if a < b {
      assert q * (b - a) >= 1;
    } else if b < a {
      assert q * (a - b) >= 1;
    }
  }

  /** beginRead's three comparisons, once the counters are known to be aligned and `d` messages apart. */
  lemma BeginReadAt(c: Config, w: int, r: int, d: nat, n: nat)
    requires !Misaligned(c, w) && !Misaligned(c, r)
    requires Lag(c, w, r) == c.quantum * d && c.Trim(n * c.quantum) == c.quantum * n
    ensures BeginRead(c, w, r, n) ==
            if d > c.capacity then ReadOverrun else if d < n then ReadTooFew else ReadGranted(Regions(c, r, n))
  {
    ScaleOrder(c.quantum, c.capacity, d);
    ScaleOrder(c.quantum, d, n);
  }

  /** What beginRead decides, in messages. */
  lemma BeginReadMeaning(c: Config, w: nat, r: nat, n: nat)
    requires r <= w && c.Locates(w) && c.Locates(r)
    requires c.width.Unbounded? || (c.quantum * (w - r) < TWO_TO_64 && n * c.quantum < TWO_TO_64)
    ensures BeginRead(c, c.Counter(w), c.Counter(r), n) ==
            if w - r > c.capacity then ReadOverrun
            else if w - r < n then ReadTooFew
            else ReadGranted(Regions(c, c.Counter(r), n))
  {
    CounterCell(c, w);
    CounterCell(c, r);
    LagOfCounters(c, w, r);
    DivModUnique(n * c.quantum, if n * c.quantum < TWO_TO_64 then TWO_TO_64 else n * c.quantum + 1, 0, n * c.quantum);
    BeginReadAt(c, c.Counter(w), c.Counter(r), w - r, n);
  }

  /** Whatever a counter in shared memory has become, it is taken for aligned exactly if it locates some message. */
  lemma AlignedExactly(c: Config, ptr: nat)
    requires c.width.Bits64? ==> ptr < TWO_TO_64
    ensures !Misaligned(c, ptr) <==> exists k: nat :: c.Locates(k) && ptr == c.Counter(k)
    ensures !Misaligned(c, ptr) ==> c.Locates(ptr / c.quantum) && ptr == c.Counter(ptr / c.quantum)
  {
    var k := ptr / c.quantum;
    assert ptr == c.quantum * k + ptr % c.quantum;
    if !Misaligned(c, ptr) {
      assert c.Locates(k) && ptr == c.Counter(k) by {
        DivModUnique(ptr, if ptr < TWO_TO_64 then TWO_TO_64 else ptr + 1, 0, ptr);
      }
    }
    if m: nat :| c.Locates(m) && ptr == c.Counter(m) {
      CounterCell(c, m);
    }
  }

  /**
   So a read of n messages is refused as misaligned exactly if one of the counters locates no message, and whatever
   else they hold, a transaction it is granted is n cells of the ring, from the reader's own on.
   */
  lemma GrantedInRing(c: Config, w: nat, r: nat, n: nat)
    requires c.width.Bits64? ==> w < TWO_TO_64 && r < TWO_TO_64 && n * c.quantum < TWO_TO_64
    ensures BeginRead(c, w, r, n).ReadMisaligned? <==>
            !(&& (exists k: nat :: c.Locates(k) && w == c.Counter(k))
              && (exists k: nat :: c.Locates(k) && r == c.Counter(k)))
    ensures BeginRead(c, w, r, n).ReadGranted? ==>
              var tx := BeginRead(c, w, r, n).tx;
              && n <= c.capacity && tx.Length() == n && InRing(tx, c.capacity)
              && forall i: nat | i < n :: GetSlot(tx, i) == Some((r / c.quantum + i) % c.capacity)
  {
    AlignedExactly(c, w);
    AlignedExactly(c, r);
    if BeginRead(c, w, r, n).ReadGranted? {
      DivModUnique(n * c.quantum, if n * c.quantum < TWO_TO_64 then TWO_TO_64 else n * c.quantum + 1, 0, n * c.quantum);
      assert c.quantum * n <= Lag(c, w, r) <= c.quantum * c.capacity;
      ScaleOrder(c.quantum, c.capacity, n);
      hide Misaligned, Lag, Regions, GetSlot, InRing;
      CyclicSlice(c, r / c.quantum, n);
    }
  }

  /** What commitRead tests, in messages. */
  lemma OverrunMeaning(c: Config, w: nat, r: nat)
    requires r <= w && (c.width.Unbounded? || c.quantum * (w - r) < TWO_TO_64)
    ensures Overrun(c, c.Counter(w), c.Counter(r)) <==> w - r > c.capacity
  {
    LagOfCounters(c, w, r);
    ScaleOrder(c.quantum, c.capacity, w - r);
  }

  /** What the two availability queries count, in messages, while the write counter has not wrapped. */
  lemma AvailabilityMeaning(c: Config, w: nat, r: nat)
    requires r <= w <= r + c.capacity
    requires c.width.Unbounded? || c.quantum * w < TWO_TO_64
    ensures AvailableToReadBytes(c.Counter(w), c.Counter(r)) / c.quantum == w - r
    ensures AvailableToWrite(c, c.Counter(w), c.Counter(r)) == c.capacity - (w - r)
  {
    var q := c.quantum;
    ScaleOrder(q, r, w);
    ScaleOrder(q, c.capacity, w - r);
    assert c.Counter(w) == q * w && c.Counter(r) == q * r;
    assert q * w - q * r == q * (w - r);
    ScaledDivMod(q, w - r, c.capacity);
    ScaledDivMod(q, c.capacity - (w - r), c.capacity);
    assert c.Size() - q * (w - r) == q * (c.capacity - (w - r));
  }

  // ----- transaction copies -----

  /** The window is split between the regions so that every message lands in its own slot. */
  lemma WindowSlots(tx: MemTransaction, capacity: nat, startIdx: nat, n: nat)
    requires InRing(tx, capacity)
    ensures GetMemRegionInfo(tx, startIdx, n).Some? <==> startIdx + n <= tx.Length()
    ensures GetMemRegionInfo(tx, startIdx, n).Some? ==>
              var info := GetMemRegionInfo(tx, startIdx, n).value;
              && info.firstCount + info.secondCount == n
              && info.firstBase + info.firstCount <= capacity && info.secondBase + info.secondCount <= capacity
              && (forall i: nat | startIdx <= i < startIdx + n ::
                    GetSlot(tx, i) == Some(if i < startIdx + info.firstCount
                                           then info.firstBase + (i - startIdx)
                                           else info.secondBase + (i - startIdx - info.firstCount)))
  {
  }

  /** Whether a cell is one of the slots startIdx .. startIdx + n. */
  ghost predicate InWindow(tx: MemTransaction, startIdx: nat, n: nat, cell: nat) {
    exists i: nat :: startIdx <= i < startIdx + n && GetSlot(tx, i) == Some(cell)
  }

  /** The cells the two memcpys touch are slots of the window. */
  lemma WindowCells(tx: MemTransaction, capacity: nat, startIdx: nat, n: nat, cell: nat)
    requires InRing(tx, capacity) && startIdx + n <= tx.Length()
    requires var info := GetMemRegionInfo(tx, startIdx, n).value;
             || info.firstBase <= cell < info.firstBase + info.firstCount
             || info.secondBase <= cell < info.secondBase + info.secondCount
    ensures InWindow(tx, startIdx, n, cell)
  {
    WindowSlots(tx, capacity, startIdx, n);
    var info := GetMemRegionInfo(tx, startIdx, n).value;
    var i := if info.firstBase <= cell < info.firstBase + info.firstCount
             then startIdx + (cell - info.firstBase)
             else startIdx + info.firstCount + (cell - info.secondBase);
    assert GetSlot(tx, i) == Some(cell);
  }

  /** What the two memcpys leave in a cell when they do not overlap. */
  lemma TwoBlitsCell<T>(ring: seq<T>, info: RegionInfo, data: seq<T>, cell: nat)
    requires info.firstBase + info.firstCount <= |ring| && info.secondBase + info.secondCount <= |ring|
    requires info.firstCount + info.secondCount <= |data| && cell < |ring|
    requires info.firstCount != 0 && info.secondCount != 0 ==> info.secondBase + info.secondCount <= info.firstBase
    ensures var after := TwoBlits(ring, info, data);
            && |after| == |ring|
            && after[cell] == if info.firstBase <= cell < info.firstBase + info.firstCount
                              then data[cell - info.firstBase]
                              else if info.secondBase <= cell < info.secondBase + info.secondCount
                              then data[info.firstCount + (cell - info.secondBase)]
                              else ring[cell]
  {
    hide BlitSome;
    var middle := BlitSome(ring, info.firstBase, data[..info.firstCount]);
    assert middle[cell] == if info.firstBase <= cell < info.firstBase + info.firstCount
                           then data[cell - info.firstBase] else ring[cell];
  }

  /** copyTo fills the window's slots in order; it fails exactly when there is no data or no room. */
  lemma CopyToFills<T>(ring: seq<T>, tx: MemTransaction, data: Option<seq<T>>, startIdx: nat, n: nat)
    requires InRing(tx, |ring|)
    requires data.Some? ==> n <= |data.value|
    ensures CopyTo(ring, tx, data, startIdx, n).Some? <==> data.Some? && startIdx + n <= tx.Length()
    ensures CopyTo(ring, tx, data, startIdx, n).Some? ==>
              var after := CopyTo(ring, tx, data, startIdx, n).value;
              && |after| == |ring|
              && (forall i: nat | startIdx <= i < startIdx + n ::
                    var slot := GetSlot(tx, i);
                    slot.Some? && slot.value < |ring| && after[slot.value] == data.value[i - startIdx])
  {
    WindowAccepted(tx, startIdx, n);
    hide GetMemRegionInfo, TwoBlits, GetSlot;
    if data.Some? && startIdx + n <= tx.Length() {
      forall i: nat | startIdx <= i < startIdx + n
        ensures var slot, after := GetSlot(tx, i), CopyTo(ring, tx, data, startIdx, n).value;
                |after| == |ring| && slot.Some? && slot.value < |ring| && after[slot.value] == data.value[i - startIdx]
      {
        CopyToSlot(ring, tx, data.value, startIdx, n, i);
      }
      assert |CopyTo(ring, tx, data, startIdx, n).value| == |ring|;
    }
  }

  lemma CopyToSlot<T>(ring: seq<T>, tx: MemTransaction, data: seq<T>, startIdx: nat, n: nat, i: nat)
    requires InRing(tx, |ring|) && n <= |data| && startIdx <= i < startIdx + n <= tx.Length()
    ensures CopyTo(ring, tx, Some(data), startIdx, n).Some?
    ensures var slot, after := GetSlot(tx, i), CopyTo(ring, tx, Some(data), startIdx, n).value;
            |after| == |ring| && slot.Some? && slot.value < |ring| && after[slot.value] == data[i - startIdx]
  {
    WindowSlots(tx, |ring|, startIdx, n);
    WindowFits(tx, |ring|, startIdx, n);
    var info := GetMemRegionInfo(tx, startIdx, n).value;
    assert GetSlot(tx, i).Some? && GetSlot(tx, i).value < |ring|;
    hide GetMemRegionInfo, TwoBlits, GetSlot, InRing;
    TwoBlitsCell(ring, info, data, GetSlot(tx, i).value);
  }

  /** copyTo changes no cell outside the window. */
  lemma CopyToKeeps<T>(ring: seq<T>, tx: MemTransaction, data: seq<T>, startIdx: nat, n: nat, cell: nat)
    requires InRing(tx, |ring|) && n <= |data| && startIdx + n <= tx.Length()
    requires cell < |ring| && !InWindow(tx, startIdx, n, cell)
    ensures CopyTo(ring, tx, Some(data), startIdx, n).Some?
    ensures var after := CopyTo(ring, tx, Some(data), startIdx, n).value;
            |after| == |ring| && after[cell] == ring[cell]
  {
    WindowFits(tx, |ring|, startIdx, n);
    var info := GetMemRegionInfo(tx, startIdx, n).value;
    TwoBlitsCell(ring, info, data, cell);
    if info.firstBase <= cell < info.firstBase + info.firstCount ||
       info.secondBase <= cell < info.secondBase + info.secondCount {
      WindowCells(tx, |ring|, startIdx, n, cell);
      assert false;
    }
  }

  /** copyFrom returns the window's slots, in order. */
  lemma CopyFromSlots<T>(ring: seq<T>, tx: MemTransaction, startIdx: nat, n: nat)
    requires InRing(tx, |ring|)
    ensures CopyFrom(ring, tx, startIdx, n).Some? <==> startIdx + n <= tx.Length()
    ensures CopyFrom(ring, tx, startIdx, n).Some? ==>
              var data := CopyFrom(ring, tx, startIdx, n).value;
              && |data| == n
              && forall i: nat | startIdx <= i < startIdx + n ::
                   var slot := GetSlot(tx, i);
                   slot.Some? && slot.value < |ring| && data[i - startIdx] == ring[slot.value]
  {
    WindowSlots(tx, |ring|, startIdx, n);
  }

  /** One message of a copy out. */
  lemma CopyFromAt<T>(ring: seq<T>, tx: MemTransaction, startIdx: nat, n: nat, j: nat)
    requires InRing(tx, |ring|) && startIdx + n <= tx.Length() && j < n
    ensures CopyFrom(ring, tx, startIdx, n).Some? && |CopyFrom(ring, tx, startIdx, n).value| == n
    ensures GetSlot(tx, startIdx + j).Some? && GetSlot(tx, startIdx + j).value < |ring|
    ensures CopyFrom(ring, tx, startIdx, n).value[j] == ring[GetSlot(tx, startIdx + j).value]
  {
    CopyFromSlots(ring, tx, startIdx, n);
    hide CopyFrom, GetSlot, InRing;
    var i := startIdx + j;
    assert CopyFrom(ring, tx, startIdx, n).value[i - startIdx] == ring[GetSlot(tx, i).value];
  }

  /** One message read back: the last one written to its slot. */
  lemma ReadBack<T>(ring: seq<T>, tx: MemTransaction, data: seq<T>, startIdx: nat, after: seq<T>, i: nat)
    requires InRing(tx, |ring|) && startIdx + |data| <= tx.Length() && i < tx.Length()
    requires CopyTo(ring, tx, Some(data), startIdx, |data|) == Some(after)
    ensures |after| == |ring| && GetSlot(tx, i).Some? && GetSlot(tx, i).value < |ring|
    ensures after[GetSlot(tx, i).value] ==
            if startIdx <= i < startIdx + |data| then data[i - startIdx] else ring[GetSlot(tx, i).value]
  {
    CopyToFills(ring, tx, Some(data), startIdx, |data|);
    SlotsDistinct(tx, |ring|);
    WindowSlots(tx, |ring|, i, 1);
    hide CopyTo;
    if !(startIdx <= i < startIdx + |data|) {
      CopyToKeeps(ring, tx, data, startIdx, |data|, GetSlot(tx, i).value);
    }
  }

  /** Copies succeed and have the right sizes. */
  lemma CopySizes<T>(ring: seq<T>, tx: MemTransaction, data: seq<T>, startIdx: nat, after: seq<T>, readIdx: nat, n: nat)
    requires InRing(tx, |ring|) && startIdx + |data| <= tx.Length() && readIdx + n <= tx.Length()
    requires CopyTo(ring, tx, Some(data), startIdx, |data|) == Some(after)
    ensures |after| == |ring| && CopyFrom(ring, tx, readIdx, n).Some? && CopyFrom(after, tx, readIdx, n).Some?
    ensures |CopyFrom(ring, tx, readIdx, n).value| == |CopyFrom(after, tx, readIdx, n).value| == n
  {
    CopyToFills(ring, tx, Some(data), startIdx, |data|);
    hide CopyTo;
    CopyFromSlots(ring, tx, readIdx, n);
    CopyFromSlots(after, tx, readIdx, n);
  }

  /**
   Reading back any window returns, message by message, what was last written to its slot, whatever window wrote it.
   */
  lemma CopyRoundTrip<T>(ring: seq<T>, tx: MemTransaction, data: seq<T>, startIdx: nat, after: seq<T>,
                         readIdx: nat, n: nat, j: nat)
    requires InRing(tx, |ring|) && startIdx + |data| <= tx.Length() && readIdx + n <= tx.Length() && j < n
    requires CopyTo(ring, tx, Some(data), startIdx, |data|) == Some(after)
    ensures |after| == |ring| && CopyFrom(ring, tx, readIdx, n).Some? && CopyFrom(after, tx, readIdx, n).Some?
    ensures |CopyFrom(ring, tx, readIdx, n).value| == |CopyFrom(after, tx, readIdx, n).value| == n
    ensures CopyFrom(after, tx, readIdx, n).value[j] ==
            if startIdx <= readIdx + j < startIdx + |data|
            then data[readIdx + j - startIdx]
            else CopyFrom(ring, tx, readIdx, n).value[j]
  {
    hide GetSlot, CopyTo, CopyFrom;
    CopySizes(ring, tx, data, startIdx, after, readIdx, n);
    CopyFromAt(ring, tx, readIdx, n, j);
    CopyFromAt(after, tx, readIdx, n, j);
    ReadBack(ring, tx, data, startIdx, after, readIdx + j);
  }

  /** A copy of n messages out of the transaction granted at message k returns the n ring cells from k on. */
  lemma CopyFromCells<T>(c: Config, ring: seq<T>, k: nat, n: nat)
    requires c.Locates(k) && n <= c.capacity == |ring|
    ensures var tx := Regions(c, c.Counter(k), n);
            && InRing(tx, c.capacity) && tx.Length() == n
            && CopyFrom(ring, tx, 0, n).Some?
            && var data := CopyFrom(ring, tx, 0, n).value;
            && |data| == n && forall i: nat | i < n :: data[i] == ring[(k + i) % c.capacity]
  {
    CyclicSlice(c, k, n);
    var tx := Regions(c, c.Counter(k), n);
    CopyFromSlots(ring, tx, 0, n);
    hide Regions, GetSlot, CopyFrom;
    var data := CopyFrom(ring, tx, 0, n).value;
    forall i: nat | i < n
      ensures data[i] == ring[(k + i) % c.capacity]
    {
      var slot := GetSlot(tx, i);
      assert slot == Some((k + i) % c.capacity) && data[i - 0] == ring[slot.value];
    }
  }

  /**
   A copy of n messages into it fills the n ring cells from k on, and spares every message less than one lap before
   the end.
   */
  lemma CopyToCells<T>(c: Config, ring: seq<T>, data: seq<T>, k: nat, n: nat)
    requires c.Locates(k) && n <= c.capacity == |ring| && n <= |data|
    ensures var tx := Regions(c, c.Counter(k), n);
            && InRing(tx, c.capacity) && tx.Length() == n
            && CopyTo(ring, tx, Some(data), 0, n).Some?
            && var after := CopyTo(ring, tx, Some(data), 0, n).value;
            && |after| == c.capacity
            && (forall i: nat | i < n :: after[(k + i) % c.capacity] == data[i])
            && (forall m: nat | m < k && k + n <= m + c.capacity :: after[m % c.capacity] == ring[m % c.capacity])
  {
    CyclicSlice(c, k, n);
    var tx := Regions(c, c.Counter(k), n);
    CopyToFills(ring, tx, Some(data), 0, n);
    hide Regions, GetSlot, CopyTo, InRing;
    forall i: nat | i < n
      ensures CopyTo(ring, tx, Some(data), 0, n).value[(k + i) % c.capacity] == data[i]
    {
      CopyFillsCell(c, ring, tx, data, k, n, i);
    }
    forall m: nat | m < k && k + n <= m + c.capacity
      ensures CopyTo(ring, tx, Some(data), 0, n).value[m % c.capacity] == ring[m % c.capacity]
    {
      CopySparesCell(c, ring, tx, data, k, n, m);
    }
  }

  lemma CopyFillsCell<T>(c: Config, ring: seq<T>, tx: MemTransaction, data: seq<T>, k: nat, n: nat, i: nat)
    requires c.Locates(k) && i < n <= c.capacity == |ring| && n <= |data| && tx == Regions(c, c.Counter(k), n)
    ensures InRing(tx, c.capacity) && CopyTo(ring, tx, Some(data), 0, n).Some?
    ensures |CopyTo(ring, tx, Some(data), 0, n).value| == c.capacity
    ensures CopyTo(ring, tx, Some(data), 0, n).value[(k + i) % c.capacity] == data[i]
  {
    CyclicSlice(c, k, n);
    hide Regions, GetSlot, CopyTo, InRing;
    CopyToFills(ring, tx, Some(data), 0, n);
    assert GetSlot(tx, i) == Some((k + i) % c.capacity);
  }

  lemma CopySparesCell<T>(c: Config, ring: seq<T>, tx: MemTransaction, data: seq<T>, k: nat, n: nat, m: nat)
    requires c.Locates(k) && n <= c.capacity == |ring| && n <= |data| && tx == Regions(c, c.Counter(k), n)
    requires m < k && k + n <= m + c.capacity
    ensures InRing(tx, c.capacity) && CopyTo(ring, tx, Some(data), 0, n).Some?
    ensures |CopyTo(ring, tx, Some(data), 0, n).value| == c.capacity
    ensures CopyTo(ring, tx, Some(data), 0, n).value[m % c.capacity] == ring[m % c.capacity]
  {
    CyclicSlice(c, k, n);
    hide Regions, GetSlot, CopyTo, InRing;
    forall i: nat | i < n
      ensures GetSlot(tx, i) != Some(m % c.capacity)
    {
      LapDistinct(m, k + i, c.capacity);
    }
    CopyToKeeps(ring, tx, data, 0, n, m % c.capacity);
  }

  /** No two slots of a transaction are the same cell. */
  lemma SlotsDistinct(tx: MemTransaction, capacity: nat)
    requires InRing(tx, capacity)
    ensures forall i: nat, j: nat | i < j < tx.Length() :: GetSlot(tx, i) != GetSlot(tx, j)
  {
  }

  /**
   The documentation of getSlot promises a null pointer for every index outside the transaction.
   At the first such index it returns null exactly when the transaction did not wrap; beyond it, always.
   */
  lemma GetSlotNull(tx: MemTransaction, capacity: nat, idx: nat)
    requires InRing(tx, capacity)
    ensures idx < tx.Length() ==> GetSlot(tx, idx).Some?
    ensures idx >= tx.Length() ==> (GetSlot(tx, idx).None? <==> idx > tx.Length() || tx.second.address.None?)
  {
  }

  /** For a transaction the program hands out: at index n it is not null exactly when the transaction wraps around. */
  lemma GetSlotAtEnd(c: Config, k: nat, n: nat)
    requires c.Locates(k) && n <= c.capacity
    ensures GetSlot(Regions(c, c.Counter(k), n), n).Some? <==> k % c.capacity + n > c.capacity
  {
    CounterCell(c, k);
    CyclicSlice(c, k, n);
  }

  const TWO_CELLS: Config := Geometry(Synchronized, Unbounded, 4, 2)

  /** So with two cells and one message passed: index 2 of a transaction of two messages is cell 1. */
  lemma GetSlotPastEnd()
    ensures var tx := Regions(TWO_CELLS, TWO_CELLS.Counter(1), 2);
            tx.Length() == 2 && GetSlot(tx, 2) == Some(1)
  {
  }
}
