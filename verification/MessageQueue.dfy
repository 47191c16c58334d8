/**
 The queue as the object a process holds: a ring updated in place and two 64-bit counters.
 `written` is everything ever committed and `position` how many of those messages the cursor has
 passed; the contracts speak of them, so a synchronized queue reads as a bounded FIFO and an
 unsynchronized one as a history with a cursor.
 */
module MessageQueue {
  import opened Prelude
  import opened Ring
  import CounterWrap

  /** Message k of the history is in its cell, for every k less than a lap before `reach`. */
  ghost predicate Keeps<T>(cells: seq<T>, written: seq<T>, reach: nat) {
    |cells| > 0 && forall k: nat | k < |written| && reach <= k + |cells| :: cells[k % |cells|] == written[k]
  }

  /** The data is in the cells from message k on. */
  ghost predicate Placed<T>(cells: seq<T>, k: nat, data: seq<T>) {
    |cells| > 0 && forall i: nat | i < |data| :: cells[(k + i) % |cells|] == data[i]
  }

  /** A copy into the transaction at the end of the history places the data and spares what a write of it spares. */
  lemma CopyPlaces<T>(cfg: Config, tx: MemTransaction, before: seq<T>, cells: seq<T>, written: seq<T>, data: seq<T>,
                      n: nat)
    requires cfg.Locates(|written|) && n <= cfg.capacity == |before| && n <= |data|
    requires Keeps(before, written, |written|)
    requires tx == Regions(cfg, cfg.Counter(|written|), n) && InRing(tx, |before|)
    requires CopyTo(before, tx, Some(data), 0, n) == Some(cells)
    ensures |cells| == cfg.capacity && Keeps(cells, written, |written| + n) && Placed(cells, |written|, data[..n])
  {
    hide Regions, CopyTo;
    CopyToCells(cfg, before, data, |written|, n);
  }

  /** A sequence that holds the two parts of a window, message by message. */
  lemma GatherIs<T>(ring: seq<T>, info: RegionInfo, data: seq<T>)
    requires info.firstBase + info.firstCount <= |ring| && info.secondBase + info.secondCount <= |ring|
    requires |data| == info.firstCount + info.secondCount
    requires forall k: nat | k < info.firstCount :: data[k] == ring[info.firstBase + k]
    requires forall k: nat | info.firstCount <= k < |data| :: data[k] == ring[info.secondBase + (k - info.firstCount)]
    ensures data == Gather(ring, info)
  {
    var gathered := Gather(ring, info);
    forall k: nat | k < |data|
      ensures data[k] == gathered[k]
    {
    }
  }

  /** A ring that holds them, cell by cell, after a copy into it. */
  lemma TwoBlitsIs<T>(ring: seq<T>, info: RegionInfo, data: seq<T>, after: seq<T>)
    requires info.firstBase + info.firstCount <= |ring| && info.secondBase + info.secondCount <= |ring|
    requires info.firstCount != 0 && info.secondCount != 0 ==> info.secondBase + info.secondCount <= info.firstBase
    requires info.firstCount + info.secondCount <= |data| && |after| == |ring|
    requires forall cell: nat | cell < |ring| ::
               after[cell] ==
               if info.firstBase <= cell < info.firstBase + info.firstCount then data[cell - info.firstBase]
               else if info.secondBase <= cell < info.secondBase + info.secondCount
               then data[info.firstCount + (cell - info.secondBase)]
               else ring[cell]
    ensures after == TwoBlits(ring, info, data)
  {
    hide TwoBlits;
    var blitted := TwoBlits(ring, info, data);
    forall cell: nat | cell < |ring|
      ensures after[cell] == blitted[cell]
    {
      TwoBlitsCell(ring, info, data, cell);
    }
  }

  /** Placed data becomes history. */
  lemma Appended<T>(cells: seq<T>, written: seq<T>, data: seq<T>)
    requires Keeps(cells, written, |written| + |data|) && Placed(cells, |written|, data)
    ensures Keeps(cells, written + data, |written + data|)
  {
    forall k: nat | k < |written + data| <= k + |cells|
      ensures cells[k % |cells|] == (written + data)[k]
    {
      if k >= |written| {
        assert cells[(|written| + (k - |written|)) % |cells|] == data[k - |written|];
      }
    }
  }

  class MessageQueue<T> {
    const cfg: Config
    const ring: array<T>
    var readPtr: int
    var writePtr: int

    ghost var written: seq<T>
    ghost var position: nat

    /**
     The counters say what has been written and read; in the synchronized flavour there is room for `n` messages more.
     */
    ghost predicate Counters(n: nat)
      reads this
    {
      && cfg.width.Bits64?
      && writePtr == cfg.Counter(|written|) && readPtr == cfg.Counter(position)
      && Carries(|written|)
      && (cfg.flavor.Synchronized? ==> |written| + n <= position + cfg.capacity)
    }

    /** The ring holds the last lap of the history, less what a write of n messages may be replacing. */
    ghost predicate ValidWhileWriting(n: nat)
      reads this, ring
    {
      Counters(n) && ring.Length == cfg.capacity && Keeps(ring[..], written, |written| + n)
    }

    ghost predicate Valid()
      reads this, ring
    {
      ValidWhileWriting(0)
    }

    /** `total` committed messages are within what the counters can express. */
    ghost predicate Carries(total: nat)
      reads this`position
    {
      && position <= total
      && cfg.quantum * (total - position) < TWO_TO_64
      && (cfg.quantum * total < TWO_TO_64 || (cfg.flavor.Unsynchronized? && TWO_TO_64 % cfg.Size() == 0))
    }

    /** Committed and not yet passed by the cursor. */
    ghost function Pending(): seq<T>
      requires position <= |written|
      reads this
    {
      written[position..]
    }

    /** Messages that beginWrite may grant. */
    ghost function Room(): int
      reads this
    {
      if cfg.flavor.Synchronized? then cfg.capacity - (|written| - position) else cfg.capacity
    }

    constructor (cfg: Config, ring: array<T>)
      requires cfg.width.Bits64? && ring.Length == cfg.capacity
      ensures Valid() && written == [] && position == 0
      ensures this.cfg == cfg && this.ring == ring
    {
      this.cfg, this.ring := cfg, ring;
      readPtr, writePtr := 0, 0;
      written, position := [], 0;
    }

    /** The counters of a valid queue locate every message they have passed. */
    lemma Locating(k: nat)
      requires cfg.width.Bits64? && Carries(k)
      ensures cfg.Locates(k) && cfg.Locates(position)
      ensures cfg.quantum * (k - position) < TWO_TO_64
    {
      ScaleOrder(cfg.quantum, position, k);
      ScaleOrder(cfg.quantum, k, position);
      assert cfg.quantum * (k - position) == cfg.quantum * k - cfg.quantum * position;
    }

    /** What is pending; but nothing while only the write counter has wrapped. */
    method AvailableToRead() returns (n: int)
      requires Valid()
      ensures n == CounterWrap.Available(cfg, |written|, position)
      ensures cfg.flavor.Synchronized? ==> n == |Pending()|
    {
      n := AvailableToReadBytes(writePtr, readPtr) / cfg.quantum;
      Locating(|written|);
      CounterWrap.AvailableMessages(cfg, |written|, position);
    }

    lemma Located(k: nat)
      requires cfg.width.Bits64? && Carries(k)
      ensures cfg.Locates(k) && position <= k
    {
      Locating(k);
    }

    /** The rest of the ring beyond what AvailableToRead counts; nothing when the cursor has been lapped. */
    method AvailableToWrite() returns (n: int)
      requires Valid()
      ensures var available := CounterWrap.Available(cfg, |written|, position);
              n == if available <= cfg.capacity then cfg.capacity - available else 0
      ensures cfg.flavor.Synchronized? ==> n == cfg.capacity - |Pending()|
    {
      n := AvailableToWriteBytes(cfg, writePtr, readPtr) / cfg.quantum;
      Locating(|written|);
      CounterWrap.AvailableMessages(cfg, |written|, position);
      CounterWrap.AvailableRoom(cfg, |written|, position);
    }

    method BeginWrite(n: nat) returns (ok: bool, tx: MemTransaction)
      requires Valid()
      ensures ok <==> n <= Room()
      ensures ok ==> tx == Regions(cfg, writePtr, n)
      ensures !ok ==> tx == MemTransaction(NULL_REGION, NULL_REGION)
    {
      tx := MemTransaction(NULL_REGION, NULL_REGION);
      Locating(|written|);
      CounterCell(cfg, |written|);
      if cfg.flavor.Synchronized? {
        var available := AvailableToWrite();
        if available < n {
          return false, tx;
        }
      }
      if n > cfg.QuantumCount() {
        return false, tx;
      }
      if Misaligned(cfg, writePtr) {
        return false, tx;
      }
      tx := Regions(cfg, writePtr, n);
      ok := true;
    }

    /** memcpy into the ring. */
    method CopyIn(base: nat, data: array<T>, from: nat, count: nat)
      requires base + count <= ring.Length && from + count <= data.Length && data != ring
      modifies ring
      ensures forall cell: nat | cell < ring.Length ::
                ring[cell] == if base <= cell < base + count then data[from + (cell - base)] else old(ring[cell])
    {
      forall j | 0 <= j < count {
        ring[base + j] := data[from + j];
      }
    }

    /** memcpy out of the ring. */
    method CopyOut(base: nat, data: array<T>, to: nat, count: nat)
      requires base + count <= ring.Length && to + count <= data.Length && data != ring
      modifies data
      ensures forall k: nat | k < data.Length ::
                data[k] == if to <= k < to + count then ring[base + (k - to)] else old(data[k])
    {
      forall j | 0 <= j < count {
        data[to + j] := ring[base + j];
      }
    }

    /** The two memcpys of copyTo. */
    method CopyInBoth(info: RegionInfo, data: array<T>)
      requires info.firstBase + info.firstCount <= ring.Length && info.secondBase + info.secondCount <= ring.Length
      requires info.firstCount != 0 && info.secondCount != 0 ==> info.secondBase + info.secondCount <= info.firstBase
      requires info.firstCount + info.secondCount <= data.Length && data != ring
      modifies ring
      ensures forall cell: nat | cell < ring.Length ::
                ring[cell] ==
                if info.firstBase <= cell < info.firstBase + info.firstCount then data[cell - info.firstBase]
                else if info.secondBase <= cell < info.secondBase + info.secondCount
                then data[info.firstCount + (cell - info.secondBase)]
                else old(ring[cell])
    {
      if info.firstCount != 0 {
        CopyIn(info.firstBase, data, 0, info.firstCount);
      }
      if info.secondCount != 0 {
        CopyIn(info.secondBase, data, info.firstCount, info.secondCount);
      }
    }

    /** MemTransaction::copyTo. */
    method CopyTo(tx: MemTransaction, data: array?<T>, startIdx: nat, n: nat) returns (ok: bool)
      requires InRing(tx, ring.Length)
      requires data != null ==> n <= data.Length && data != ring
      modifies ring
      ensures ok <==> data != null && startIdx + n <= tx.Length()
      ensures ok ==> Ring.CopyTo(old(ring[..]), tx, Some(old(data[..])), startIdx, n) == Some(ring[..])
      ensures !ok ==> ring[..] == old(ring[..])
    {
      if data == null {
        return false;
      }
      var split := GetMemRegionInfo(tx, startIdx, n);
      WindowAccepted(tx, startIdx, n);
      if split.None? {
        return false;
      }
      WindowFits(tx, ring.Length, startIdx, n);
      hide GetMemRegionInfo, InRing, TwoBlits;
      ghost var before := ring[..];
      CopyInBoth(split.value, data);
      TwoBlitsIs(before, split.value, data[..], ring[..]);
      ok := true;
    }

    /** The two memcpys of copyFrom. */
    method CopyOutBoth(info: RegionInfo, data: array<T>)
      requires info.firstBase + info.firstCount <= ring.Length && info.secondBase + info.secondCount <= ring.Length
      requires info.firstCount + info.secondCount <= data.Length && data != ring
      modifies data
      ensures forall k: nat | k < info.firstCount :: data[k] == ring[info.firstBase + k]
      ensures forall k: nat | info.firstCount <= k < info.firstCount + info.secondCount ::
                data[k] == ring[info.secondBase + (k - info.firstCount)]
      ensures forall k: nat | info.firstCount + info.secondCount <= k < data.Length :: data[k] == old(data[k])
    {
      if info.firstCount != 0 {
        CopyOut(info.firstBase, data, 0, info.firstCount);
      }
      if info.secondCount != 0 {
        CopyOut(info.secondBase, data, info.firstCount, info.secondCount);
      }
    }

    /** MemTransaction::copyFrom. */
    method CopyFrom(tx: MemTransaction, data: array?<T>, startIdx: nat, n: nat) returns (ok: bool)
      requires InRing(tx, ring.Length)
      requires data != null ==> n <= data.Length && data != ring
      modifies if data != null then {data} else {}
      ensures ok <==> data != null && startIdx + n <= tx.Length()
      ensures ok ==> Ring.CopyFrom(ring[..], tx, startIdx, n) == Some(data[..n]) && data[n..] == old(data[n..])
      ensures !ok && data != null ==> data[..] == old(data[..])
    {
      if data == null {
        return false;
      }
      var split := GetMemRegionInfo(tx, startIdx, n);
      WindowAccepted(tx, startIdx, n);
      if split.None? {
        return false;
      }
      WindowFits(tx, ring.Length, startIdx, n);
      hide GetMemRegionInfo, InRing, Gather;
      CopyOutBoth(split.value, data);
      GatherIs(ring[..], split.value, data[..n]);
      ok := true;
    }

    method CommitWrite(n: nat, ghost data: seq<T>) returns (ok: bool)
      requires ValidWhileWriting(n) && |data| == n && Placed(ring[..], |written|, data) && Carries(|written| + n)
      modifies this`writePtr, this`written
      ensures Valid() && ok && written == old(written) + data
    {
      Appended(ring[..], written, data);
      CounterPlus(cfg, |written|, n);
      hide Keeps, Placed;
      var nBytesWritten := n * cfg.quantum;
      writePtr := cfg.Trim(writePtr + nBytesWritten);
      written := written + data;
      ok := true;
    }

    /**
     write(): succeeds exactly when there is data and room for it, appends it to the history, and otherwise
     changes nothing.
     */
    method Write(data: array?<T>, n: nat) returns (ok: bool)
      requires Valid()
      requires data != null ==> n <= data.Length && data != ring
      requires n <= Room() ==> Carries(|written| + n)
      modifies this`writePtr, this`written, ring
      ensures Valid()
      ensures ok <==> data != null && n <= old(Room())
      ensures written == if ok then old(written) + old(data[..n]) else old(written)
      ensures !ok ==> writePtr == old(writePtr) && ring[..] == old(ring[..])
    {
      hide Regions, InRing, Ring.CopyTo, Keeps, Placed, Carries;
      var granted, tx := BeginWrite(n);
      if !granted {
        return false;
      }
      Located(|written|);
      CyclicSlice(cfg, |written|, n);
      ghost var before := ring[..];
      ok := CopyTo(tx, data, 0, n);
      if ok {
        CopyPlaces(cfg, tx, before, ring[..], written, data[..], n);
        assert data[..][..n] == data[..n];
        ok := CommitWrite(n, data[..n]);
      }
    }

    /**
     beginRead: too far behind, the cursor jumps to the write counter; otherwise n messages are granted if they are
     there.
     */
    method BeginRead(n: nat) returns (ok: bool, tx: MemTransaction)
      requires Valid() && n * cfg.quantum < TWO_TO_64
      modifies this`readPtr, this`position
      ensures Valid()
      ensures ok <==> n <= |old(Pending())| <= cfg.capacity
      ensures position == if |old(Pending())| > cfg.capacity then |written| else old(position)
      ensures tx == if ok then Regions(cfg, readPtr, n) else MemTransaction(NULL_REGION, NULL_REGION)
    {
      hide Keeps, Regions, Misaligned, Lag;
      tx := MemTransaction(NULL_REGION, NULL_REGION);
      var w, r := writePtr, readPtr;
      Locating(|written|);
      BeginReadMeaning(cfg, |written|, position, n);
      CounterCell(cfg, |written|);
      CounterCell(cfg, position);
      if Misaligned(cfg, w) || Misaligned(cfg, r) {
        return false, tx;
      }
      if Lag(cfg, w, r) > cfg.Size() {
        readPtr := w;
        position := |written|;
        return false, tx;
      }
      var nBytesDesired := cfg.Trim(n * cfg.quantum);
      if Lag(cfg, w, r) < nBytesDesired {
        return false, tx;
      }
      tx := Regions(cfg, r, n);
      ok := true;
    }

    /** commitRead after a granted beginRead. */
    method CommitRead(n: nat) returns (ok: bool)
      requires Valid() && n <= |Pending()|
      modifies this`readPtr, this`position
      ensures Valid()
      ensures ok <==> |old(Pending())| <= cfg.capacity
      ensures position == if ok then old(position) + n else |written|
    {
      var r, w := readPtr, writePtr;
      Locating(|written|);
      OverrunMeaning(cfg, |written|, position);
      if Overrun(cfg, w, r) {
        readPtr := w;
        position := |written|;
        return false;
      }
      var nBytesRead := n * cfg.quantum;
      readPtr := cfg.Trim(r + nBytesRead);
      CounterPlus(cfg, position, n);
      Narrower(|written| - position - n, |written| - position);
      position := position + n;
      ok := true;
    }

    lemma Narrower(a: int, b: int)
      requires a <= b
      ensures cfg.quantum * a <= cfg.quantum * b
    {
      ScaleOrder(cfg.quantum, b, a);
    }

    /** What a granted copy reads is the history at the cursor. */
    lemma CopyReads(n: nat)
      requires Valid() && n <= |Pending()| <= cfg.capacity
      ensures var tx := Regions(cfg, readPtr, n);
              && InRing(tx, ring.Length) && tx.Length() == n
              && Ring.CopyFrom(ring[..], tx, 0, n) == Some(Pending()[..n])
    {
      Locating(|written|);
      var cells := ring[..];
      CopyFromCells(cfg, cells, position, n);
      hide Regions, Ring.CopyFrom, InRing;
      var data := Ring.CopyFrom(cells, Regions(cfg, readPtr, n), 0, n).value;
      forall i: nat | i < n
        ensures data[i] == written[position + i]
      {
        assert cells[(position + i) % |cells|] == written[position + i];
      }
      assert data == Pending()[..n];
    }

    /**
     read(): with more than a ring's worth pending, fails and skips everything; with too little pending or no buffer,
     fails and changes nothing; otherwise delivers the next n messages of the history, in order.
     */
    method Read(data: array?<T>, n: nat) returns (ok: bool)
      requires Valid() && n * cfg.quantum < TWO_TO_64
      requires data != null ==> n <= data.Length && data != ring
      modifies this`readPtr, this`position, if data != null then {data} else {}
      ensures Valid()
      ensures ok <==> data != null && n <= |old(Pending())| <= cfg.capacity
      ensures ok ==> data[..n] == old(Pending())[..n] && data[n..] == old(data[n..]) && position == old(position) + n
      ensures !ok && data != null ==> data[..] == old(data[..])
      ensures !ok ==> position == if |old(Pending())| > cfg.capacity then |written| else old(position)
    {
      assert position <= |written|;
      hide Valid, Carries, Regions, InRing, Ring.CopyFrom;
      var granted, tx := BeginRead(n);
      if !granted {
        return false;
      }
      CopyReads(n);
      ok := CopyFrom(tx, data, 0, n);
      if ok {
        ok := CommitRead(n);
        assert ok;
      }
    }
  }
}
