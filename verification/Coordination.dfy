/** The shared objects through which the Go batch clients coordinate. Each is a class whose
    methods are the source's critical sections; what a method does to the object is the
    transition of the same name on its state value, which the protocol model uses. */
module Coordination {
  import opened Basics

  // ----------------------------------------------------------------- barrier

  datatype BarrierState = BarrierState(n: nat, count: nat, gen: nat)
  {
    ghost predicate Valid()
    {
      1 <= count <= n
    }

    /** One arrival; the last of `n` opens the next generation. */
    function Arrive(): BarrierState
      requires count > 0
    {
      if count == 1 then this.(gen := gen + 1, count := n) else this.(count := count - 1)
    }

    /** Does this arrival release everybody? */
    predicate LastArrival()
    {
      count == 1
    }

    /** A client that arrived in generation `g` may go on once the generation has moved. */
    predicate MayLeave(g: nat)
    {
      g != gen
    }
  }

  class Barrier {
    const n: nat
    var count: int
    var gen: nat

    ghost predicate Valid()
      reads this
    {
      1 <= count <= n
    }

    function State(): BarrierState
      requires Valid()
      reads this
    {
      BarrierState(n, count, gen)
    }

    /** `NewBarrier`; the source panics for a size that is not positive. */
    constructor (size: nat)
      requires size > 0
      ensures Valid() && State() == BarrierState(size, size, 0)
    {
      n := size;
      count := size;
      gen := 0;
    }

    /** The locked part of `Wait` up to the wait loop. */
    method Arrive() returns (g: nat, released: bool)
      requires Valid()
      modifies this
      ensures Valid() && State() == old(State()).Arrive()
      ensures g == old(gen) && released == old(State()).LastArrival()
    {
      g := gen;
      count := count - 1;
      released := count == 0;
      if count == 0 {
        gen := gen + 1;
        count := n;
      }
    }

    /** The negated guard of the wait loop. */
    method MayLeave(g: nat) returns (b: bool)
      requires Valid()
      ensures b == State().MayLeave(g)
    {
      b := !(g == gen);
    }
  }

  // ------------------------------------------------------------ shared timing

  /** `closes` counts how often the channel was closed; a second close would panic. */
  datatype TimingState = TimingState(expected: nat, ready: nat, closes: nat)
  {
    /** The channel is closed exactly when `searchableOnce` has run. */
    predicate Closed()
    {
      closes > 0
    }

    function MarkSearchable(): TimingState
    {
      if Closed() then this else this.(closes := 1)
    }

    function CountReady(): TimingState
    {
      this.(ready := ready + 1)
    }

    predicate AllReady()
    {
      ready == expected
    }
  }

  class SharedTiming {
    const expected: nat
    var ready: nat
    var searchableOnce: bool
    var searchableAt: int
    var closes: nat

    ghost predicate Valid()
      reads this
    {
      closes == if searchableOnce then 1 else 0
    }

    function State(): TimingState
      requires Valid()
      reads this
    {
      TimingState(expected, ready, closes)
    }

    constructor (expected: nat)
      ensures Valid() && State() == TimingState(expected, 0, 0)
    {
      this.expected := expected;
      ready := 0;
      searchableOnce := false;
      searchableAt := 0;
      closes := 0;
    }

    /** The first call fixes the time and closes the channel; later calls do nothing. */
    method MarkSearchableAt(at: int)
      requires Valid()
      modifies this
      ensures Valid() && State() == old(State()).MarkSearchable()
      ensures searchableAt == if old(State()).Closed() then old(searchableAt) else at
    {
      if !searchableOnce {
        searchableOnce := true;
        searchableAt := at;
        closes := closes + 1;
      }
    }

    /** The locked part of `MarkClientReady`. */
    method CountReady() returns (reachedAll: bool)
      requires Valid()
      modifies this
      ensures Valid() && State() == old(State()).CountReady() && reachedAll == State().AllReady()
      ensures searchableAt == old(searchableAt)
    {
      ready := ready + 1;
      reachedAll := ready == expected;
    }
  }

  // ------------------------------------------------------------ rank 0 gate

  datatype GateState = GateState(isOpen: bool)
  {
    /** Does `Wait` return for this rank now? */
    predicate Passes(rank: nat)
    {
      rank == 0 || isOpen
    }

    function Open(): GateState
    {
      GateState(true)
    }
  }

  class RankZeroGate {
    var isOpen: bool

    function State(): GateState
      reads this
    {
      GateState(isOpen)
    }

    constructor ()
      ensures State() == GateState(false)
    {
      isOpen := false;
    }

    /** One evaluation of `Wait`'s guards. */
    method Passes(globalRank: nat) returns (b: bool)
      ensures b == State().Passes(globalRank)
    {
      if globalRank == 0 {
        return true;
      }
      b := isOpen;
    }

    method Open()
      modifies this
      ensures State() == old(State()).Open()
    {
      isOpen := true;
    }
  }

  // -------------------------------------------------------- write coordinator

  datatype WriterState = WriterState(active: bool, rankZeroFinished: bool)
  {
    predicate MayLock(rank: nat)
    {
      !(active || (!rankZeroFinished && rank != 0))
    }

    function Lock(): WriterState
    {
      this.(active := true)
    }

    function Unlock(rank: nat): WriterState
    {
      WriterState(false, rankZeroFinished || rank == 0)
    }

    function SkipRankZero(): WriterState
    {
      this.(rankZeroFinished := true)
    }
  }

  class WriteCoordinator {
    var writerActive: bool
    var rankZeroFinished: bool

    function State(): WriterState
      reads this
    {
      WriterState(writerActive, rankZeroFinished)
    }

    constructor ()
      ensures State() == WriterState(false, false)
    {
      writerActive := false;
      rankZeroFinished := false;
    }

    /** One evaluation of `Lock`'s wait guard, taking the lock when it is false. */
    method TryLock(rank: nat) returns (locked: bool)
      modifies this
      ensures locked == old(State()).MayLock(rank)
      ensures State() == if locked then old(State()).Lock() else old(State())
    {
      if writerActive || (!rankZeroFinished && rank != 0) {
        return false;
      }
      writerActive := true;
      locked := true;
    }

    method Unlock(rank: nat)
      modifies this
      ensures State() == old(State()).Unlock(rank)
    {
      if rank == 0 && !rankZeroFinished {
        rankZeroFinished := true;
      }
      writerActive := false;
    }

    method SkipRankZero()
      modifies this
      ensures State() == old(State()).SkipRankZero()
    {
      if !rankZeroFinished {
        rankZeroFinished := true;
      }
    }
  }

  // ---------------------------------------------------------------- CSV file

  datatype Line = Header | Record(rank: nat)

  /** What goes wrong in an append, if anything: the file cannot be opened, the header or the
      record cannot be put into the buffer, or flushing stops after some lines. */
  datatype Fault = NoFault | NoFile | NoHeader | NoRecord | Flush(written: nat)

  datatype CsvState = CsvState(headerWritten: bool, lines: seq<Line>)
  {
    /** The lines an append puts into its buffer. */
    function Pending(rank: nat): seq<Line>
    {
      if rank == 0 && !headerWritten then [Header, Record(rank)] else [Record(rank)]
    }

    function Append(rank: nat): CsvState
    {
      CsvState(headerWritten || rank == 0, lines + Pending(rank))
    }

    /** What reaches the file is all of the buffer, a part of it, or nothing; that the header
        has been written is remembered even if it never gets there. */
    function AppendWith(rank: nat, fault: Fault): CsvState
    {
      match fault
      case NoFault => Append(rank)
      case NoFile => this
      case NoHeader => if |Pending(rank)| == 2 then this else Append(rank)
      case NoRecord => CsvState(headerWritten || rank == 0, lines)
      case Flush(n) => CsvState(headerWritten || rank == 0, lines + Pending(rank)[..Min(n, |Pending(rank)|)])
    }

    /** Does the append report an error? */
    predicate Errs(rank: nat, fault: Fault)
    {
      fault != NoFault && (fault == NoHeader ==> |Pending(rank)| == 2)
    }
  }

  /** `lines` is what this run has appended to the timing file. */
  class LockedCSVWriter {
    var headerWritten: bool
    var lines: seq<Line>

    function State(): CsvState
      reads this
    {
      CsvState(headerWritten, lines)
    }

    constructor ()
      ensures State() == CsvState(false, [])
    {
      headerWritten := false;
      lines := [];
    }

    /** `Append`, with what goes wrong in it. */
    method Append(rank: nat, fault: Fault) returns (error: bool)
      modifies this
      ensures State() == old(State()).AppendWith(rank, fault)
      ensures error == old(State()).Errs(rank, fault)
    {
      if fault == NoFile {
        return true;
      }
      var buffer: seq<Line> := [];
      if rank == 0 && !headerWritten {
        if fault == NoHeader {
          return true;
        }
        buffer := [Header];
        headerWritten := true;
      }
      if fault == NoRecord {
        return true;
      }
      buffer := buffer + [Record(rank)];
      if fault.Flush? {
        lines := lines + buffer[..Min(fault.written, |buffer|)];
        return true;
      }
      lines := lines + buffer;
      error := false;
    }
  }
}
