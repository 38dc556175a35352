/** SrProcess: a script's unit of execution, its construction state and its
    dispose lifecycle. */
module Process {
  import opened AllocatorUtility
  import opened MemoryBlocks
  import opened SrValues
  import opened VirtualMemory

  const InvalidProcessID: int32 := -1
  const DefaultInfinityLoopElapseTimeThreshold: int32 := 1000

  /** The process states this model sets or tests. */
  datatype SrProcessStatus = Ready | Running | Stopped

  /** The part of a process that disposing changes. */
  datatype Lifecycle = Lifecycle(state: SrProcessStatus, disposed: bool)

  /** Dispose(disposing): a disposed process is left alone; otherwise the
      managed path stops it, and either path marks it disposed. */
  function AfterDispose(l: Lifecycle, disposing: bool): (r: Lifecycle)
    ensures r.disposed
    ensures l.disposed ==> r == l
    ensures !l.disposed && disposing ==> r.state == Stopped
    ensures !disposing ==> r.state == l.state
  {
    if l.disposed then l
    else Lifecycle(if disposing then Stopped else l.state, true)
  }

  /** Disposing twice, by either path, is disposing once. */
  lemma DisposeIsIdempotent(l: Lifecycle, first: bool, second: bool)
    ensures AfterDispose(AfterDispose(l, first), second) == AfterDispose(l, first)
  {
  }

  /** A process finalized before it was disposed keeps its state for good:
      a later Dispose() no longer stops it. */
  lemma FinalizedProcessIsNeverStopped(l: Lifecycle)
    requires !l.disposed && l.state != Stopped
    ensures AfterDispose(AfterDispose(l, false), true).state == l.state
    ensures AfterDispose(l, true).state == Stopped
  {
  }

  class SrProcess {
    var disposed: bool
    var ProcessID: int32
    var ProcessState: SrProcessStatus
    var InfinityLoopElapseTimeThreshold: int32
    const ProcessorContext: MemoryBlock<SrValue>
    const VirtualMemory: SrVirtualMemory

    function State(): Lifecycle
      reads this
    {
      Lifecycle(ProcessState, disposed)
    }

    /** The machine reference and the stopwatch are not part of this model. */
    constructor (processID: int32, programCode: MemoryBlock<SrValue>, globalMemory: MemoryBlock<SrValue>,
                 heapMemory: MemoryBlock<SrValue>, stackMemory: MemoryBlock<SrValue>, processorContext: MemoryBlock<SrValue>)
      requires programCode.Valid() && globalMemory.Valid() && heapMemory.Valid() && stackMemory.Valid()
      ensures ProcessID == processID && ProcessState == Ready && !disposed
      ensures InfinityLoopElapseTimeThreshold == DefaultInfinityLoopElapseTimeThreshold
      ensures ProcessorContext == processorContext
      ensures fresh(VirtualMemory) && VirtualMemory.Valid()
      ensures VirtualMemory.program == programCode && VirtualMemory.global == globalMemory
      ensures VirtualMemory.heap == heapMemory && VirtualMemory.stack == stackMemory
    {
      ProcessID := processID;
      VirtualMemory := new SrVirtualMemory(programCode, globalMemory, heapMemory, stackMemory);
      ProcessorContext := processorContext;
      ProcessState := Ready;
      InfinityLoopElapseTimeThreshold := DefaultInfinityLoopElapseTimeThreshold;
      disposed := false;
    }

    /** Dispose(bool disposing). */
    method DisposeWith(disposing: bool)
      modifies this`disposed, this`ProcessState
      ensures State() == AfterDispose(old(State()), disposing)
    {
      if disposed {
        return;
      }
      if disposing {
        ProcessState := Stopped;
      }
      disposed := true;
    }

    /** The public Dispose(), which takes the managed path. */
    method Dispose()
      modifies this`disposed, this`ProcessState
      ensures State() == AfterDispose(old(State()), true)
    {
      DisposeWith(true);
    }
  }
}
