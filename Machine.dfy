/** SrvmMachine: a virtual machine assembled from four parts made by a parts
    factory, disposed part by part in reverse order, and refusing work once
    disposed. The parts themselves are opaque here: each records the machine
    it belongs to, and the machine logs the order in which it disposes them. */
module Machine {
  import opened Wrappers

  class MachinePart {
    var machine: SrvmMachine?

    constructor ()
      ensures machine == null
    {
      machine := null;
    }
  }

  /** The parts a factory's Create methods return; null for a part it cannot make. */
  datatype PartsFactory = PartsFactory(processor: MachinePart?, memory: MachinePart?, firmware: MachinePart?, storage: MachinePart?)

  /** The order in which the constructor asks the factory for parts. */
  const CreationOrder: seq<PartKind> := [Processor, Memory, Firmware, Storage]

  /** The order in which Dispose disposes them. */
  const DisposalOrder: seq<PartKind> := [Storage, Firmware, Memory, Processor]

  function PartAt(f: PartsFactory, kind: PartKind): MachinePart? {
    match kind
    case Processor => f.processor
    case Memory => f.memory
    case Firmware => f.firmware
    case Storage => f.storage
  }

  /** Position of the first part, in creation order, the factory fails to make. */
  function FirstMissingAt(f: PartsFactory): (i: nat)
    ensures i <= |CreationOrder|
    ensures forall j :: 0 <= j < i ==> PartAt(f, CreationOrder[j]) != null
    ensures i < |CreationOrder| ==> PartAt(f, CreationOrder[i]) == null
  {
    if f.processor == null then 0
    else if f.memory == null then 1
    else if f.firmware == null then 2
    else if f.storage == null then 3
    else 4
  }

  /** The factory calls the constructor makes: up to and including the first
      one that returns null, none for a null factory. */
  function CreationCalls(factory: Option<PartsFactory>): (calls: seq<PartKind>)
    ensures calls <= CreationOrder
    ensures factory.None? ==> calls == []
    ensures factory.Some? ==> forall j :: 0 <= j < |calls| - 1 ==> PartAt(factory.value, calls[j]) != null
  {
    if factory.None? then []
    else
      var i := FirstMissingAt(factory.value);
      if i < |CreationOrder| then CreationOrder[..i + 1] else CreationOrder
  }

  /** The exception the constructor throws, if any. */
  function CreationError(factory: Option<PartsFactory>): (r: Option<Error>)
    ensures factory.None? ==> r == Some(ArgumentNull)
    ensures factory.Some? ==> (r.None? <==> forall k :: PartAt(factory.value, k) != null)
    ensures factory.Some? && r.Some? ==>
      r.value.PartsMissing? && PartAt(factory.value, r.value.part) == null
      && CreationCalls(factory)[|CreationCalls(factory)| - 1] == r.value.part
  {
    if factory.None? then Some(ArgumentNull)
    else
      var i := FirstMissingAt(factory.value);
      if i < |CreationOrder| then Some(PartsMissing(CreationOrder[i])) else None
  }

  /** A missing part stops construction: no part after it is asked for. */
  lemma MissingPartStopsCreation(f: PartsFactory, k: PartKind)
    requires CreationError(Some(f)) == Some(PartsMissing(k))
    ensures k in CreationCalls(Some(f))
    ensures forall j :: 0 <= j < |CreationOrder| && CreationOrder[j] !in CreationCalls(Some(f)) ==>
      exists i :: 0 <= i < j && CreationOrder[i] == k
  {
    var i := FirstMissingAt(f);
    assert CreationOrder[i] == k;
  }

  function NonNull(p: MachinePart?): set<MachinePart> {
    if p == null then {} else {p}
  }

  /** The parts whose Machine the constructor sets before it returns or throws. */
  function Attached(f: PartsFactory): set<MachinePart> {
    var n := |CreationCalls(Some(f))|;
    (if 0 < n then NonNull(f.processor) else {}) + (if 1 < n then NonNull(f.memory) else {})
    + (if 2 < n then NonNull(f.firmware) else {}) + (if 3 < n then NonNull(f.storage) else {})
  }

  /** The machine's disposed flag and the part disposals it has issued. */
  datatype MachineState = MachineState(disposed: bool, disposalLog: seq<PartKind>)

  /** Dispose(bool disposing): the managed path disposes the four parts in
      DisposalOrder; either path marks the machine disposed, once. */
  function AfterDispose(s: MachineState, disposing: bool): (r: MachineState)
    ensures r.disposed
    ensures s.disposed ==> r == s
    ensures !s.disposed ==> r.disposalLog == s.disposalLog + (if disposing then DisposalOrder else [])
  {
    if s.disposed then s
    else MachineState(true, if disposing then s.disposalLog + DisposalOrder else s.disposalLog)
  }

  /** ThrowExceptionIfObjectDisposed. */
  function Guard(s: MachineState): (r: Outcome)
    ensures r == Pass <==> !s.disposed
    ensures r != Pass ==> r == Fail(ObjectDisposed)
  {
    if s.disposed then Fail(ObjectDisposed) else Pass
  }

  /** Disposing again changes nothing; every part is disposed at most once. */
  lemma DisposeIsIdempotent(s: MachineState, first: bool, second: bool)
    ensures AfterDispose(AfterDispose(s, first), second) == AfterDispose(s, first)
  {
  }

  /** After any dispose, the guarded operations refuse. */
  lemma GuardRefusesAfterDispose(s: MachineState, disposing: bool)
    ensures Guard(AfterDispose(s, disposing)) == Fail(ObjectDisposed)
  {
  }

  /** A managed dispose of a machine that was built whole disposes exactly
      the parts the constructor asked for, in the reverse order. */
  lemma {:induction false} DisposalReversesCreation(factory: Option<PartsFactory>, s: MachineState)
    requires CreationError(factory).None? && !s.disposed
    ensures var added := AfterDispose(s, true).disposalLog[|s.disposalLog|..];
      var calls := CreationCalls(factory);
      |added| == |calls| && forall i :: 0 <= i < |calls| ==> added[i] == calls[|calls| - 1 - i]
  {
    assert FirstMissingAt(factory.value) == |CreationOrder|;
    assert AfterDispose(s, true).disposalLog[|s.disposalLog|..] == DisposalOrder;
  }

  /** What a peripheral's target instance is, as far as `as T` can tell: the
      types it can be cast to. */
  datatype HostInstance = HostInstance(id: nat, types: set<string>)

  class SrvmMachine {
    var disposed: bool
    var disposalLog: seq<PartKind>
    var processor: MachinePart?
    var memory: MachinePart?
    var firmware: MachinePart?
    var storage: MachinePart?

    function State(): MachineState
      reads this
    {
      MachineState(disposed, disposalLog)
    }

    /** A fully constructed machine: every part made and attached to it. */
    ghost predicate Valid()
      reads this, processor, memory, firmware, storage
    {
      && processor != null && memory != null && firmware != null && storage != null
      && processor.machine == this && memory.machine == this
      && firmware.machine == this && storage.machine == this
    }

    /** The object as it stands when the constructor body starts. */
    constructor Blank()
      ensures !disposed && disposalLog == []
      ensures processor == null && memory == null && firmware == null && storage == null
    {
      disposed := false;
      disposalLog := [];
      processor, memory, firmware, storage := null, null, null, null;
    }

    /** The constructor SrvmMachine(factory). It returns the machine or the
        exception it throws, and the factory calls it made. */
    static method Create(factory: Option<PartsFactory>) returns (r: Result<SrvmMachine>, calls: seq<PartKind>)
      modifies if factory.Some? then Attached(factory.value) else {}
      ensures calls == CreationCalls(factory)
      ensures r.Failure? <==> CreationError(factory).Some?
      ensures r.Failure? ==> r.error == CreationError(factory).value
      ensures r.Success? ==> fresh(r.value) && r.value.Valid() && r.value.State() == MachineState(false, [])
      ensures r.Success? ==>
        && r.value.processor == factory.value.processor && r.value.memory == factory.value.memory
        && r.value.firmware == factory.value.firmware && r.value.storage == factory.value.storage
      ensures factory.Some? ==> forall p :: p in Attached(factory.value) ==>
        p.machine != null && fresh(p.machine) && (r.Success? ==> p.machine == r.value)
    {
      calls := [];
      if factory.None? {
        return Failure(ArgumentNull), calls;
      }
      var f := factory.value;
      var m := new SrvmMachine.Blank();
      calls := calls + [Processor];
      if f.processor == null {
        return Failure(PartsMissing(Processor)), calls;
      }
      m.processor := f.processor;
      f.processor.machine := m;
      calls := calls + [Memory];
      if f.memory == null {
        return Failure(PartsMissing(Memory)), calls;
      }
      m.memory := f.memory;
      f.memory.machine := m;
      calls := calls + [Firmware];
      if f.firmware == null {
        return Failure(PartsMissing(Firmware)), calls;
      }
      m.firmware := f.firmware;
      f.firmware.machine := m;
      calls := calls + [Storage];
      if f.storage == null {
        return Failure(PartsMissing(Storage)), calls;
      }
      m.storage := f.storage;
      f.storage.machine := m;
      r := Success(m);
    }

    /** Dispose(bool disposing); each part's own Dispose is the entry it adds
        to the disposal log. */
    method DisposeWith(disposing: bool)
      modifies this`disposed, this`disposalLog
      ensures State() == AfterDispose(old(State()), disposing)
    {
      if disposed {
        return;
      }
      if disposing {
        disposalLog := disposalLog + [Storage];
        disposalLog := disposalLog + [Firmware];
        disposalLog := disposalLog + [Memory];
        disposalLog := disposalLog + [Processor];
      }
      disposed := true;
    }

    /** The public Dispose(), which takes the managed path. */
    method Dispose()
      modifies this`disposed, this`disposalLog
      ensures State() == AfterDispose(old(State()), true)
    {
      DisposeWith(true);
    }

    /** CreateProcess(path): after the guard, the memory part creates the
        process; the result names the part the call is handed to. */
    function CreateProcess(path: string): (r: Result<MachinePart?>)
      reads this
      ensures Guard(State()).Fail? ==> r == Failure(ObjectDisposed)
      ensures Guard(State()) == Pass ==> r == Success(memory)
    {
      if disposed then Failure(ObjectDisposed) else Success(memory)
    }

    /** GetPeripheral<T>(name): after the guard, the firmware's peripheral for
        the name, given here as `lookup`, has its target instance cast to T;
        the cast yields null when the instance is null or not a T. */
    function GetPeripheral(lookup: string -> Option<HostInstance>, name: string, t: string): (r: Result<Option<HostInstance>>)
      reads this
      ensures Guard(State()).Fail? ==> r == Failure(ObjectDisposed)
      ensures Guard(State()) == Pass ==> r.Success?
      ensures r.Success? ==> (r.value.Some? <==> lookup(name).Some? && t in lookup(name).value.types)
      ensures r.Success? && r.value.Some? ==> r.value == lookup(name)
    {
      if disposed then Failure(ObjectDisposed)
      else match lookup(name)
        case Some(instance) => if t in instance.types then Success(Some(instance)) else Success(None)
        case None => Success(None)
    }
  }
}
