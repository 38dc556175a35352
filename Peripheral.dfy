/** SrvmPeripheral's function registry: a counter handing out sequential ids,
    a table from function name to id and a table from id to host callback. */
module Peripheral {
  import opened Wrappers

  /** The registry's three fields, as one value. */
  datatype Tables<F> = Tables(nextFunctionID: int, functionIDTable: map<string, int>, functionTable: map<int, F>)

  const Empty: Tables<int> := Tables(0, map[], map[])

  /** Every id a name maps to has a callback, and every id with a callback
      was handed out before. */
  ghost predicate Consistent<F>(t: Tables<F>) {
    && 0 <= t.nextFunctionID
    && (forall name :: name in t.functionIDTable ==> t.functionIDTable[name] in t.functionTable)
    && (forall id :: id in t.functionTable ==> 0 <= id < t.nextFunctionID)
  }

  /** AddFunction: the counter's current value is the new id. */
  function Add<F>(t: Tables<F>, name: string, f: F): (r: Tables<F>)
    ensures r.nextFunctionID == t.nextFunctionID + 1
    ensures Consistent(t) ==> Consistent(r)
  {
    Tables(t.nextFunctionID + 1, t.functionIDTable[name := t.nextFunctionID], t.functionTable[t.nextFunctionID := f])
  }

  /** The registrations a SetupFunction makes, in order. */
  function AddAll<F>(t: Tables<F>, registrations: seq<(string, F)>): (r: Tables<F>)
    ensures r.nextFunctionID == t.nextFunctionID + |registrations|
    ensures Consistent(t) ==> Consistent(r)
    decreases |registrations|
  {
    if registrations == [] then t
    else AddAll(Add(t, registrations[0].0, registrations[0].1), registrations[1..])
  }

  /** GetFunctionID: the id, or -1 for an unknown name. */
  function IdOf<F>(t: Tables<F>, name: string): (r: int)
    requires Consistent(t)
    ensures r == -1 <==> name !in t.functionIDTable
    ensures r != -1 ==> 0 <= r < t.nextFunctionID && r in t.functionTable
  {
    if name in t.functionIDTable then t.functionIDTable[name] else -1
  }

  /** GetFunction: the callback, or null (None) for an unknown id. */
  function FunctionOf<F>(t: Tables<F>, id: int): (r: Option<F>)
    ensures r.Some? <==> id in t.functionTable
    ensures r.Some? ==> r.value == t.functionTable[id]
  {
    if id in t.functionTable then Some(t.functionTable[id]) else None
  }

  /** After AddFunction(name, f) the name's id is the old counter and that id
      gives back f. */
  lemma AddThenLookUp<F>(t: Tables<F>, name: string, f: F)
    requires Consistent(t)
    ensures IdOf(Add(t, name, f), name) == t.nextFunctionID
    ensures FunctionOf(Add(t, name, f), IdOf(Add(t, name, f), name)) == Some(f)
  {
  }

  /** Registering a name again gives it a new id; the old id keeps the old
      callback. */
  lemma ReRegisterKeepsOldCallback<F>(t: Tables<F>, name: string, f: F, g: F)
    requires Consistent(t)
    ensures var t2 := Add(Add(t, name, f), name, g);
      && IdOf(t2, name) == t.nextFunctionID + 1
      && FunctionOf(t2, t.nextFunctionID) == Some(f)
      && FunctionOf(t2, t.nextFunctionID + 1) == Some(g)
  {
  }

  /** The i-th registration gets id start + i, whatever the names. */
  lemma {:induction false} IdsFollowRegistrationOrder<F>(t: Tables<F>, registrations: seq<(string, F)>, i: int)
    requires 0 <= i < |registrations|
    ensures FunctionOf(AddAll(t, registrations), t.nextFunctionID + i) == Some(registrations[i].1)
    decreases |registrations|
  {
    if i > 0 {
      IdsFollowRegistrationOrder(Add(t, registrations[0].0, registrations[0].1), registrations[1..], i - 1);
    } else {
      CallbackKept(Add(t, registrations[0].0, registrations[0].1), registrations[1..], t.nextFunctionID);
    }
  }

  /** A callback stored under an id below the counter survives later registrations. */
  lemma {:induction false} CallbackKept<F>(t: Tables<F>, registrations: seq<(string, F)>, id: int)
    requires id < t.nextFunctionID
    ensures FunctionOf(AddAll(t, registrations), id) == FunctionOf(t, id)
    decreases |registrations|
  {
    if registrations != [] {
      CallbackKept(Add(t, registrations[0].0, registrations[0].1), registrations[1..], id);
    }
  }

  /** A name registered several times ends with the id of its last registration. */
  lemma {:induction false} LastRegistrationWins<F>(t: Tables<F>, registrations: seq<(string, F)>, i: int)
    requires Consistent(t) && 0 <= i < |registrations|
    requires forall j :: i < j < |registrations| ==> registrations[j].0 != registrations[i].0
    ensures IdOf(AddAll(t, registrations), registrations[i].0) == t.nextFunctionID + i
    decreases |registrations|
  {
    var t1 := Add(t, registrations[0].0, registrations[0].1);
    if i > 0 {
      LastRegistrationWins(t1, registrations[1..], i - 1);
    } else {
      NameKept(t1, registrations[1..], registrations[0].0);
    }
  }

  /** A name no later registration uses keeps its id. */
  lemma {:induction false} NameKept<F>(t: Tables<F>, registrations: seq<(string, F)>, name: string)
    requires Consistent(t)
    requires forall j :: 0 <= j < |registrations| ==> registrations[j].0 != name
    ensures IdOf(AddAll(t, registrations), name) == IdOf(t, name)
    decreases |registrations|
  {
    if registrations != [] {
      NameKept(Add(t, registrations[0].0, registrations[0].1), registrations[1..], name);
    }
  }

  /** UnregisterFunctionAll: both tables emptied, the counter kept. */
  function Cleared<F>(t: Tables<F>): (r: Tables<F>)
    ensures Consistent(r) <==> 0 <= t.nextFunctionID
    ensures r.nextFunctionID == t.nextFunctionID
  {
    Tables(t.nextFunctionID, map[], map[])
  }

  /** Ids are never reused: after clearing, the next registration gets an id
      above every id handed out before. */
  lemma ClearDoesNotReuseIds<F>(t: Tables<F>, name: string, f: F)
    requires Consistent(t)
    ensures IdOf(Add(Cleared(t), name, f), name) == t.nextFunctionID
    ensures forall id :: id in t.functionTable ==> id < IdOf(Add(Cleared(t), name, f), name)
  {
  }

  class SrvmPeripheral<F> {
    var nextFunctionID: int
    var functionIDTable: map<string, int>
    var functionTable: map<int, F>

    function State(): Tables<F>
      reads this
    {
      Tables(nextFunctionID, functionIDTable, functionTable)
    }

    ghost predicate Valid()
      reads this
    {
      Consistent(State())
    }

    constructor ()
      ensures Valid() && nextFunctionID == 0 && functionIDTable == map[] && functionTable == map[]
    {
      nextFunctionID := 0;
      functionIDTable := map[];
      functionTable := map[];
    }

    /** InitializeFunctionTable: SetupFunction's calls of the registration
        callback, given as the sequence of (name, callback) it registers. */
    method InitializeFunctionTable(registrations: seq<(string, F)>)
      requires Valid()
      modifies this
      ensures Valid() && State() == AddAll(old(State()), registrations)
    {
      var i := 0;
      while i < |registrations|
        invariant 0 <= i <= |registrations| && Valid()
        invariant AddAll(State(), registrations[i..]) == AddAll(old(State()), registrations)
      {
        assert registrations[i..][1..] == registrations[i + 1..];
        AddFunction(registrations[i].0, registrations[i].1);
        i := i + 1;
      }
    }

    method UnregisterFunctionAll()
      requires Valid()
      modifies this
      ensures Valid() && State() == Cleared(old(State()))
    {
      functionTable := map[];
      functionIDTable := map[];
    }

    /** GetFunctionID: -1 for an unknown name, otherwise an id already issued
        that has a callback. */
    function GetFunctionID(name: string): (r: int)
      requires Valid()
      reads this
      ensures r == -1 <==> name !in functionIDTable
      ensures r != -1 ==> 0 <= r < nextFunctionID && r in functionTable
    {
      IdOf(State(), name)
    }

    /** GetFunction: the callback registered under the id, or null. */
    function GetFunction(id: int): (r: Option<F>)
      reads this
      ensures r.Some? <==> id in functionTable
      ensures r.Some? ==> r.value == functionTable[id]
    {
      FunctionOf(State(), id)
    }

    method AddFunction(name: string, hostFunction: F)
      requires Valid()
      modifies this
      ensures Valid() && State() == Add(old(State()), name, hostFunction)
    {
      var functionID := nextFunctionID;
      nextFunctionID := nextFunctionID + 1;
      functionIDTable := functionIDTable[name := functionID];
      functionTable := functionTable[functionID := hostFunction];
    }
  }
}
