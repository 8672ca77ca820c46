/**
 * The VM lifecycle of src/state.rs as step functions over the registry
 * (the in-memory map from id to entry) and the store's table. Each step
 * gives the operation's result, the registry it leaves and what it did
 * to the outside world: processes spawned and killed, control calls
 * sent, orphaned sockets removed. The hypervisor, the process spawner and
 * the store are parameters saying how each of their calls turns out.
 */
module Lifecycle {
  import opened Wrappers
  import opened Models
  import Persistence
  import Fc = Firecracker

  /** A registry entry: the record and, while the VM runs or is paused, its process handle. */
  datatype VmEntry = VmEntry(vm: Vm, process: Option<Fc.Process>)

  datatype ManagerError =
    | VmNotFound(id: string)
    | VmAlreadyExists(name: string)
    | InvalidState(current: VmState, operation: string)
    | FirecrackerError(error: Fc.FirecrackerError)
    | PersistenceError(message: string)

  /** The `Display` text of a manager error. */
  function ErrorText(e: ManagerError): string {
    match e
    case VmNotFound(id) => "VM not found: " + id
    case VmAlreadyExists(name) => "VM already exists: " + name
    case InvalidState(current, op) => "Invalid state " + StateDebug(current) + " for operation: " + op
    case FirecrackerError(err) => "Firecracker error: " + Fc.ErrorText(err)
    case PersistenceError(msg) => "Persistence error: " + msg
  }

  /** `From<PersistenceError>`: a store error is kept as its text. */
  function FromStore(e: Persistence.PersistenceError): ManagerError {
    PersistenceError(Persistence.ErrorText(e))
  }

  /** What an operation does outside the registry and the store. */
  datatype Effect =
    | Spawned(id: string)
    | Requested(id: string, call: Fc.Call)
    | Killed(id: string)
    | OrphanCleaned(id: string)

  type Vms = map<string, VmEntry>

  datatype Registry = Registry(vms: Vms, store: Persistence.Table)

  /** An operation's result, the registry afterwards, and its effects in order. */
  datatype Outcome<T> = Outcome(result: Result<T, ManagerError>, after: Registry, effects: seq<Effect>)

  /** The states in which the VM has a hypervisor process. */
  predicate Live(s: VmState) {
    s == Running || s == Paused
  }

  /** The states `start_vm`, `stop_vm` and `pause_vm` accept. */
  predicate StartAccepts(s: VmState) {
    s == Created || s == Stopped || s == Paused
  }

  predicate StopAccepts(s: VmState) {
    s == Running || s == Paused
  }

  predicate PauseAccepts(s: VmState) {
    s == Running
  }

  function Requests(id: string, calls: seq<Fc.Call>): (es: seq<Effect>)
    ensures |es| == |calls| && forall i :: 0 <= i < |calls| ==> es[i] == Requested(id, calls[i])
  {
    if calls == [] then [] else [Requested(id, calls[0])] + Requests(id, calls[1..])
  }

  // ---------------------------------------------------------------------
  // The operations

  predicate NameHeld(vms: Vms, name: string) {
    exists k :: k in vms && vms[k].vm.name == name
  }

  /** b is a with at most the entry under id changed, and that one only in its state and process. */
  predicate OnlyStateChanged(b: Vms, a: Vms, id: string) {
    && b.Keys == a.Keys
    && (forall k :: k in a && k != id ==> b[k] == a[k])
    && (id in a ==> b[id].vm == a[id].vm.(state := b[id].vm.state))
  }

  /** `create_vm`; `id` is the fresh `Uuid::new_v4()` text. */
  function CreateStep(r: Registry, id: string, name: string, config: VmConfig,
                      fault: Option<Persistence.StoreFault>): Outcome<Vm>
  {
    if NameHeld(r.vms, name) then Outcome(Err(VmAlreadyExists(name)), r, [])
    else
      var vm := NewVm(id, name, config);
      var w := Persistence.SaveResult(r.store, vm, fault);
      if w.result.Err? then Outcome(Err(FromStore(w.result.error)), Registry(r.vms, w.table), [])
      else Outcome(Ok(vm), Registry(r.vms[id := VmEntry(vm, None)], w.table), [])
  }

  /**
   * `start_vm`. From Created or Stopped: spawn, configure, start, persist,
   * killing the process when any later step fails. From Paused: resume,
   * persist, pausing again when persisting fails.
   */
  function StartStep(r: Registry, id: string, spawn: Result<(), Fc.FirecrackerError>, control: Fc.Control,
                     fault: Option<Persistence.StoreFault>): (o: Outcome<Vm>)
    ensures OnlyStateChanged(o.after.vms, r.vms, id)
  {
    if id !in r.vms then Outcome(Err(VmNotFound(id)), r, [])
    else
      var entry := r.vms[id];
      var vm := entry.vm;
      match vm.state
      case Running => Outcome(Err(InvalidState(Running, "start")), r, [])
      case Paused =>
        var resumed := Fc.ResumeVm(control, vm);
        var sent := [Requested(id, Fc.ResumeInstance)];
        if resumed.Err? then Outcome(Err(FirecrackerError(resumed.error)), r, sent)
        else
          var w := Persistence.UpdateStateResult(r.store, id, Running, fault);
          if w.result.Err? then
            Outcome(Err(FromStore(w.result.error)), r, sent + [Requested(id, Fc.PauseInstance)])
          else
            Outcome(Ok(vm.(state := Running)), Registry(r.vms[id := entry.(vm := vm.(state := Running))], w.table), sent)
      case _ =>
        if spawn.Err? then Outcome(Err(FirecrackerError(spawn.error)), r, [])
        else
          var (calls, configured) := Fc.ConfigureVm(control, vm);
          var sent := [Spawned(id)] + Requests(id, calls);
          if configured.Err? then Outcome(Err(FirecrackerError(configured.error)), r, sent + [Killed(id)])
          else
            var started := Fc.StartInstanceVm(control, vm);
            var sent' := sent + [Requested(id, Fc.InstanceStart)];
            if started.Err? then Outcome(Err(FirecrackerError(started.error)), r, sent' + [Killed(id)])
            else
              var w := Persistence.UpdateStateResult(r.store, id, Running, fault);
              if w.result.Err? then Outcome(Err(FromStore(w.result.error)), r, sent' + [Killed(id)])
              else
                var vm' := vm.(state := Running);
                Outcome(Ok(vm'), Registry(r.vms[id := VmEntry(vm', Some(Fc.ProcessFor(vm)))], w.table), sent')
  }

  /** `stop_vm`: the process is killed and the VM is Stopped even when persisting fails. */
  function StopStep(r: Registry, id: string, fault: Option<Persistence.StoreFault>): (o: Outcome<Vm>)
    ensures OnlyStateChanged(o.after.vms, r.vms, id)
  {
    if id !in r.vms then Outcome(Err(VmNotFound(id)), r, [])
    else
      var entry := r.vms[id];
      if !StopAccepts(entry.vm.state) then Outcome(Err(InvalidState(entry.vm.state, "stop")), r, [])
      else
        var killed := if entry.process.Some? then [Killed(id)] else [];
        var vm' := entry.vm.(state := Stopped);
        var w := Persistence.UpdateStateResult(r.store, id, Stopped, fault);
        Outcome(Ok(vm'), Registry(r.vms[id := VmEntry(vm', None)], w.table), killed)
  }

  /** `pause_vm`: pause, then persist, resuming again when persisting fails. */
  function PauseStep(r: Registry, id: string, control: Fc.Control,
                     fault: Option<Persistence.StoreFault>): (o: Outcome<Vm>)
    ensures OnlyStateChanged(o.after.vms, r.vms, id)
  {
    if id !in r.vms then Outcome(Err(VmNotFound(id)), r, [])
    else
      var entry := r.vms[id];
      var vm := entry.vm;
      if !PauseAccepts(vm.state) then Outcome(Err(InvalidState(vm.state, "pause")), r, [])
      else
        var paused := Fc.PauseVm(control, vm);
        var sent := [Requested(id, Fc.PauseInstance)];
        if paused.Err? then Outcome(Err(FirecrackerError(paused.error)), r, sent)
        else
          var w := Persistence.UpdateStateResult(r.store, id, Paused, fault);
          if w.result.Err? then
            Outcome(Err(FromStore(w.result.error)), r, sent + [Requested(id, Fc.ResumeInstance)])
          else
            Outcome(Ok(vm.(state := Paused)), Registry(r.vms[id := entry.(vm := vm.(state := Paused))], w.table), sent)
  }

  /** `get_vm`. */
  function GetStep(vms: Vms, id: string): (r: Result<Vm, ManagerError>)
    ensures r.Ok? <==> id in vms
    ensures r.Ok? ==> r.value == vms[id].vm
    ensures r.Err? ==> r.error == VmNotFound(id)
  {
    if id in vms then Ok(vms[id].vm) else Err(VmNotFound(id))
  }

  /** `delete_vm`: the process is killed first, the entry removed only once the store has deleted the record. */
  function DeleteStep(r: Registry, id: string, fault: Option<Persistence.StoreFault>): Outcome<()> {
    if id !in r.vms then Outcome(Err(VmNotFound(id)), r, [])
    else
      var killed := if r.vms[id].process.Some? then [Killed(id)] else [];
      var w := Persistence.DeleteResult(r.store, id, fault);
      if w.result.Err? then Outcome(Err(FromStore(w.result.error)), Registry(r.vms, w.table), killed)
      else Outcome(Ok(()), Registry(r.vms - {id}, w.table), killed)
  }

  /**
   * `reconcile_vm_state`: a VM recorded as Running or Paused lost its
   * process with the restart and becomes Stopped; if its control socket
   * is still there, the orphan's sockets are removed.
   */
  function Reconcile(vm: Vm, socketExists: bool): (VmState, seq<Effect>) {
    if Live(vm.state) then (Stopped, if socketExists then [OrphanCleaned(vm.id)] else [])
    else (vm.state, [])
  }

  /**
   * One pass of the loop of `initialize`: reconcile the record, save it
   * back when its state changed, and insert it without a process; a
   * failed save ends the loop with the error.
   */
  function InitializeOne(vm: Vm, r: Registry, socketExists: string -> bool,
                         saveFault: string -> Option<Persistence.StoreFault>): Outcome<()>
  {
    var (s, cleaned) := Reconcile(vm, socketExists(vm.socketPath));
    var vm' := vm.(state := s);
    var w := if vm.state != s then Persistence.SaveResult(r.store, vm', saveFault(vm.id))
             else Persistence.Written(Ok(()), r.store);
    if w.result.Err? then Outcome(Err(FromStore(w.result.error)), Registry(r.vms, w.table), cleaned)
    else Outcome(Ok(()), Registry(r.vms[vm.id := VmEntry(vm', None)], w.table), cleaned)
  }

  /** The loop of `initialize` over the loaded records, stopping at the first error. */
  function InitializeFrom(loaded: seq<Vm>, r: Registry, socketExists: string -> bool,
                          saveFault: string -> Option<Persistence.StoreFault>): Outcome<()>
    decreases |loaded|
  {
    if loaded == [] then Outcome(Ok(()), r, [])
    else
      var one := InitializeOne(loaded[0], r, socketExists, saveFault);
      if one.result.Err? then one
      else
        var rest := InitializeFrom(loaded[1..], one.after, socketExists, saveFault);
        rest.(effects := one.effects + rest.effects)
  }

  /** The loop from position `i` on is one pass followed, when that pass succeeds, by the loop from `i + 1` on. */
  lemma InitializeFromAt(loaded: seq<Vm>, i: nat, r: Registry, socketExists: string -> bool,
                         saveFault: string -> Option<Persistence.StoreFault>)
    requires i < |loaded|
    ensures var one := InitializeOne(loaded[i], r, socketExists, saveFault);
      var o := InitializeFrom(loaded[i..], r, socketExists, saveFault);
      var rest := InitializeFrom(loaded[i + 1..], one.after, socketExists, saveFault);
      && (one.result.Err? ==> o == one)
      && (one.result.Ok? ==> o.result == rest.result && o.after == rest.after && o.effects == one.effects + rest.effects)
  {
    assert loaded[i..][1..] == loaded[i + 1..];
  }

  /** `initialize`: load every record, then run the loop over them in key order. */
  ghost function InitializeStep(r: Registry, loadFault: Option<Persistence.StoreFault>, socketExists: string -> bool,
                                saveFault: string -> Option<Persistence.StoreFault>): Outcome<()>
  {
    if loadFault.Some? then Outcome(Err(FromStore(Persistence.FaultError(loadFault.value))), r, [])
    else InitializeFrom(Persistence.InKeyOrder(r.store, r.store.Keys), r, socketExists, saveFault)
  }

  // ---------------------------------------------------------------------
  // Invariants

  /**
   * Every entry sits under its own id, and has a process exactly when it
   * is Running or Paused, the process of its own paths.
   */
  predicate Coherent(vms: Vms) {
    forall k :: k in vms ==>
      && vms[k].vm.id == k
      && (vms[k].process.Some? <==> Live(vms[k].vm.state))
      && (vms[k].process.Some? ==> vms[k].process.value == Fc.ProcessFor(vms[k].vm))
  }

  /**
   * The stored record of an entry is the entry's record, except that a
   * stop whose persisting failed leaves Running or Paused on disk for a
   * VM that memory has Stopped.
   */
  predicate Reconciles(stored: Vm, current: Vm) {
    stored == current || (current.state == Stopped && Live(stored.state) && stored == current.(state := stored.state))
  }

  /** Every entry is on disk, as its record or as a stop not yet persisted. */
  predicate StoreAgrees(r: Registry) {
    forall k :: k in r.vms ==> k in r.store && Reconciles(r.store[k], r.vms[k].vm)
  }

  /** What the manager keeps true of the registry and the store. */
  predicate Valid(r: Registry) {
    Persistence.KeyedById(r.store) && Coherent(r.vms) && StoreAgrees(r)
  }

  predicate NamesUnique(vms: Vms) {
    forall a, b :: a in vms && b in vms && a != b ==> vms[a].vm.name != vms[b].vm.name
  }

  // ---------------------------------------------------------------------
  // What each operation promises

  /** An unknown id is reported and changes nothing: no call is made, no process touched. */
  lemma UnknownIdChangesNothing(r: Registry, id: string, spawn: Result<(), Fc.FirecrackerError>,
                                control: Fc.Control, fault: Option<Persistence.StoreFault>)
    requires id !in r.vms
    ensures StartStep(r, id, spawn, control, fault) == Outcome(Err(VmNotFound(id)), r, [])
    ensures StopStep(r, id, fault) == Outcome(Err(VmNotFound(id)), r, [])
    ensures PauseStep(r, id, control, fault) == Outcome(Err(VmNotFound(id)), r, [])
    ensures DeleteStep(r, id, fault) == Outcome(Err(VmNotFound(id)), r, [])
    ensures GetStep(r.vms, id) == Err(VmNotFound(id))
  {
  }

  /**
   * `create_vm` refuses a name some entry already has; otherwise it adds
   * exactly one entry, keyed by the new id, in state Created and without a
   * process, once the store has saved it, and nothing when saving fails.
   */
  lemma CreateContract(r: Registry, id: string, name: string, config: VmConfig,
                       fault: Option<Persistence.StoreFault>)
    ensures var o := CreateStep(r, id, name, config, fault);
      && (NameHeld(r.vms, name) ==> o.result == Err(VmAlreadyExists(name)) && o.after == r)
      && (!NameHeld(r.vms, name) && fault.Some? ==> o.result.Err? && o.after == r)
      && (!NameHeld(r.vms, name) && fault.None? ==>
            && o.result == Ok(NewVm(id, name, config))
            && o.after.vms.Keys == r.vms.Keys + {id}
            && o.after.vms[id] == VmEntry(o.result.value, None)
            && o.result.value.state == Created && o.result.value.name == name && o.result.value.config == config
            && (forall k :: k in r.vms && k != id ==> o.after.vms[k] == r.vms[k])
            && id in o.after.store && o.after.store[id] == o.result.value)
      && o.effects == []
  {
  }

  /** Only `create_vm` inserts after `initialize`, and it keeps the names distinct. */
  lemma CreateKeepsNamesUnique(r: Registry, id: string, name: string, config: VmConfig,
                               fault: Option<Persistence.StoreFault>)
    requires NamesUnique(r.vms)
    ensures NamesUnique(CreateStep(r, id, name, config, fault).after.vms)
  {
    var vms' := CreateStep(r, id, name, config, fault).after.vms;
    if !NameHeld(r.vms, name) && fault.None? {
      forall a, b | a in vms' && b in vms' && a != b
        ensures vms'[a].vm.name != vms'[b].vm.name
      {
        if a == id {
          assert b in r.vms && vms'[b] == r.vms[b];
        } else if b == id {
          assert a in r.vms && vms'[a] == r.vms[a];
        }
      }
    }
  }

  /** b has a subset of a's keys and the same name under each. */
  predicate NamesWithin(b: Vms, a: Vms) {
    b.Keys <= a.Keys && forall k :: k in b ==> b[k].vm.name == a[k].vm.name
  }

  lemma NamesWithinKeepUnique(b: Vms, a: Vms)
    requires NamesUnique(a) && NamesWithin(b, a)
    ensures NamesUnique(b)
  {
  }

  lemma OnlyStateChangedKeepsNames(b: Vms, a: Vms, id: string)
    requires NamesUnique(a) && OnlyStateChanged(b, a, id)
    ensures NamesUnique(b)
  {
    NamesWithinKeepUnique(b, a);
  }

  /** The other steps only change a state or remove an entry, so names stay distinct. */
  lemma StartKeepsNamesUnique(r: Registry, id: string, spawn: Result<(), Fc.FirecrackerError>,
                              control: Fc.Control, fault: Option<Persistence.StoreFault>)
    requires NamesUnique(r.vms)
    ensures NamesUnique(StartStep(r, id, spawn, control, fault).after.vms)
  {
    OnlyStateChangedKeepsNames(StartStep(r, id, spawn, control, fault).after.vms, r.vms, id);
  }

  lemma StopKeepsNamesUnique(r: Registry, id: string, fault: Option<Persistence.StoreFault>)
    requires NamesUnique(r.vms)
    ensures NamesUnique(StopStep(r, id, fault).after.vms)
  {
    OnlyStateChangedKeepsNames(StopStep(r, id, fault).after.vms, r.vms, id);
  }

  lemma PauseKeepsNamesUnique(r: Registry, id: string, control: Fc.Control, fault: Option<Persistence.StoreFault>)
    requires NamesUnique(r.vms)
    ensures NamesUnique(PauseStep(r, id, control, fault).after.vms)
  {
    OnlyStateChangedKeepsNames(PauseStep(r, id, control, fault).after.vms, r.vms, id);
  }

  lemma DeleteKeepsNamesUnique(r: Registry, id: string, fault: Option<Persistence.StoreFault>)
    requires NamesUnique(r.vms)
    ensures NamesUnique(DeleteStep(r, id, fault).after.vms)
  {
    NamesWithinKeepUnique(DeleteStep(r, id, fault).after.vms, r.vms);
  }

  /**
   * `start_vm` from Created or Stopped: any failure leaves the registry
   * and the store as they were, and a process it spawned is killed last;
   * success makes the entry Running with its process, on disk as well.
   */
  lemma StartFromIdle(r: Registry, id: string, spawn: Result<(), Fc.FirecrackerError>,
                      control: Fc.Control, fault: Option<Persistence.StoreFault>)
    requires id in r.vms && r.vms[id].vm.state in {Created, Stopped}
    requires id in r.store
    ensures var o := StartStep(r, id, spawn, control, fault);
      && (o.result.Err? ==> o.after == r)
      && (o.result.Err? && o.effects != [] ==> o.effects[0] == Spawned(id) && o.effects[|o.effects| - 1] == Killed(id))
      && (o.result.Err? && o.effects == [] ==> spawn.Err?)
      && (o.result.Ok? <==> spawn.Ok? && Fc.ConfigureVm(control, r.vms[id].vm).1.Ok?
                              && Fc.StartInstanceVm(control, r.vms[id].vm).Ok? && fault.None?)
      && (o.result.Ok? ==>
            && o.after.vms == r.vms[id := VmEntry(r.vms[id].vm.(state := Running), Some(Fc.ProcessFor(r.vms[id].vm)))]
            && o.after.store[id] == r.store[id].(state := Running)
            && Killed(id) !in o.effects)
  {
    StartIsUpdate(r, id, spawn, control, fault);
    var o := StartStep(r, id, spawn, control, fault);
    var (calls, configured) := Fc.ConfigureVm(control, r.vms[id].vm);
    if o.result.Ok? {
      var rs := Requests(id, calls);
      assert o.effects == [Spawned(id)] + rs + [Requested(id, Fc.InstanceStart)];
      assert forall i :: 0 <= i < |o.effects| ==> !o.effects[i].Killed?;
    }
  }

  /**
   * `start_vm` from Paused resumes: when persisting fails it pauses the
   * VM again and the entry stays Paused; from Running it is refused.
   */
  lemma StartFromPausedOrRunning(r: Registry, id: string, spawn: Result<(), Fc.FirecrackerError>,
                                 control: Fc.Control, fault: Option<Persistence.StoreFault>)
    requires id in r.vms && id in r.store
    ensures var o := StartStep(r, id, spawn, control, fault);
      var vm := r.vms[id].vm;
      && (vm.state == Running ==> o == Outcome(Err(InvalidState(Running, "start")), r, []))
      && (vm.state == Paused ==>
            && o.effects[0] == Requested(id, Fc.ResumeInstance)
            && (o.result.Err? ==> o.after == r)
            && (o.result.Err? && Fc.ResumeVm(control, vm).Ok? ==>
                  o.effects == [Requested(id, Fc.ResumeInstance), Requested(id, Fc.PauseInstance)])
            && (o.result.Ok? <==> Fc.ResumeVm(control, vm).Ok? && fault.None?)
            && (o.result.Ok? ==> o.after.vms[id] == r.vms[id].(vm := vm.(state := Running))
                                 && o.after.store[id] == r.store[id].(state := Running)))
  {
  }

  /**
   * `stop_vm` is accepted from Running and Paused only, and then always
   * ends Stopped without a process, whether or not persisting succeeds;
   * otherwise it is refused and nothing changes.
   */
  lemma StopAlwaysStops(r: Registry, id: string, fault: Option<Persistence.StoreFault>)
    requires id in r.vms
    ensures var o := StopStep(r, id, fault);
      var vm := r.vms[id].vm;
      && (StopAccepts(vm.state) ==>
            && o.result == Ok(vm.(state := Stopped))
            && o.after.vms == r.vms[id := VmEntry(vm.(state := Stopped), None)]
            && o.effects == (if r.vms[id].process.Some? then [Killed(id)] else [])
            && o.after.store == Persistence.UpdateStateResult(r.store, id, Stopped, fault).table
            && (fault.None? && id in r.store ==> o.after.store == r.store[id := r.store[id].(state := Stopped)])
            && (fault.Some? || id !in r.store ==> o.after.store == r.store))
      && (!StopAccepts(vm.state) ==> o == Outcome(Err(InvalidState(vm.state, "stop")), r, []))
  {
  }

  /**
   * `pause_vm` is accepted from Running only. Any failure leaves the VM
   * Running, and a failure to persist resumes it; success makes it Paused.
   */
  lemma PauseContract(r: Registry, id: string, control: Fc.Control, fault: Option<Persistence.StoreFault>)
    requires id in r.vms && id in r.store
    ensures var o := PauseStep(r, id, control, fault);
      var vm := r.vms[id].vm;
      && (!PauseAccepts(vm.state) ==> o == Outcome(Err(InvalidState(vm.state, "pause")), r, []))
      && (PauseAccepts(vm.state) && o.result.Err? ==> o.after == r && o.effects[0] == Requested(id, Fc.PauseInstance))
      && (PauseAccepts(vm.state) && o.result.Err? && Fc.PauseVm(control, vm).Ok? ==>
            o.effects == [Requested(id, Fc.PauseInstance), Requested(id, Fc.ResumeInstance)])
      && (o.result.Ok? <==> PauseAccepts(vm.state) && Fc.PauseVm(control, vm).Ok? && fault.None?)
      && (o.result.Ok? ==> o.after.vms[id] == r.vms[id].(vm := vm.(state := Paused))
                           && o.after.store[id] == r.store[id].(state := Paused))
  {
  }

  /**
   * Each state-changing operation refuses with InvalidState exactly in
   * the states it does not accept; no failure of the hypervisor or the
   * store is ever reported as InvalidState.
   */
  lemma RefusedExactlyOutsideAcceptance(r: Registry, id: string, spawn: Result<(), Fc.FirecrackerError>,
                                       control: Fc.Control, fault: Option<Persistence.StoreFault>)
    requires id in r.vms
    ensures var s := r.vms[id].vm.state;
      && (StartStep(r, id, spawn, control, fault).result.Err? && StartStep(r, id, spawn, control, fault).result.error.InvalidState?
          <==> !StartAccepts(s))
      && (StopStep(r, id, fault).result.Err? && StopStep(r, id, fault).result.error.InvalidState? <==> !StopAccepts(s))
      && (PauseStep(r, id, control, fault).result.Err? && PauseStep(r, id, control, fault).result.error.InvalidState?
          <==> !PauseAccepts(s))
  {
  }

  /**
   * `delete_vm` removes the entry only after the store deleted the record,
   * and touches no other entry. The process is killed before the store is
   * asked, so when the store fails the entry is kept as it was, process
   * handle and Running state included, though its process has been killed.
   */
  lemma DeleteContract(r: Registry, id: string, fault: Option<Persistence.StoreFault>)
    requires id in r.vms
    ensures var o := DeleteStep(r, id, fault);
      && (o.result.Ok? <==> fault.None?)
      && (o.result.Ok? ==> o.after.vms == r.vms - {id} && o.after.store == r.store - {id})
      && (o.result.Err? ==> o.after == r)
      && (r.vms[id].process.Some? <==> o.effects == [Killed(id)])
      && (r.vms[id].process.None? ==> o.effects == [])
  {
  }

  /** The quirk spelled out: a failed delete of a running VM leaves a Running entry whose process was killed. */
  lemma DeleteOfRunningVmCanLeaveDeadEntry(r: Registry, id: string, fault: Persistence.StoreFault)
    requires Valid(r) && id in r.vms && r.vms[id].vm.state == Running
    ensures var o := DeleteStep(r, id, Some(fault));
      && o.result.Err?
      && Killed(id) in o.effects
      && o.after.vms[id].vm.state == Running && o.after.vms[id].process.Some?
  {
    var o := DeleteStep(r, id, Some(fault));
    assert o.effects == [Killed(id)];
  }

  // ---------------------------------------------------------------------
  // The invariant is kept by every operation

  lemma CreatePreservesValid(r: Registry, id: string, name: string, config: VmConfig,
                             fault: Option<Persistence.StoreFault>)
    requires Valid(r)
    ensures Valid(CreateStep(r, id, name, config, fault).after)
  {
  }

  /** Persisting a new state for an entry and giving it the matching process keeps the invariant. */
  lemma UpdateKeepsValid(r: Registry, id: string, s: VmState, process: Option<Fc.Process>,
                         fault: Option<Persistence.StoreFault>)
    requires Valid(r) && id in r.vms
    requires Persistence.UpdateStateResult(r.store, id, s, fault).result.Ok?
    requires process.Some? <==> Live(s)
    requires process.Some? ==> process == Some(Fc.ProcessFor(r.vms[id].vm))
    ensures Valid(Registry(r.vms[id := VmEntry(r.vms[id].vm.(state := s), process)],
                           Persistence.UpdateStateResult(r.store, id, s, fault).table))
  {
    assert Reconciles(r.store[id], r.vms[id].vm);
  }

  /**
   * `start_vm` either fails and changes nothing, or persists Running for
   * a known VM and gives it Running with a process: the resumed one, or
   * the one just spawned.
   */
  lemma StartIsUpdate(r: Registry, id: string, spawn: Result<(), Fc.FirecrackerError>,
                      control: Fc.Control, fault: Option<Persistence.StoreFault>)
    ensures var o := StartStep(r, id, spawn, control, fault);
      && (o.result.Err? ==> o.after == r)
      && (o.result.Ok? ==>
            && id in r.vms && StartAccepts(r.vms[id].vm.state)
            && Persistence.UpdateStateResult(r.store, id, Running, fault).result.Ok?
            && o.after == Registry(r.vms[id := VmEntry(r.vms[id].vm.(state := Running),
                                                       if r.vms[id].vm.state == Paused then r.vms[id].process
                                                       else Some(Fc.ProcessFor(r.vms[id].vm)))],
                                   Persistence.UpdateStateResult(r.store, id, Running, fault).table))
  {
    if id in r.vms && r.vms[id].vm.state == Paused {
      var entry := r.vms[id];
      assert entry.(vm := entry.vm.(state := Running)) == VmEntry(entry.vm.(state := Running), entry.process);
    }
  }

  lemma StartPreservesValid(r: Registry, id: string, spawn: Result<(), Fc.FirecrackerError>,
                            control: Fc.Control, fault: Option<Persistence.StoreFault>)
    requires Valid(r)
    ensures Valid(StartStep(r, id, spawn, control, fault).after)
  {
    StartIsUpdate(r, id, spawn, control, fault);
    if StartStep(r, id, spawn, control, fault).result.Ok? {
      var entry := r.vms[id];
      UpdateKeepsValid(r, id, Running, if entry.vm.state == Paused then entry.process else Some(Fc.ProcessFor(entry.vm)), fault);
    }
  }

  lemma StopPreservesValid(r: Registry, id: string, fault: Option<Persistence.StoreFault>)
    requires Valid(r)
    ensures Valid(StopStep(r, id, fault).after)
  {
  }

  /** `pause_vm` either fails and changes nothing, or persists Paused for a Running VM and makes it Paused. */
  lemma PauseIsUpdate(r: Registry, id: string, control: Fc.Control, fault: Option<Persistence.StoreFault>)
    ensures var o := PauseStep(r, id, control, fault);
      && (o.result.Err? ==> o.after == r)
      && (o.result.Ok? ==>
            && id in r.vms && r.vms[id].vm.state == Running
            && Persistence.UpdateStateResult(r.store, id, Paused, fault).result.Ok?
            && o.after == Registry(r.vms[id := VmEntry(r.vms[id].vm.(state := Paused), r.vms[id].process)],
                                   Persistence.UpdateStateResult(r.store, id, Paused, fault).table))
  {
    if id in r.vms {
      var entry := r.vms[id];
      assert entry.(vm := entry.vm.(state := Paused)) == VmEntry(entry.vm.(state := Paused), entry.process);
    }
  }

  lemma PausePreservesValid(r: Registry, id: string, control: Fc.Control, fault: Option<Persistence.StoreFault>)
    requires Valid(r)
    ensures Valid(PauseStep(r, id, control, fault).after)
  {
    PauseIsUpdate(r, id, control, fault);
    if PauseStep(r, id, control, fault).result.Ok? {
      UpdateKeepsValid(r, id, Paused, r.vms[id].process, fault);
    }
  }

  lemma DeletePreservesValid(r: Registry, id: string, fault: Option<Persistence.StoreFault>)
    requires Valid(r)
    ensures Valid(DeleteStep(r, id, fault).after)
  {
  }

  // ---------------------------------------------------------------------
  // Restart

  /** No two records of the sequence share an id. */
  predicate DistinctIds(loaded: seq<Vm>) {
    forall i, j :: 0 <= i < j < |loaded| ==> loaded[i].id != loaded[j].id
  }

  /** The loaded records are the stored ones, each id once. */
  predicate StoredRecords(loaded: seq<Vm>, t: Persistence.Table) {
    && (forall i :: 0 <= i < |loaded| ==> loaded[i].id in t && t[loaded[i].id] == loaded[i])
    && DistinctIds(loaded)
  }

  /** What a record becomes when the manager restarts: a live VM is Stopped. */
  function Settled(vm: Vm): (vm': Vm)
    ensures !Live(vm'.state)
    ensures vm' == vm.(state := vm'.state)
    ensures !Live(vm.state) ==> vm' == vm
  {
    if Live(vm.state) then vm.(state := Stopped) else vm
  }

  /** One pass inserts a settled record without a process, and saves or keeps its stored record to match. */
  lemma InitializeOneFacts(vm: Vm, r: Registry, socketExists: string -> bool,
                           saveFault: string -> Option<Persistence.StoreFault>)
    ensures var o := InitializeOne(vm, r, socketExists, saveFault);
      && (o.result.Err? ==> o.after == r && Live(vm.state) && saveFault(vm.id).Some?)
      && (o.result.Ok? ==>
            && o.after.vms == r.vms[vm.id := VmEntry(Settled(vm), None)]
            && o.after.store.Keys == r.store.Keys + (if Live(vm.state) then {vm.id} else {})
            && (Live(vm.state) ==> o.after.store[vm.id] == Settled(vm))
            && (forall k :: k in r.store && k != vm.id ==> o.after.store[k] == r.store[k])
            && (!Live(vm.state) ==> o.after.store == r.store))
      && (saveFault(vm.id).None? ==> o.result.Ok?)
  {
  }

  lemma {:induction false} InitializeFromPreservesValid(loaded: seq<Vm>, r: Registry, socketExists: string -> bool,
                                                        saveFault: string -> Option<Persistence.StoreFault>)
    requires Valid(r) && StoredRecords(loaded, r.store)
    ensures Valid(InitializeFrom(loaded, r, socketExists, saveFault).after)
    decreases |loaded|
  {
    if loaded != [] {
      var vm := loaded[0];
      var one := InitializeOne(vm, r, socketExists, saveFault);
      InitializeOneFacts(vm, r, socketExists, saveFault);
      if one.result.Ok? {
        var r1 := one.after;
        assert Persistence.KeyedById(r1.store) by {
          if Live(vm.state) {
            assert r1.store[vm.id].id == vm.id;
          }
        }
        assert Coherent(r1.vms);
        assert StoreAgrees(r1) by {
          assert vm.id in r1.store && r1.store[vm.id] == Settled(vm);
        }
        forall i | 0 <= i < |loaded[1..]|
          ensures loaded[1..][i].id in r1.store && r1.store[loaded[1..][i].id] == loaded[1..][i]
        {
          assert loaded[1..][i] == loaded[i + 1];
        }
        InitializeFromPreservesValid(loaded[1..], r1, socketExists, saveFault);
      }
    }
  }

  /**
   * Whatever fails, every entry `initialize` leaves is one that was there
   * before or a loaded record that is neither Running nor Paused and has
   * no process.
   */
  lemma {:induction false} InitializeSettles(loaded: seq<Vm>, r: Registry, socketExists: string -> bool,
                                             saveFault: string -> Option<Persistence.StoreFault>)
    ensures var vms' := InitializeFrom(loaded, r, socketExists, saveFault).after.vms;
      forall k :: k in vms' ==>
        (k in r.vms && vms'[k] == r.vms[k]) || (vms'[k].process.None? && !Live(vms'[k].vm.state))
    decreases |loaded|
  {
    if loaded != [] {
      var one := InitializeOne(loaded[0], r, socketExists, saveFault);
      InitializeOneFacts(loaded[0], r, socketExists, saveFault);
      if one.result.Ok? {
        InitializeSettles(loaded[1..], one.after, socketExists, saveFault);
      }
    }
  }

  /** The ids of a sequence of records. */
  function Ids(loaded: seq<Vm>): (ids: set<string>)
    ensures forall i :: 0 <= i < |loaded| ==> loaded[i].id in ids
    ensures forall k :: k in ids ==> exists i :: 0 <= i < |loaded| && loaded[i].id == k
  {
    if loaded == [] then {}
    else
      var ids := {loaded[0].id} + Ids(loaded[1..]);
      assert forall i :: 1 <= i < |loaded| ==> loaded[i] == loaded[1..][i - 1];
      ids
  }

  lemma DistinctTail(loaded: seq<Vm>)
    requires loaded != [] && DistinctIds(loaded)
    ensures DistinctIds(loaded[1..]) && loaded[0].id !in Ids(loaded[1..])
  {
    assert forall i :: 0 <= i < |loaded[1..]| ==> loaded[1..][i] == loaded[i + 1];
  }

  /** A pass that succeeds hands on to the rest of the loop. */
  lemma InitializeFromUnfold(loaded: seq<Vm>, r: Registry, socketExists: string -> bool,
                             saveFault: string -> Option<Persistence.StoreFault>)
    requires loaded != []
    requires InitializeOne(loaded[0], r, socketExists, saveFault).result.Ok?
    ensures var rest := InitializeFrom(loaded[1..], InitializeOne(loaded[0], r, socketExists, saveFault).after, socketExists, saveFault);
      var o := InitializeFrom(loaded, r, socketExists, saveFault);
      o.result == rest.result && o.after == rest.after
  {
  }

  /** With no failed save, `initialize` inserts every loaded record, settled and without a process. */
  lemma {:induction false} InitializeFromWithoutFaults(loaded: seq<Vm>, r: Registry, socketExists: string -> bool,
                                                       saveFault: string -> Option<Persistence.StoreFault>)
    requires forall k :: saveFault(k) == None
    requires DistinctIds(loaded)
    ensures var o := InitializeFrom(loaded, r, socketExists, saveFault);
      && o.result.Ok?
      && o.after.vms.Keys == r.vms.Keys + Ids(loaded)
      && (forall i :: 0 <= i < |loaded| ==> o.after.vms[loaded[i].id] == VmEntry(Settled(loaded[i]), None))
      && (forall k :: k in r.vms && k !in Ids(loaded) ==> o.after.vms[k] == r.vms[k])
    decreases |loaded|
  {
    if loaded != [] {
      var vm := loaded[0];
      var rest := loaded[1..];
      InitializeOneFacts(vm, r, socketExists, saveFault);
      var r1 := InitializeOne(vm, r, socketExists, saveFault).after;
      assert r1.vms == r.vms[vm.id := VmEntry(Settled(vm), None)];
      DistinctTail(loaded);
      InitializeFromWithoutFaults(rest, r1, socketExists, saveFault);
      InitializeFromUnfold(loaded, r, socketExists, saveFault);
      var after := InitializeFrom(rest, r1, socketExists, saveFault).after;
      assert Ids(loaded) == {vm.id} + Ids(rest);
      assert after.vms[vm.id] == VmEntry(Settled(vm), None);
      forall i | 0 <= i < |loaded|
        ensures after.vms[loaded[i].id] == VmEntry(Settled(loaded[i]), None)
      {
        if i > 0 {
          assert loaded[i] == rest[i - 1];
        }
      }
    }
  }

  /** A stored record and the entry it reconciles with settle to the same record. */
  lemma ReconciledSettleAlike(stored: Vm, current: Vm)
    requires Reconciles(stored, current)
    ensures Settled(stored) == Settled(current)
  {
  }

  /** The records a store loads in key order have distinct ids, and their ids are the store's keys. */
  lemma LoadOrderIds(t: Persistence.Table)
    requires Persistence.KeyedById(t)
    ensures DistinctIds(Persistence.InKeyOrder(t, t.Keys))
    ensures Ids(Persistence.InKeyOrder(t, t.Keys)) == t.Keys
  {
    Persistence.LoadOrderIsLoaded(t);
    LoadedIds(Persistence.InKeyOrder(t, t.Keys), t);
  }

  /** Records loaded from a table have distinct ids, and their ids are the table's keys. */
  lemma LoadedIds(loaded: seq<Vm>, t: Persistence.Table)
    requires Persistence.LoadedFrom(loaded, t)
    ensures DistinctIds(loaded)
    ensures Ids(loaded) == t.Keys
  {
    forall i, j | 0 <= i < j < |loaded|
      ensures loaded[i].id != loaded[j].id
    {
      Persistence.LoadedDistinct(loaded, t, i, j);
    }
    forall k | k in t.Keys
      ensures k in Ids(loaded)
    {
      var i :| 0 <= i < |loaded| && loaded[i].id == k;
    }
  }

  /** Running the loop over a store's records, with no failed save, enters each record, settled and without a process. */
  lemma ReloadRecords(loaded: seq<Vm>, t: Persistence.Table, socketExists: string -> bool,
                      saveFault: string -> Option<Persistence.StoreFault>)
    requires Persistence.LoadedFrom(loaded, t)
    requires DistinctIds(loaded)
    requires forall k :: saveFault(k) == None
    ensures var o := InitializeFrom(loaded, Registry(map[], t), socketExists, saveFault);
      && o.result.Ok?
      && o.after.vms.Keys == t.Keys
      && forall k :: k in t ==> o.after.vms[k] == VmEntry(Settled(t[k]), None)
  {
    InitializeFromWithoutFaults(loaded, Registry(map[], t), socketExists, saveFault);
    var o := InitializeFrom(loaded, Registry(map[], t), socketExists, saveFault);
    forall k | k in t
      ensures o.after.vms[k] == VmEntry(Settled(t[k]), None)
    {
      var i :| 0 <= i < |loaded| && loaded[i].id == k;
      assert loaded[i] == t[k];
    }
    assert Ids(loaded) == t.Keys;
  }

  /** Reloading a store with no failed save enters each stored record, settled and without a process. */
  lemma ReloadWithoutFaults(t: Persistence.Table, socketExists: string -> bool,
                            saveFault: string -> Option<Persistence.StoreFault>)
    requires Persistence.KeyedById(t)
    requires forall k :: saveFault(k) == None
    ensures var o := InitializeStep(Registry(map[], t), None, socketExists, saveFault);
      && o.result.Ok?
      && o.after.vms.Keys == t.Keys
      && forall k :: k in t ==> o.after.vms[k] == VmEntry(Settled(t[k]), None)
  {
    LoadOrderIds(t);
    Persistence.LoadOrderIsLoaded(t);
    ReloadRecords(Persistence.InKeyOrder(t, t.Keys), t, socketExists, saveFault);
  }

  /**
   * A restart agrees with the registry it replaces: reloading what a valid
   * manager has stored gives back every entry, Running and Paused
   * ones as Stopped, all without a process, and nothing that was not stored.
   */
  lemma RestartAgreement(r: Registry, socketExists: string -> bool,
                         saveFault: string -> Option<Persistence.StoreFault>)
    requires Valid(r)
    requires forall k :: saveFault(k) == None
    ensures var o := InitializeStep(Registry(map[], r.store), None, socketExists, saveFault);
      && o.result.Ok?
      && o.after.vms.Keys == r.store.Keys
      && forall k :: k in r.vms ==> o.after.vms[k] == VmEntry(Settled(r.vms[k].vm), None)
  {
    ReloadWithoutFaults(r.store, socketExists, saveFault);
    forall k | k in r.vms
      ensures Settled(r.store[k]) == Settled(r.vms[k].vm)
    {
      ReconciledSettleAlike(r.store[k], r.vms[k].vm);
    }
  }

  /** Loading a valid store and reconciling it establishes the invariant, whatever fails on the way. */
  lemma InitializePreservesValid(r: Registry, loadFault: Option<Persistence.StoreFault>, socketExists: string -> bool,
                                 saveFault: string -> Option<Persistence.StoreFault>)
    requires Valid(r)
    ensures Valid(InitializeStep(r, loadFault, socketExists, saveFault).after)
  {
    if loadFault.None? {
      var t := r.store;
      var loaded := Persistence.InKeyOrder(t, t.Keys);
      Persistence.LoadOrderIsLoaded(t);
      forall i, j | 0 <= i < j < |loaded|
        ensures loaded[i].id != loaded[j].id
      {
        Persistence.LoadedDistinct(loaded, t, i, j);
      }
      InitializeFromPreservesValid(loaded, r, socketExists, saveFault);
    }
  }
}
