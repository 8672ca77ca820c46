/**
 * `VmManager` of src/state.rs: the in-memory registry guarded by its lock
 * and the store it persists to. Each method does what the source does,
 * step by step, and is proved to leave the result, registry, store and
 * effects that the matching step function of the Lifecycle module gives;
 * the properties of those step functions are proved there.
 */
module State {
  import opened Wrappers
  import opened Models
  import Persistence
  import Fc = Firecracker
  import opened Lifecycle

  class VmManager {
    var vms: Vms
    const store: Persistence.VmStore

    /** The registry and the store as one value. */
    function Current(): Registry
      reads this, store
    {
      Registry(vms, store.table)
    }

    predicate Valid()
      reads this, store
    {
      store.Valid() && Lifecycle.Valid(Current())
    }

    /** `with_db_path`: an open store and an empty registry, filled later by `initialize`. */
    constructor WithStore(s: Persistence.VmStore)
      requires s.Valid()
      ensures Valid() && store == s && vms == map[]
    {
      store := s;
      vms := map[];
    }

    /** `create_vm`; `id` is the fresh `Uuid::new_v4()` text, `fault` how the save turns out. */
    method CreateVm(id: string, name: string, config: VmConfig, fault: Option<Persistence.StoreFault>)
      returns (r: Result<Vm, ManagerError>)
      requires Valid()
      modifies this, store
      ensures Valid()
      ensures Outcome(r, Current(), []) == CreateStep(old(Current()), id, name, config, fault)
    {
      CreatePreservesValid(Current(), id, name, config, fault);
      if exists k :: k in vms && vms[k].vm.name == name {
        return Err(VmAlreadyExists(name));
      }
      var vm := NewVm(id, name, config);
      var saved := store.Save(vm, fault);
      if saved.Err? {
        return Err(FromStore(saved.error));
      }
      vms := vms[id := VmEntry(vm, None)];
      return Ok(vm);
    }

    /**
     * `start_vm`; `spawn` is how spawning the process turns out, `control`
     * how each control call does, `fault` how persisting does.
     */
    method StartVm(id: string, spawn: Result<(), Fc.FirecrackerError>, control: Fc.Control,
                   fault: Option<Persistence.StoreFault>)
      returns (r: Result<Vm, ManagerError>, effects: seq<Effect>)
      requires Valid()
      modifies this, store
      ensures Valid()
      ensures Outcome(r, Current(), effects) == StartStep(old(Current()), id, spawn, control, fault)
    {
      StartPreservesValid(Current(), id, spawn, control, fault);
      if id !in vms {
        return Err(VmNotFound(id)), [];
      }
      var entry := vms[id];
      var vm := entry.vm;
      match vm.state
      case Running =>
        return Err(InvalidState(Running, "start")), [];
      case Paused =>
        var resumed := Fc.ResumeVm(control, vm);
        effects := [Requested(id, Fc.ResumeInstance)];
        if resumed.Err? {
          return Err(FirecrackerError(resumed.error)), effects;
        }
        var persisted := store.UpdateState(id, Running, fault);
        if persisted.Err? {
          // pause again; the outcome of that call is ignored
          effects := effects + [Requested(id, Fc.PauseInstance)];
          return Err(FromStore(persisted.error)), effects;
        }
        vm := vm.(state := Running);
        vms := vms[id := entry.(vm := vm)];
        return Ok(vm), effects;
      case _ =>
        if spawn.Err? {
          return Err(FirecrackerError(spawn.error)), [];
        }
        effects := [Spawned(id)];
        var (calls, configured) := Fc.ConfigureVm(control, vm);
        effects := effects + Requests(id, calls);
        if configured.Err? {
          return Err(FirecrackerError(configured.error)), effects + [Killed(id)];
        }
        var started := Fc.StartInstanceVm(control, vm);
        effects := effects + [Requested(id, Fc.InstanceStart)];
        if started.Err? {
          return Err(FirecrackerError(started.error)), effects + [Killed(id)];
        }
        var persisted := store.UpdateState(id, Running, fault);
        if persisted.Err? {
          return Err(FromStore(persisted.error)), effects + [Killed(id)];
        }
        var process := Fc.ProcessFor(vm);
        vm := vm.(state := Running);
        vms := vms[id := VmEntry(vm, Some(process))];
        return Ok(vm), effects;
    }

    /** `stop_vm`: a failed persist is only logged. */
    method StopVm(id: string, fault: Option<Persistence.StoreFault>)
      returns (r: Result<Vm, ManagerError>, effects: seq<Effect>)
      requires Valid()
      modifies this, store
      ensures Valid()
      ensures Outcome(r, Current(), effects) == StopStep(old(Current()), id, fault)
    {
      StopPreservesValid(Current(), id, fault);
      if id !in vms {
        return Err(VmNotFound(id)), [];
      }
      var entry := vms[id];
      if !(entry.vm.state == Running || entry.vm.state == Paused) {
        return Err(InvalidState(entry.vm.state, "stop")), [];
      }
      effects := [];
      if entry.process.Some? {
        effects := [Killed(id)];
      }
      var vm := entry.vm.(state := Stopped);
      vms := vms[id := VmEntry(vm, None)];
      var _ := store.UpdateState(id, Stopped, fault);
      return Ok(vm), effects;
    }

    /** `pause_vm`: pause, then persist, resuming again when persisting fails. */
    method PauseVm(id: string, control: Fc.Control, fault: Option<Persistence.StoreFault>)
      returns (r: Result<Vm, ManagerError>, effects: seq<Effect>)
      requires Valid()
      modifies this, store
      ensures Valid()
      ensures Outcome(r, Current(), effects) == PauseStep(old(Current()), id, control, fault)
    {
      PausePreservesValid(Current(), id, control, fault);
      if id !in vms {
        return Err(VmNotFound(id)), [];
      }
      var entry := vms[id];
      if entry.vm.state != Running {
        return Err(InvalidState(entry.vm.state, "pause")), [];
      }
      var paused := Fc.PauseVm(control, entry.vm);
      effects := [Requested(id, Fc.PauseInstance)];
      if paused.Err? {
        return Err(FirecrackerError(paused.error)), effects;
      }
      var persisted := store.UpdateState(id, Paused, fault);
      if persisted.Err? {
        // resume again; the outcome of that call is ignored
        return Err(FromStore(persisted.error)), effects + [Requested(id, Fc.ResumeInstance)];
      }
      var vm := entry.vm.(state := Paused);
      vms := vms[id := entry.(vm := vm)];
      return Ok(vm), effects;
    }

    /** `get_vm`. */
    method GetVm(id: string) returns (r: Result<Vm, ManagerError>)
      requires Valid()
      ensures r == GetStep(vms, id)
      ensures r.Ok? ==> r.value.id == id
    {
      if id in vms {
        return Ok(vms[id].vm);
      }
      return Err(VmNotFound(id));
    }

    /**
     * `list_vms`: every record of the registry exactly once, in the map's
     * iteration order, which the source leaves unspecified.
     */
    method ListVms() returns (r: seq<Vm>)
      requires forall k :: k in vms ==> vms[k].vm.id == k
      ensures |r| == |vms|
      ensures forall i :: 0 <= i < |r| ==> r[i].id in vms && vms[r[i].id].vm == r[i]
      ensures forall k :: k in vms ==> exists i :: 0 <= i < |r| && r[i].id == k
      ensures forall i, j :: 0 <= i < j < |r| ==> r[i].id != r[j].id
    {
      r := [];
      ghost var listed: seq<string> := [];
      var remaining := vms.Keys;
      while remaining != {}
        invariant remaining <= vms.Keys
        invariant |r| == |listed| && |r| + |remaining| == |vms|
        invariant forall i :: 0 <= i < |r| ==> listed[i] in vms && listed[i] !in remaining
        invariant forall i :: 0 <= i < |r| ==> r[i] == vms[listed[i]].vm && r[i].id == listed[i]
        invariant forall k :: k in vms && k !in remaining ==> k in listed
        invariant forall i, j :: 0 <= i < j < |listed| ==> listed[i] != listed[j]
        decreases |remaining|
      {
        var k :| k in remaining;
        r := r + [vms[k].vm];
        listed := listed + [k];
        remaining := remaining - {k};
      }
      forall k | k in vms
        ensures exists i :: 0 <= i < |r| && r[i].id == k
      {
        var i :| 0 <= i < |listed| && listed[i] == k;
        assert r[i].id == k;
      }
    }

    /** `delete_vm`: kill the process, delete the record, and only then drop the entry. */
    method DeleteVm(id: string, fault: Option<Persistence.StoreFault>)
      returns (r: Result<(), ManagerError>, effects: seq<Effect>)
      requires Valid()
      modifies this, store
      ensures Valid()
      ensures Outcome(r, Current(), effects) == DeleteStep(old(Current()), id, fault)
    {
      DeletePreservesValid(Current(), id, fault);
      if id !in vms {
        return Err(VmNotFound(id)), [];
      }
      effects := [];
      if vms[id].process.Some? {
        effects := [Killed(id)];
      }
      var deleted := store.Delete(id, fault);
      if deleted.Err? {
        return Err(FromStore(deleted.error)), effects;
      }
      vms := vms - {id};
      return Ok(()), effects;
    }

    /**
     * The body of the loop of `initialize` for one loaded record: reconcile
     * it, save it back when its state changed, and enter it without a process.
     */
    method InitializeRecord(vm: Vm, socketExists: string -> bool, saveFault: string -> Option<Persistence.StoreFault>)
      returns (r: Result<(), ManagerError>, cleaned: seq<Effect>)
      requires store.Valid()
      modifies this, store
      ensures store.Valid()
      ensures Outcome(r, Current(), cleaned) == InitializeOne(vm, old(Current()), socketExists, saveFault)
    {
      var reconciled := Reconcile(vm, socketExists(vm.socketPath));
      var s := reconciled.0;
      cleaned := reconciled.1;
      var vm' := vm.(state := s);
      if vm.state != s {
        var saved := store.Save(vm', saveFault(vm.id));
        if saved.Err? {
          return Err(FromStore(saved.error)), cleaned;
        }
      }
      vms := vms[vm.id := VmEntry(vm', None)];
      return Ok(()), cleaned;
    }

    /**
     * The loop of `initialize` over the loaded records: reconcile each,
     * save it back when its state changed, and enter it without a process,
     * stopping at the first error.
     */
    method InitializeLoaded(loaded: seq<Vm>, socketExists: string -> bool,
                            saveFault: string -> Option<Persistence.StoreFault>)
      returns (r: Result<(), ManagerError>, effects: seq<Effect>)
      requires store.Valid()
      modifies this, store
      ensures store.Valid()
      ensures Outcome(r, Current(), effects) == InitializeFrom(loaded, old(Current()), socketExists, saveFault)
    {
      ghost var whole := InitializeFrom(loaded, Current(), socketExists, saveFault);
      effects := [];
      var i := 0;
      while i < |loaded|
        invariant 0 <= i <= |loaded|
        invariant store.Valid()
        invariant whole.result == InitializeFrom(loaded[i..], Current(), socketExists, saveFault).result
        invariant whole.after == InitializeFrom(loaded[i..], Current(), socketExists, saveFault).after
        invariant whole.effects == effects + InitializeFrom(loaded[i..], Current(), socketExists, saveFault).effects
      {
        InitializeFromAt(loaded, i, Current(), socketExists, saveFault);
        var one, cleaned := InitializeRecord(loaded[i], socketExists, saveFault);
        if one.Err? {
          return one, effects + cleaned;
        }
        ghost var next := InitializeFrom(loaded[i + 1..], Current(), socketExists, saveFault);
        assert whole.effects == (effects + cleaned) + next.effects;
        effects := effects + cleaned;
        i := i + 1;
      }
      assert loaded[i..] == [];
      return Ok(()), effects;
    }

    /**
     * `initialize`: load every record, then run the loop over them.
     * `socketExists` says which control sockets are still on disk.
     */
    method Initialize(loadFault: Option<Persistence.StoreFault>, socketExists: string -> bool,
                      saveFault: string -> Option<Persistence.StoreFault>)
      returns (r: Result<(), ManagerError>, effects: seq<Effect>)
      requires Valid()
      modifies this, store
      ensures Valid()
      ensures Outcome(r, Current(), effects) == InitializeStep(old(Current()), loadFault, socketExists, saveFault)
    {
      InitializePreservesValid(Current(), loadFault, socketExists, saveFault);
      var persisted := store.LoadAll(loadFault);
      if persisted.Err? {
        return Err(FromStore(persisted.error)), [];
      }
      r, effects := InitializeLoaded(persisted.value, socketExists, saveFault);
    }
  }
}
