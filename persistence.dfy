/**
 * The VM store (src/persistence.rs): one table from VM id to the VM
 * record. The embedded database and the JSON encoding are not modelled;
 * the table is a map whose values are the records themselves, and every
 * failure the database or the encoder can report is a fault parameter.
 */
module Persistence {
  import opened Wrappers
  import opened Models
  import Text

  /** The library error a variant of `PersistenceError` wraps. */
  datatype BackendKind = Database | Transaction | Table | Storage | Commit | Serialization | Io

  datatype PersistenceError =
    | Backend(kind: BackendKind, detail: string)
    | VmNotFound(id: string)

  /** The `Display` text of a store error. */
  function ErrorText(e: PersistenceError): string {
    match e
    case VmNotFound(id) => "VM not found: " + id
    case Backend(kind, detail) =>
      (match kind
       case Database => "Database error: "
       case Transaction => "Transaction error: "
       case Table => "Table error: "
       case Storage => "Storage error: "
       case Commit => "Commit error: "
       case Serialization => "Serialization error: "
       case Io => "IO error: ") + detail
  }

  /**
   * A failure of the database. `update_state` looks the record up after
   * opening the table, so a fault is placed before or after that lookup;
   * the other operations fail the same way wherever the fault falls.
   */
  datatype StoreFault =
    | BeforeLookup(kind: BackendKind, detail: string)
    | AfterLookup(kind: BackendKind, detail: string)

  function FaultError(f: StoreFault): PersistenceError {
    Backend(f.kind, f.detail)
  }

  type Table = map<string, Vm>

  /** Every record is stored under its own id, as `save` stores it. */
  predicate KeyedById(t: Table) {
    forall k :: k in t ==> t[k].id == k
  }

  /** The result of a write and the table it leaves behind. */
  datatype Written = Written(result: Result<(), PersistenceError>, table: Table)

  /** `save`: an upsert under the record's id, or no change at all when the database fails. */
  function SaveResult(t: Table, vm: Vm, fault: Option<StoreFault>): (w: Written)
    ensures fault.None? ==> (w.result.Ok? && vm.id in w.table && w.table[vm.id] == vm
                             && w.table.Keys == t.Keys + {vm.id}
                             && forall k :: k in t && k != vm.id ==> w.table[k] == t[k])
    ensures fault.Some? ==> w.result == Err(FaultError(fault.value)) && w.table == t
    ensures KeyedById(t) ==> KeyedById(w.table)
  {
    if fault.Some? then Written(Err(FaultError(fault.value)), t)
    else Written(Ok(()), t[vm.id := vm])
  }

  /** `delete`: the key is gone afterwards; an absent key is not an error. */
  function DeleteResult(t: Table, id: string, fault: Option<StoreFault>): (w: Written)
    ensures fault.None? ==> (w.result.Ok? && w.table.Keys == t.Keys - {id}
                             && forall k :: k in w.table ==> w.table[k] == t[k])
    ensures fault.Some? ==> w.result == Err(FaultError(fault.value)) && w.table == t
    ensures KeyedById(t) ==> KeyedById(w.table)
  {
    if fault.Some? then Written(Err(FaultError(fault.value)), t)
    else Written(Ok(()), t - {id})
  }

  /**
   * `update_state`: a fault before the lookup wins over a missing record,
   * a missing record wins over a fault after it; on success only the
   * `state` field of the stored record changes.
   */
  function UpdateStateResult(t: Table, id: string, s: VmState, fault: Option<StoreFault>): (w: Written)
    ensures w.result.Ok? <==> fault.None? && id in t
    ensures w.result.Err? ==> w.table == t
    ensures id !in t && !(fault.Some? && fault.value.BeforeLookup?) ==> w.result == Err(VmNotFound(id))
    ensures w.result.Ok? ==> (w.table.Keys == t.Keys && w.table[id] == t[id].(state := s)
                              && forall k :: k in t && k != id ==> w.table[k] == t[k])
    ensures KeyedById(t) ==> KeyedById(w.table)
  {
    if fault.Some? && fault.value.BeforeLookup? then Written(Err(FaultError(fault.value)), t)
    else if id !in t then Written(Err(VmNotFound(id)), t)
    else if fault.Some? then Written(Err(FaultError(fault.value)), t)
    else Written(Ok(()), t[id := t[id].(state := s)])
  }

  /**
   * What `load_all` returns for a table: one record per stored key and
   * no other, in the ascending key order in which the table iterates.
   */
  predicate LoadedFrom(vms: seq<Vm>, t: Table) {
    (forall i :: 0 <= i < |vms| ==> vms[i].id in t && t[vms[i].id] == vms[i])
    && (forall k :: k in t ==> exists i :: 0 <= i < |vms| && vms[i].id == k)
    && (forall i, j :: 0 <= i < j < |vms| ==> Text.LexLt(vms[i].id, vms[j].id))
  }

  /** A sequence in ascending id order holds each id once. */
  lemma LoadedDistinct(vms: seq<Vm>, t: Table, i: int, j: int)
    requires LoadedFrom(vms, t)
    requires 0 <= i < |vms| && 0 <= j < |vms| && i != j
    ensures vms[i].id != vms[j].id
  {
    if i < j {
      Text.LexLtIrreflexive(vms[i].id);
    } else {
      Text.LexLtIrreflexive(vms[j].id);
    }
  }

  /** What was saved is there after a restart. */
  lemma SavedSurvivesReload(t: Table, vm: Vm, vms: seq<Vm>)
    requires LoadedFrom(vms, SaveResult(t, vm, None).table)
    ensures exists i :: 0 <= i < |vms| && vms[i] == vm
  {
    var i :| 0 <= i < |vms| && vms[i].id == vm.id;
  }

  /** What was deleted stays gone after a restart, and nothing else the table held is lost. */
  lemma DeletedStaysGone(t: Table, id: string, vms: seq<Vm>)
    requires LoadedFrom(vms, DeleteResult(t, id, None).table)
    ensures forall i :: 0 <= i < |vms| ==> vms[i].id != id
    ensures forall k :: k in t && k != id ==> exists i :: 0 <= i < |vms| && vms[i] == t[k]
  {
    var t' := DeleteResult(t, id, None).table;
    forall k | k in t && k != id
      ensures exists i :: 0 <= i < |vms| && vms[i] == t[k]
    {
      assert k in t';
      var i :| 0 <= i < |vms| && vms[i].id == k;
    }
  }

  /** The records of the given keys in ascending key order, the order in which the table iterates. */
  ghost function InKeyOrder(t: Table, keys: set<string>): (vms: seq<Vm>)
    requires keys <= t.Keys
    ensures |vms| == |keys|
    decreases keys
  {
    if keys == {} then []
    else
      var k := Text.Least(keys);
      [t[k]] + InKeyOrder(t, keys - {k})
  }

  /** The records of `keys`, each once, in ascending id order. */
  predicate LoadedKeys(vms: seq<Vm>, t: Table, keys: set<string>) {
    && (forall i :: 0 <= i < |vms| ==> vms[i].id in keys && vms[i].id in t && t[vms[i].id] == vms[i])
    && (forall k :: k in keys ==> exists i :: 0 <= i < |vms| && vms[i].id == k)
    && (forall i, j :: 0 <= i < j < |vms| ==> Text.LexLt(vms[i].id, vms[j].id))
  }

  /** Putting the record of the least key in front of the ordered rest orders them all. */
  lemma PrependLeast(t: Table, keys: set<string>, k: string, rest: seq<Vm>)
    requires KeyedById(t) && keys <= t.Keys && k in keys && Text.IsLeast(k, keys)
    requires LoadedKeys(rest, t, keys - {k})
    ensures LoadedKeys([t[k]] + rest, t, keys)
  {
    var vms := [t[k]] + rest;
    assert vms[0].id == k;
    forall i | 0 < i < |vms|
      ensures vms[i] == rest[i - 1]
    {
    }
    forall x | x in keys
      ensures exists i :: 0 <= i < |vms| && vms[i].id == x
    {
      if x == k {
        assert vms[0].id == x;
      } else {
        assert x in keys - {k};
        var i :| 0 <= i < |rest| && rest[i].id == x;
        assert vms[i + 1].id == x;
      }
    }
    forall i, j | 0 <= i < j < |vms|
      ensures Text.LexLt(vms[i].id, vms[j].id)
    {
      if i == 0 {
        assert vms[j].id in keys - {k};
      } else {
        assert vms[i] == rest[i - 1] && vms[j] == rest[j - 1];
      }
    }
  }

  /** Walking the keys in ascending order yields exactly what `load_all` promises. */
  lemma {:induction false} InKeyOrderLoads(t: Table, keys: set<string>)
    requires KeyedById(t) && keys <= t.Keys
    ensures LoadedKeys(InKeyOrder(t, keys), t, keys)
    decreases keys
  {
    if keys != {} {
      var k := Text.Least(keys);
      InKeyOrderLoads(t, keys - {k});
      PrependLeast(t, keys, k, InKeyOrder(t, keys - {k}));
    }
  }

  /** The walk starts at whichever key is least. */
  lemma InKeyOrderStep(t: Table, keys: set<string>, k: string)
    requires keys <= t.Keys && k in keys && Text.IsLeast(k, keys)
    ensures InKeyOrder(t, keys) == [t[k]] + InKeyOrder(t, keys - {k})
  {
    Text.LeastUnique(k, Text.Least(keys), keys);
  }

  /** Part way through `load_all`: collecting the least remaining key keeps the walk on course. */
  lemma WalkStep(t: Table, vms: seq<Vm>, remaining: set<string>, key: string)
    requires remaining <= t.Keys && key in remaining && Text.IsLeast(key, remaining)
    requires vms + InKeyOrder(t, remaining) == InKeyOrder(t, t.Keys)
    ensures (vms + [t[key]]) + InKeyOrder(t, remaining - {key}) == InKeyOrder(t, t.Keys)
  {
    InKeyOrderStep(t, remaining, key);
    assert vms + ([t[key]] + InKeyOrder(t, remaining - {key}))
        == (vms + [t[key]]) + InKeyOrder(t, remaining - {key});
  }

  lemma WalkDone(t: Table, vms: seq<Vm>, remaining: set<string>)
    requires remaining == {}
    requires vms + InKeyOrder(t, remaining) == InKeyOrder(t, t.Keys)
    ensures vms == InKeyOrder(t, t.Keys)
  {
    assert vms + [] == vms;
  }

  lemma LoadOrderIsLoaded(t: Table)
    requires KeyedById(t)
    ensures LoadedFrom(InKeyOrder(t, t.Keys), t)
  {
    InKeyOrderLoads(t, t.Keys);
    LoadedKeysLoaded(InKeyOrder(t, t.Keys), t);
  }

  lemma LoadedKeysLoaded(vms: seq<Vm>, t: Table)
    requires LoadedKeys(vms, t, t.Keys)
    ensures LoadedFrom(vms, t)
  {
  }

  /** The handle on the open database. */
  class VmStore {
    var table: Table

    predicate Valid()
      reads this
    {
      KeyedById(table)
    }

    /** `VmStore::open` on a database that already holds the given records. */
    constructor Open(existing: Table)
      requires KeyedById(existing)
      ensures Valid() && table == existing
    {
      table := existing;
    }

    method Save(vm: Vm, fault: Option<StoreFault>) returns (r: Result<(), PersistenceError>)
      requires Valid()
      modifies this
      ensures Valid()
      ensures Written(r, table) == SaveResult(old(table), vm, fault)
    {
      if fault.Some? {
        return Err(FaultError(fault.value));
      }
      table := table[vm.id := vm];
      return Ok(());
    }

    method Delete(id: string, fault: Option<StoreFault>) returns (r: Result<(), PersistenceError>)
      requires Valid()
      modifies this
      ensures Valid()
      ensures Written(r, table) == DeleteResult(old(table), id, fault)
    {
      if fault.Some? {
        return Err(FaultError(fault.value));
      }
      table := table - {id};
      return Ok(());
    }

    method UpdateState(id: string, s: VmState, fault: Option<StoreFault>) returns (r: Result<(), PersistenceError>)
      requires Valid()
      modifies this
      ensures Valid()
      ensures Written(r, table) == UpdateStateResult(old(table), id, s, fault)
    {
      if fault.Some? && fault.value.BeforeLookup? {
        return Err(FaultError(fault.value));
      }
      if id !in table {
        return Err(VmNotFound(id));
      }
      if fault.Some? {
        return Err(FaultError(fault.value));
      }
      var vm := table[id];
      vm := vm.(state := s);
      table := table[id := vm];
      return Ok(());
    }

    /** `load_all`: walks the keys in ascending order and collects their records. */
    method LoadAll(fault: Option<StoreFault>) returns (r: Result<seq<Vm>, PersistenceError>)
      requires Valid()
      ensures fault.Some? ==> r == Err(FaultError(fault.value))
      ensures fault.None? ==> r == Ok(InKeyOrder(table, table.Keys))
    {
      if fault.Some? {
        return Err(FaultError(fault.value));
      }
      var remaining := table.Keys;
      var vms: seq<Vm> := [];
      while remaining != {}
        invariant remaining <= table.Keys
        invariant vms + InKeyOrder(table, remaining) == InKeyOrder(table, table.Keys)
        decreases |remaining|
      {
        Text.LeastExists(remaining);
        var key :| key in remaining && Text.IsLeast(key, remaining);
        WalkStep(table, vms, remaining, key);
        vms := vms + [table[key]];
        remaining := remaining - {key};
      }
      WalkDone(table, vms, remaining);
      return Ok(vms);
    }
  }
}
