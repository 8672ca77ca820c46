# glidex — a Dafny model of the VM manager

glidex manages Firecracker micro-VMs on one host. This project models its core:

- **`VmManager`.** The in-memory registry of VMs. Each entry is a record plus, while the VM runs or is paused, the handle of its hypervisor process.
- **`VmStore`.** The table that persists the records.
- **Hypervisor control client.** It talks HTTP/1.1 over the VM's control socket. It sends the three configuration calls in a fixed order and accepts a call when the answer holds a success status.
- **Console proxy.** It keeps the console log and sends each chunk of terminal output to every attached client.
- **HTTP API mapping.** How manager results become status codes and error bodies.
- **`gxctl` shell.** Its command dispatch, name-or-id resolution, interactive create and console detach.
- **Web UI pieces.** The state badge, the action buttons and the create form.

The model is organised as follows:

| file | module | content |
|---|---|---|
| `wrappers.dfy` | `Wrappers` | `Option` and `Result` |
| `text.dfy` | `Text` | The string functions the source relies on: trimming, whitespace splitting, ASCII lower-casing, unsigned decimal parsing, byte length, and byte-wise string order |
| `models.dfy` | `Models` | `VmState`, `VmConfig`, `Vm`, `CreateVmRequest`, `VmResponse` and `ApiError` |
| `persistence.dfy` | `Persistence` | The store's results as functions, and `class VmStore`, whose methods update a `table: map<string, Vm>` |
| `firecracker.dfy` | `Firecracker` | Request text, response reader, success rule, configuration order, JSON string escaping |
| `console.dfy` | `Console` | The broadcast, and `class ConsoleProxy` with the log and the client list |
| `lifecycle.dfy` | `Lifecycle` | One step function per manager operation, over the registry and the store table. Each returns the result, the new registry and the effects in order: spawned, control call sent, killed, orphan cleaned. It also holds the manager's invariant and the lemmas about the steps. |
| `state.dfy` | `State` | `class VmManager`. Its methods change `vms` and the store step by step, as `src/state.rs` does. Each is proved to match its step function and to keep the invariant. |
| `api.dfy` | `Api` | Error-to-status mapping and the handlers' replies |
| `cli.dfy` | `Cli` | `gxctl` |
| `ui_types.dfy`, `vm_actions.dfy`, `create_vm_form.dfy` | `UiTypes`, `VmActions`, `CreateVmForm` | The web UI |

Whatever the program gets from outside is a parameter:

- how each database call fails (`Option<StoreFault>`);
- how the hypervisor answers each request (`Hypervisor`, or the per-call outcome `Control`);
- whether spawning succeeds;
- which socket files exist;
- whether each write to a console client succeeds;
- the fresh UUID of a new VM.

The operations are therefore deterministic functions of their inputs and these parameters.

The manager's invariant `Lifecycle.Valid` has three parts:

1. Every record is stored under its own id.
2. Every entry sits under its own id, and has a process exactly when it is Running or Paused. That process is the one for the entry's own paths.
3. Every entry is on disk as the same record. The one exception is a `stop_vm` whose persisting failed: it leaves Running or Paused on disk for a VM that memory has Stopped.

Every operation keeps the invariant, and restarting from the store re-establishes it.

## Model

The table lists the members whose contracts state the properties. Several functions and predicates model source code directly but have no row. Their contracts state at most a frame. They appear here through the lemmas and methods about them:
- the step functions `Lifecycle.CreateStep`, `StartStep`, `StopStep`, `PauseStep`, `DeleteStep`, `Reconcile`, `InitializeOne`, `InitializeFrom` and `InitializeStep`;
- `Cli.Dispatch`, `Parse`, `Resolve` and `Confirmed`;
- `Firecracker.RequestText`, `Send`, `Invoke`, `ConfigureVm` and `Escape`;
- `Console.Broadcast`;
- the `Api` reply functions.

| member | source | states |
|---|---|---|
| Models.ParseStateName | crates/glidex-control-plane/src/models.rs:4-11 | A state name read back names exactly that wire name |
| Models.StateNameRoundTrip | crates/glidex-control-plane/src/models.rs:4-11 | Every state survives its lowercase wire name (`rename_all = "lowercase"`) |
| Models.StateNameInjective | crates/glidex-control-plane/src/models.rs:4-11 | No two states share a wire name |
| Models.NewVm | crates/glidex-control-plane/src/models.rs:37-51 | A new VM has the given id, name and config, is Created, and has socket, console-socket and log paths derived from its id, pairwise distinct |
| Models.PathsDistinct | crates/glidex-control-plane/src/models.rs:39-41 | The three paths of one VM differ |
| Models.PathsInjective | crates/glidex-control-plane/src/models.rs:39-41 | Each kind of path determines the id |
| Models.UuidPathsNeverCollide | crates/glidex-control-plane/src/models.rs:38-41 | For UUID-formatted ids, no socket path of one VM equals another kind of path of any VM |
| Models.SocketNeverConsoleSocket | crates/glidex-control-plane/src/models.rs:39-40 | For an id without '.', the control socket path is never any VM's console-socket path |
| Models.ConfigFromRequest | crates/glidex-control-plane/src/models.rs:65-75 | Sizes and paths are copied; the kernel arguments are the request's, or `DEFAULT_KERNEL_ARGS` when absent |
| Models.EveryConfigRequestable | crates/glidex-control-plane/src/models.rs:65-75 | Every config is the image of some request |
| Models.DefaultArgsSameAsNone | crates/glidex-control-plane/src/models.rs:23 | Omitting the kernel arguments is the same as sending the default string |
| Models.ResponseOf | crates/glidex-control-plane/src/models.rs:88-100 | The API view copies id, name, state, sizes, console path and log path of the record |
| Models.CreatedResponse | crates/glidex-control-plane/src/models.rs:37-51 | The response to a new VM shows state Created, the requested name and sizes, and the id's console and log paths |
| Persistence.SaveResult | src/persistence.rs:75-86 | Without a fault, an upsert under the record's id that changes no other key; with a fault, an error and no change; keeps records keyed by id |
| Persistence.DeleteResult | src/persistence.rs:89-98 | Without a fault, removes exactly that key (absent keys included); with a fault, an error and no change |
| Persistence.UpdateStateResult | src/persistence.rs:101-121 | Succeeds iff there is no fault and the id is stored; then only that record's state changes. An unknown id gives `VmNotFound` unless the fault strikes before the lookup; every failure leaves the table unchanged |
| Persistence.LoadedDistinct | src/persistence.rs:60-72 | Records loaded from a table keyed by id have distinct ids |
| Persistence.SavedSurvivesReload | src/persistence.rs:60-86 | A record saved without a fault is among the records loaded afterwards |
| Persistence.DeletedStaysGone | src/persistence.rs:60-98 | After a delete the id is no longer loaded, and every other record still is |
| Persistence.InKeyOrderLoads | src/persistence.rs:60-72 | Walking keys in ascending order yields exactly one record per key |
| Persistence.PrependLeast | src/persistence.rs:60-72 | The record of the least key, put in front of the ordered records of the other keys, gives the ordered records of all keys |
| Persistence.LoadOrderIsLoaded | src/persistence.rs:60-72 | The key-order walk is a faithful load of the table |
| Persistence.VmStore.Open | src/persistence.rs:41-57 | Opening an existing database sees its records |
| Persistence.VmStore.Save | src/persistence.rs:75-86 | Result and new table are those of `SaveResult` |
| Persistence.VmStore.Delete | src/persistence.rs:89-98 | Result and new table are those of `DeleteResult` |
| Persistence.VmStore.UpdateState | src/persistence.rs:101-121 | Result and new table are those of `UpdateStateResult` |
| Persistence.VmStore.LoadAll | src/persistence.rs:60-72 | The loop over the keys in ascending order returns the records in that order; a fault returns its error |
| Firecracker.RequestFraming | src/firecracker.rs:73-79 | The request is the header block followed by the body; its Content-Length, read back by the client's own rule, is the body's byte length |
| Firecracker.ContentLengthOf | src/firecracker.rs:94-98 | A line sets the body length iff its ASCII-lowercased text starts with `content-length:`. Such a line always has a field after its first ':'. The length is that field, trimmed, when it parses as a `usize`, and 0 when it does not |
| Firecracker.HeaderNameEndsInColon | src/firecracker.rs:94-95 | A line that passes the prefix test has its ':' at position 14, so `split(':').nth(1)` is never None |
| Firecracker.NoLengthNoBody | src/firecracker.rs:106-110 | When no Content-Length is in force at the end of the headers, no body is read and the response is the header text |
| Firecracker.StatusLineNotContentLength | src/firecracker.rs:94-98 | A status line never sets the body length |
| Firecracker.ContentLengthLineReadsBack | src/firecracker.rs:76-77 | The Content-Length line the client writes reads back as its number |
| Text.SecondFieldOfPair | src/firecracker.rs:95-97 | `split(':').nth(1)` of a line with one colon is the text after it |
| Firecracker.ResponseIsPrefix | src/firecracker.rs:84-113 | A response read successfully is a prefix of the stream |
| Firecracker.WellFramedReplyRead | src/firecracker.rs:84-113 | For a reply with a status line, a Content-Length header and a blank line, the reader returns exactly the reply, whatever follows it |
| Firecracker.ReadResponse | src/firecracker.rs:84-113 | The read loop gives the response of `ResponseOf`; a body shorter than announced is an I/O error |
| Firecracker.ReadHeaders | src/firecracker.rs:84-104 | The header loop stops where the header scan stops, with the Content-Length in force there, and the response read so far is the stream up to that point |
| Firecracker.AsWrittenNeverLeaves | src/firecracker.rs:88-104 | Once the source's header loop reaches the end of the stream without a blank line, it stays there forever |
| Firecracker.HeaderLoopSpinsAtEof | src/firecracker.rs:88-104 | For a stream holding only a status line, the source's loop never finishes, while the corrected reader returns the line |
| Firecracker.HeaderLoopEofCounterexample | src/firecracker.rs:88-104 | A concrete stream, `HTTP/1.1 200 OK\r\n`, on which the source's loop never finishes |
| Firecracker.InvokeOutcome | src/firecracker.rs:116-227 | A control call succeeds iff its exchange gives a response holding `HTTP/1.1 204` or `HTTP/1.1 200`; socket and I/O errors pass through; any other response becomes `ApiRequest` with the call's message |
| Firecracker.SuccessStatusAccepted | src/firecracker.rs:127 | A reply whose status line is 204 or 200 is accepted |
| Firecracker.SuccessTextInBodyAccepted | src/firecracker.rs:127 | The success test searches the whole response, so an error reply whose body quotes a success status is accepted too |
| Firecracker.RunCalls | src/firecracker.rs:403-416 | The calls sent are a prefix of the calls; on failure the last one sent is the one that failed |
| Firecracker.RunCallsOkIff | src/firecracker.rs:403-416 | The sequence succeeds iff every call does, and then all were sent |
| Firecracker.RunCallsSentBeforeOk | src/firecracker.rs:403-416 | Every call sent before the last succeeded |
| Firecracker.ConfigureStopsAtFirstFailure | src/firecracker.rs:403-416 | Machine config, then boot source, then root drive; a refused call stops the rest; configuring succeeds iff all three calls do |
| Firecracker.EscapeRoundTrip | src/firecracker.rs:137-169 | The JSON string escaping of paths and kernel arguments in the bodies decodes back to the original text |
| Console.KeptPositions | src/firecracker.rs:362-364 | The positions of clients kept by a broadcast are in range and strictly increasing |
| Console.KeptExactlyWhenWritten | src/firecracker.rs:362-364 | A client is kept iff the write to it succeeds |
| Console.BroadcastIsOrderedSubsequence | src/firecracker.rs:362-364 | The kept clients are the successfully written ones, in their original order, each having received the chunk |
| Console.BroadcastMembership | src/firecracker.rs:362-364 | A client whose write succeeds is in the new list with the chunk; one whose write fails is gone |
| Console.JoinedExtends | src/firecracker.rs:352-364 | Writing the same chunk to the log and to a client keeps the client's bytes a prefix of the log at connect time followed by everything logged since |
| Console.JoinedExtremes | src/firecracker.rs:336-347 | A client whose replay got through completely holds exactly the log; one whose replay failed at once holds a suffix of it |
| Console.BroadcastKeepsCaughtUp | src/firecracker.rs:336-365 | If every client holds a prefix of the log at its connect time followed by everything logged since, that still holds after the chunk is logged and broadcast |
| Console.ReplayedClientHoldsLog | src/firecracker.rs:336-365 | A client that received the whole log at connect time holds the whole log after every later chunk written to it |
| Console.ConsoleProxy.Start | src/firecracker.rs:247-251 | The proxy starts with the empty log `spawn` has just truncated, and no client |
| Console.ConsoleProxy.Accept | src/firecracker.rs:336-347 | A new client is appended whether or not its replay succeeds, holding the part of the log the non-blocking write got through (the whole log when it succeeds); the log is unchanged and the caught-up invariant is kept |
| Console.ConsoleProxy.Pump | src/firecracker.rs:352-368 | A chunk is appended to the log and broadcast to the clients. An empty read or a read error stops the loop. A would-block read changes nothing and continues. The caught-up invariant is kept |
| Lifecycle.GetStep | src/state.rs:286-291 | `get_vm` succeeds iff the id is in the registry, with its record, and reports `VmNotFound(id)` otherwise |
| Lifecycle.UnknownIdChangesNothing | src/state.rs:163-315 | For an unknown id, start, stop, pause, delete and get report `VmNotFound` and change nothing, with no effects |
| Lifecycle.CreateContract | src/state.rs:137-161 | A held name gives `VmAlreadyExists` and no change. A failed save gives an error and no change. Otherwise exactly one new entry: Created, no process, saved, other entries untouched |
| Lifecycle.CreateKeepsNamesUnique | src/state.rs:140-143 | Distinct names stay distinct across `create_vm` |
| Lifecycle.StartKeepsNamesUnique | src/state.rs:163-223 | `start_vm` keeps names distinct |
| Lifecycle.StopKeepsNamesUnique | src/state.rs:225-256 | `stop_vm` keeps names distinct |
| Lifecycle.PauseKeepsNamesUnique | src/state.rs:258-284 | `pause_vm` keeps names distinct |
| Lifecycle.OnlyStateChangedKeepsNames | src/state.rs:163-284 | A change of one VM's state alone keeps names distinct |
| Lifecycle.DeleteKeepsNamesUnique | src/state.rs:298-315 | `delete_vm` keeps names distinct |
| Lifecycle.StartFromIdle | src/state.rs:171-201 | Starting from Created or Stopped succeeds iff spawn, the three configuration calls, the start call and the persist all succeed. Any failure leaves registry and store unchanged and kills the spawned process last. Success makes the entry Running with its process, on disk too |
| Lifecycle.StartFromPausedOrRunning | src/state.rs:203-221 | From Running it is refused with no change. From Paused it resumes; a failed persist pauses the VM again and leaves everything as it was; success makes it Running in memory and on disk |
| Lifecycle.StopAlwaysStops | src/state.rs:225-256 | Accepted from Running and Paused only. Then the VM is always Stopped without a process, killed if it had one, even when persisting fails. The store then holds the record as Stopped when the update succeeds, and is unchanged when it fails. Otherwise the stop is refused with no change |
| Lifecycle.PauseContract | src/state.rs:258-284 | Accepted from Running only. Success iff the pause call and the persist succeed, giving Paused in memory and on disk. Any failure leaves everything as it was, and a failed persist resumes the VM |
| Lifecycle.RefusedExactlyOutsideAcceptance | src/state.rs:163-284 | Each of start, stop and pause reports `InvalidState` exactly in the states it does not accept |
| Lifecycle.DeleteContract | src/state.rs:298-315 | Success iff the store deletes; then the entry and the record are gone and every other record is kept. A failure leaves the registry unchanged. The process, if any, is killed either way |
| Lifecycle.DeleteOfRunningVmCanLeaveDeadEntry | src/state.rs:302-311 | A failed delete of a running VM leaves a Running entry with a process handle whose process has been killed |
| Lifecycle.CreatePreservesValid | src/state.rs:137-161 | `create_vm` keeps the manager's invariant |
| Lifecycle.UpdateKeepsValid | src/state.rs:190-217 | Persisting a new state and giving the entry the matching process keeps the invariant |
| Lifecycle.StartPreservesValid | src/state.rs:163-223 | `start_vm` keeps the invariant on every path |
| Lifecycle.StartIsUpdate | src/state.rs:163-223 | `start_vm` either changes nothing or accepts the state, persists Running and records Running with the handle it spawned, or the one it had when paused |
| Lifecycle.StopPreservesValid | src/state.rs:225-256 | `stop_vm` keeps the invariant, a failed persist included |
| Lifecycle.PausePreservesValid | src/state.rs:258-284 | `pause_vm` keeps the invariant |
| Lifecycle.PauseIsUpdate | src/state.rs:258-284 | `pause_vm` either changes nothing or accepts the state, persists Paused and records Paused with the same handle |
| Lifecycle.DeletePreservesValid | src/state.rs:298-315 | `delete_vm` keeps the invariant, a failed delete included |
| Lifecycle.Settled | src/state.rs:105-117 | The state a record takes on restart is never Running or Paused; only the state changes, and a Created or Stopped record is kept |
| Lifecycle.InitializeOneFacts | src/state.rs:82-98 | One record of `initialize` is inserted settled and without a process. The store is written only when the state changed. A failed save leaves the registry and the store as they were |
| Lifecycle.InitializeFromAt | src/state.rs:82-99 | The loop from one position is one pass followed, if it succeeds, by the loop from the next position |
| Lifecycle.InitializeFromPreservesValid | src/state.rs:78-102 | The loop keeps the invariant wherever it stops |
| Lifecycle.InitializeSettles | src/state.rs:78-102 | Every entry after `initialize` is either untouched or a settled record without a process |
| Lifecycle.InitializeFromWithoutFaults | src/state.rs:78-102 | With no failed save, every loaded record is inserted settled and without a process, and the other entries are untouched |
| Lifecycle.ReconciledSettleAlike | src/state.rs:105-117 | A stored record and the entry it reconciles with settle to the same record |
| Lifecycle.LoadOrderIds | src/persistence.rs:60-72 | The records a store loads have distinct ids, and the ids are the store's keys |
| Lifecycle.LoadedIds | src/persistence.rs:60-72 | Any record list `load_all` may return has distinct ids, which are the store's keys |
| Lifecycle.ReloadRecords | src/state.rs:78-102 | The loop over a store's records enters each one, settled and without a process |
| Lifecycle.ReloadWithoutFaults | src/state.rs:78-102 | `initialize` on a store with no failing save enters exactly the stored records, settled, without processes |
| Lifecycle.RestartAgreement | src/state.rs:78-117 | Restarting from what a valid manager has stored gives back every entry (Running and Paused as Stopped, without processes) and nothing that was not stored |
| Lifecycle.InitializePreservesValid | src/state.rs:78-102 | Loading a valid store and reconciling it establishes the invariant, whatever fails on the way |
| State.VmManager.WithStore | src/state.rs:61-67 | A manager over an open store starts with an empty registry and its invariant holds |
| State.VmManager.CreateVm | src/state.rs:137-161 | Keeps the invariant; result, registry and store are those of `CreateStep` |
| State.VmManager.StartVm | src/state.rs:163-223 | Keeps the invariant; result, registry, store and effects are those of `StartStep` |
| State.VmManager.StopVm | src/state.rs:225-256 | Keeps the invariant; as `StopStep` |
| State.VmManager.PauseVm | src/state.rs:258-284 | Keeps the invariant; as `PauseStep` |
| State.VmManager.GetVm | src/state.rs:286-291 | As `GetStep`; a found record has the asked id |
| State.VmManager.ListVms | src/state.rs:293-296 | Lists every record of the registry exactly once: as many as entries, each the record of its own entry, no id twice |
| State.VmManager.DeleteVm | src/state.rs:298-315 | Keeps the invariant; as `DeleteStep` |
| State.VmManager.InitializeRecord | src/state.rs:83-98 | One pass of the loop of `initialize`, as `InitializeOne` |
| State.VmManager.InitializeLoaded | src/state.rs:82-101 | The loop over the loaded records gives the result, registry, store and effects of `InitializeFrom` |
| State.VmManager.Initialize | src/state.rs:78-102 | Keeps the invariant; the loop over the loaded records gives the result, registry, store and effects of `InitializeStep` |
| Api.ErrorToResponse | src/api.rs:129-152 | Maps each error, and no other, to its own pair: 404 `not_found`, 409 `conflict`, 400 `invalid_state`, 500 `firecracker_error` or 500 `persistence_error`. The message is the error's display text |
| Api.CodeNamesKind | src/api.rs:129-152 | The error code of a body names the kind of error exactly |
| Api.ErrorStatusClass | src/api.rs:129-152 | Every error status is 4xx or 5xx, 4xx exactly for not found, conflict and invalid state |
| Api.CreateAnswers | src/api.rs:40-51 | A free name with a working store answers 201 with a Created VM of the requested name and sizes; a taken name answers 409 `conflict` |
| Api.DeleteAnswers | src/api.rs:63-71 | A delete answers 204 when the store deletes and 404 `not_found` for an unknown id |
| Api.ConsoleAvailability | src/api.rs:111-127 | Console info carries the record's paths and is available exactly when the VM is Running; for a valid manager an available console has a process; unknown ids answer 404 |
| Cli.OnlyExitStops | src/bin/gxctl.rs:589-598 | The shell stops exactly on `exit`, `quit` or `q` |
| Cli.BlankLineIsNoOp | src/bin/gxctl.rs:589-593 | A line does nothing iff it is all whitespace |
| Cli.BlankIffNoWords | src/bin/gxctl.rs:590-593 | An empty word list, and only that, is a blank command |
| Cli.MissingTargetPrintsUsage | src/bin/gxctl.rs:612-750 | Every targeted command without a target prints its usage under its main name |
| Cli.AliasesAgree | src/bin/gxctl.rs:596-745 | `?`/`help`, `ls`/`list`, `console`/`attach`/`connect`, `logs`/`log` and `rm`/`delete` behave alike |
| Cli.DispatchWord | src/bin/gxctl.rs:596-745 | The command a first word selects: help, list, a usage line without a target, or connect, log or delete on the given target |
| Cli.Named | src/bin/gxctl.rs:265 | The VMs matching a name: every listed VM with that name, and only those |
| Cli.Ids | src/bin/gxctl.rs:272 | The ids of the matches, one per match, in match order |
| Cli.ResolveById | src/bin/gxctl.rs:258-265 | A VM found under the given id wins whatever the listing says. When the id lookup fails, a failed listing is reported as it came |
| Cli.ResolveByName | src/bin/gxctl.rs:264-280 | When the id lookup fails: success iff exactly one listed VM has the name, and then it gives that VM's id. No match is "not found". Several matches give the "Multiple VMs" message with the ids of the matches joined by ", ", and the id of every listed VM with that name is among them |
| Cli.NamedAtMostOnce | src/bin/gxctl.rs:265-269 | With distinct names at most one VM matches |
| Cli.NoneNamed | src/bin/gxctl.rs:265-268 | With no VM of that name, nothing matches |
| Cli.UniqueNamesNeverAmbiguous | src/bin/gxctl.rs:257-280 | When names are distinct, resolution never reports an ambiguous name |
| Cli.ConfirmedIff | src/bin/gxctl.rs:761 | A delete is confirmed exactly by `y` or `Y` |
| Cli.ForwardUntilDetach | src/bin/gxctl.rs:547-570 | Forwards each byte until 0x1d. Detaches iff 0x1d occurs, never forwards it, and the bytes sent are the input before it; without it the whole input is sent |
| Cli.CreateRequestFrom | src/bin/gxctl.rs:307-366 | No request iff the trimmed name is empty; otherwise the name is the trimmed answer. A size that parses as a `u8` or `u32` is used as parsed, "+4" and "007" included; one that does not parse becomes 1 or 512. A typed kernel or rootfs path passes through trimmed, and a blank one becomes `<home>/.glidex/vmlinux.bin` or `rootfs.ext4` whatever the other answers are, home defaulting to ".". Kernel arguments are present iff typed, and then trimmed |
| Cli.UnparsableSizesGiveDefaults | src/bin/gxctl.rs:334-342 | A size written in decimal but too large for its field, or one that starts with neither a digit nor '+', gets the default: 1 vCPU, 512 MiB |
| Text.ParseUnsignedOverflow | src/bin/gxctl.rs:334-342 | Decimal text of a number above the limit does not parse (`parse::<u8>` / `parse::<u32>` overflow) |
| Text.ParseUnsignedSignAndZeros | src/bin/gxctl.rs:334-342 | A leading '+' and leading zeros do not change what parses: "+4" is 4 and "007" is 7 |
| Text.LeadingZeroIgnored | src/bin/gxctl.rs:334-342 | A leading zero does not change a decimal's value |
| Cli.BlankAnswersGiveDefaults | src/bin/gxctl.rs:334-358 | Blank answers give 1 vCPU, 512 MiB, `<home>/.glidex/` kernel and root filesystem (home defaulting to "."), and no kernel arguments |
| Cli.TypedSizesAreKept | src/bin/gxctl.rs:334-342 | A typed size within the type's range is used as typed |
| UiTypes.CssClassInjective | crates/glidex-ui/src/types.rs:13-20 | Each state has its own badge colour |
| UiTypes.DisplayInjective | crates/glidex-ui/src/types.rs:22-29 | Each state has its own label |
| UiTypes.FromServer | crates/glidex-ui/src/types.rs:3-10 | The UI reads the server's wire name of a state as that state |
| UiTypes.ToServer | crates/glidex-ui/src/types.rs:3-10 | A UI state is sent under the server's name for it |
| UiTypes.SameStatesBothSides | crates/glidex-ui/src/types.rs:3-29 | UI and server states correspond one to one through the wire name, and the UI label is the server's debug name |
| UiTypes.RequestFields | crates/glidex-ui/src/types.rs:44-52 | `kernel_args` is serialized iff it is present |
| UiTypes.RequestRoundTrip | crates/glidex-ui/src/types.rs:44-52 | The server reads back exactly the request the UI sent, absent kernel arguments included |
| VmActions.StartLabel | crates/glidex-ui/src/components/vm_actions.rs:45 | The start button reads "Resume" exactly for a Paused VM, otherwise "Start" |
| VmActions.Buttons | crates/glidex-ui/src/components/vm_actions.rs:35-83 | At least one button is shown, and Delete is always the last |
| VmActions.ButtonsMatchServer | crates/glidex-ui/src/components/vm_actions.rs:23-31 | Start, Stop and Pause are offered exactly in the states the server accepts them; Delete always |
| CreateVmForm.Initial | crates/glidex-ui/src/components/create_vm_form.rs:10-15 | Empty texts, 1 vCPU and 512 MiB |
| CreateVmForm.Submit | crates/glidex-ui/src/components/create_vm_form.rs:25-50 | Name and sizes are copied. Typed paths are used as typed, and an empty path becomes `<HOME>/.glidex/vmlinux.bin` or `rootfs.ext4`, HOME defaulting to "/root", whatever the other fields hold. Kernel arguments are absent iff left empty |
| CreateVmForm.UntouchedFormDefaults | crates/glidex-ui/src/components/create_vm_form.rs:10-50 | An untouched form with a name creates 1 vCPU, 512 MiB, the default paths, and the default kernel arguments on the server |
| CreateVmForm.PathsDefaultUnderHome | crates/glidex-ui/src/components/create_vm_form.rs:25-37 | Empty paths become `<home>/.glidex/vmlinux.bin` and `<home>/.glidex/rootfs.ext4` |
| Text.TrimEmptyIff | src/bin/gxctl.rs:307-313 | A trimmed answer is empty iff the answer is all whitespace |
| Text.WordsAreWords | src/bin/gxctl.rs:590 | `split_whitespace` gives non-empty words without whitespace |
| Text.WordsEmptyIff | src/bin/gxctl.rs:590-593 | There are no words iff the line is all whitespace |
| Text.DecimalRoundTrip | src/bin/gxctl.rs:334-342 | Decimal text of a number reads back as that number |
| Text.ParseUnsignedOfDecimal | src/bin/gxctl.rs:334-342 | `parse` accepts the decimal text of any number within the type's range |
| Text.ParseUnsignedRejects | src/bin/gxctl.rs:334-342 | `parse` rejects empty text and text starting with neither a digit nor '+' |

## Left out

- Threads, the `RwLock` around the registry, and `async`: each operation is modelled as one atomic step, as the write lock makes it.
- Every byte of I/O is left out: sockets, files, the PTY, `setsid`, process spawning and killing, `sleep`. Each appears only as a parameter saying how it turns out, or as an effect in the trace, with two exceptions. The console log write (`src/firecracker.rs:358-359`, whose error is ignored) is taken to succeed, so `ConsoleProxy.Pump` always appends the chunk to the log. The replay's `try_clone().unwrap()` (`src/firecracker.rs:342`) is taken not to panic.
  - `FirecrackerProcess::spawn` (`src/firecracker.rs:241-315`), including the 50 polls of the socket, is a single `spawn` outcome;
  - `kill` (`src/firecracker.rs:388-400`) is the effect `Killed`.
- Lifecycle.StartFromIdle: a failed spawn is one outcome with no process. In the source, two failures come after `Command::spawn` has already started the hypervisor: the console socket bind or `set_nonblocking` (`src/firecracker.rs:283-286`), and the control socket never appearing (`src/firecracker.rs:298-314`). In both, `child` is dropped without a kill, and the console thread of the second keeps running. `std::process::Child` does not kill on drop, so a live hypervisor process is left behind. "Nothing retained on failure" holds for the registry and the store only.
- Persistence.VmStore.Open, State.VmManager.WithStore: the error path of `VmStore::open` and `with_db_path` (`src/persistence.rs:40-56`, `src/state.rs:65-66`) is not modelled. That covers directory creation, database creation and the first write transaction. The model starts from a store that opened.
- `Vm::new` takes its id as a parameter, because `Uuid::new_v4` is random. Uniqueness of fresh ids is not assumed: an id that is already registered is overwritten, as `HashMap::insert` does.
- The redb database and serde's JSON encoding of records: the table holds the records themselves. Every backend error is a fault parameter with its display prefix. Replies from the hypervisor are read as text, one character per byte; `from_utf8_lossy` is not modelled.
- The JSON bodies that the API and the UI exchange are modelled as a field map (`UiTypes.Json`), not as text. Axum routing and extraction, including a malformed request body, are not modelled.
- `src/main.rs` (startup, signal handling, shutdown) is not part of this model. Neither are the interactive terminal set-up of gxctl, printing, colours, help text, the HTTP client of gxctl and the UI, and the UI's page rendering.
- The client-to-terminal half of the console loop (`src/firecracker.rs:371-382`) is left out. It changes no state of the proxy.
- State.VmManager.ListVms: returns the records in some order. `HashMap` iteration order is unspecified, and the method requires only that entries sit under their own id, not the whole invariant.
- Persistence.VmStore.LoadAll: key order is modelled as code-point order of the ids. That is the byte order redb uses for `&str` keys.
- Text.LowerAscii: lowercases ASCII only. It has two uses: the `content-length:` prefix test (`src/firecracker.rs:94`) and the delete confirmation `confirm.to_lowercase() == "y"` (`Cli.Confirmed`, `src/bin/gxctl.rs:761`). Neither can be changed by the rest of Unicode. No non-ASCII character lowercases into the letters of `content-length:`. For the confirmation, only `y` and `Y` lowercase to `"y"` (`Cli.ConfirmedIff`).
- Firecracker.ContentLengthOf: `usize` is taken to be 64 bits wide.
- Firecracker.ReadResponse, Firecracker.ReadHeaders: `ReadHeaders` is the corrected header loop (see Findings). It also leaves on the empty line `read_line` gives at the end of the stream, and `ReadResponse` calls it. The loop as written is modelled separately by `HeaderStepAsWritten` and `RunAsWritten`.
- Cli.CreateRequestFrom: the home directory defaults to "." as gxctl does (`src/bin/gxctl.rs:344`). The web form defaults it to "/root" (`crates/glidex-ui/src/components/create_vm_form.rs:25`). Both defaults are modelled as written.

## Findings

| source | as written | input that shows it | evidently intended | confidence | as-written member | corrected member |
|---|---|---|---|---|---|---|
| src/firecracker.rs:88-104 | The header loop leaves only on a line equal to `"\r\n"` or `"\n"`. At the end of the stream `read_line` returns an empty line, so a stream that ends before the blank line makes the loop read empty lines forever. | A control socket that answers `HTTP/1.1 200 OK\r\n` and closes | Stop reading headers at the end of the stream and return what was read | not executed | Firecracker.HeaderLoopEofCounterexample | Firecracker.ReadResponse |
