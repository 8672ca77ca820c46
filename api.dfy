/**
 * The HTTP face of the manager in src/api.rs: how each manager error
 * becomes a status and an error body, which status a successful create
 * and delete answer with, and the console information of a VM. Routing
 * and JSON extraction are left to the web framework.
 */
module Api {
  import opened Wrappers
  import opened Models
  import opened Lifecycle

  const OK: nat := 200
  const CREATED: nat := 201
  const NO_CONTENT: nat := 204
  const BAD_REQUEST: nat := 400
  const NOT_FOUND: nat := 404
  const CONFLICT: nat := 409
  const INTERNAL_SERVER_ERROR: nat := 500

  /** The five kinds of manager error, as the API tells them apart. */
  datatype ErrorKind = NotFound | AlreadyExists | BadState | Hypervisor | Store

  function KindOf(e: ManagerError): ErrorKind {
    match e
    case VmNotFound(_) => NotFound
    case VmAlreadyExists(_) => AlreadyExists
    case InvalidState(_, _) => BadState
    case FirecrackerError(_) => Hypervisor
    case PersistenceError(_) => Store
  }

  /** `error_to_response`: the status and the `ApiError` body, whose message is the error's `Display` text. */
  function ErrorToResponse(e: ManagerError): (r: (nat, ApiError))
    ensures r.1.message == ErrorText(e)
    ensures e.VmNotFound? <==> r == (NOT_FOUND, ApiError("not_found", ErrorText(e)))
    ensures e.VmAlreadyExists? <==> r == (CONFLICT, ApiError("conflict", ErrorText(e)))
    ensures e.InvalidState? <==> r == (BAD_REQUEST, ApiError("invalid_state", ErrorText(e)))
    ensures e.FirecrackerError? <==> r == (INTERNAL_SERVER_ERROR, ApiError("firecracker_error", ErrorText(e)))
    ensures e.PersistenceError? <==> r == (INTERNAL_SERVER_ERROR, ApiError("persistence_error", ErrorText(e)))
  {
    var text := ErrorText(e);
    match e
    case VmNotFound(_) => (NOT_FOUND, ApiError("not_found", text))
    case VmAlreadyExists(_) => (CONFLICT, ApiError("conflict", text))
    case InvalidState(_, _) => (BAD_REQUEST, ApiError("invalid_state", text))
    case FirecrackerError(_) => (INTERNAL_SERVER_ERROR, ApiError("firecracker_error", text))
    case PersistenceError(_) => (INTERNAL_SERVER_ERROR, ApiError("persistence_error", text))
  }

  /** Reading the kind of error back from the code of an error body. */
  function KindOfCode(code: string): (k: Option<ErrorKind>) {
    match code
    case "not_found" => Some(NotFound)
    case "conflict" => Some(AlreadyExists)
    case "invalid_state" => Some(BadState)
    case "firecracker_error" => Some(Hypervisor)
    case "persistence_error" => Some(Store)
    case _ => None
  }

  /** The code of an error body names the kind of error exactly: each kind has one code and no two share it. */
  lemma CodeNamesKind(e: ManagerError)
    ensures KindOfCode(ErrorToResponse(e).1.error) == Some(KindOf(e))
  {
  }

  /** Every error answers with a client or server error status, 4xx exactly for the errors the request caused. */
  lemma ErrorStatusClass(e: ManagerError)
    ensures 400 <= ErrorToResponse(e).0 < 600
    ensures ErrorToResponse(e).0 < 500 <==> (e.VmNotFound? || e.VmAlreadyExists? || e.InvalidState?)
  {
  }

  /** A handler's answer: a status with a VM, with nothing, with console information, or an error. */
  datatype Reply =
    | VmReply(status: nat, vm: VmResponse)
    | EmptyReply(status: nat)
    | ConsoleReply(info: ConsoleInfo)
    | ErrorReply(status: nat, error: ApiError)

  datatype ConsoleInfo = ConsoleInfo(vmId: string, consoleSocketPath: string, logPath: string, available: bool)

  function Failure(e: ManagerError): Reply {
    var (status, body) := ErrorToResponse(e);
    ErrorReply(status, body)
  }

  /** `create_vm`: 201 with the new VM. */
  function CreateReply(res: Result<Vm, ManagerError>): Reply {
    if res.Ok? then VmReply(CREATED, ResponseOf(res.value)) else Failure(res.error)
  }

  /** `get_vm`, `start_vm`, `stop_vm`, `pause_vm`: 200 with the VM. */
  function VmOkReply(res: Result<Vm, ManagerError>): Reply {
    if res.Ok? then VmReply(OK, ResponseOf(res.value)) else Failure(res.error)
  }

  /** `delete_vm`: 204 with no body. */
  function DeleteReply(res: Result<(), ManagerError>): Reply {
    if res.Ok? then EmptyReply(NO_CONTENT) else Failure(res.error)
  }

  /** `get_console_info`: the record's console paths, available only while it runs. */
  function ConsoleInfoReply(res: Result<Vm, ManagerError>): Reply {
    if res.Ok? then
      var vm := res.value;
      ConsoleReply(ConsoleInfo(vm.id, vm.consoleSocketPath, vm.logPath, vm.state == Running))
    else Failure(res.error)
  }

  /**
   * Creating a VM under a free name, with the store accepting the record,
   * answers 201 with a VM in state "created" carrying the requested sizes;
   * a taken name answers 409 "conflict".
   */
  lemma CreateAnswers(r: Registry, id: string, req: CreateVmRequest, fault: Option<Persistence.StoreFault>)
    ensures var rep := CreateReply(CreateStep(r, id, req.name, ConfigFromRequest(req), fault).result);
      && (!NameHeld(r.vms, req.name) && fault.None? ==>
            && rep.VmReply? && rep.status == CREATED
            && rep.vm.id == id && rep.vm.name == req.name
            && StateName(rep.vm.state) == "created"
            && rep.vm.vcpuCount == req.vcpuCount && rep.vm.memSizeMib == req.memSizeMib)
      && (NameHeld(r.vms, req.name) ==>
            rep == ErrorReply(CONFLICT, ApiError("conflict", "VM already exists: " + req.name)))
  {
  }

  /** Deleting answers 204 once the record is gone from the store, and 404 for an unknown id. */
  lemma DeleteAnswers(r: Registry, id: string, fault: Option<Persistence.StoreFault>)
    ensures var rep := DeleteReply(DeleteStep(r, id, fault).result);
      && (id in r.vms && fault.None? ==> rep == EmptyReply(NO_CONTENT))
      && (id !in r.vms ==> rep == ErrorReply(NOT_FOUND, ApiError("not_found", "VM not found: " + id)))
  {
  }

  /**
   * The console of a known VM is reported with the record's own paths and
   * is available exactly when the VM is Running; for a valid registry an
   * available console therefore belongs to a VM with a process. An unknown
   * id answers 404.
   */
  lemma ConsoleAvailability(r: Registry, id: string)
    ensures var rep := ConsoleInfoReply(GetStep(r.vms, id));
      && (id in r.vms ==>
            && rep.ConsoleReply?
            && rep.info.consoleSocketPath == r.vms[id].vm.consoleSocketPath
            && rep.info.logPath == r.vms[id].vm.logPath
            && (rep.info.available <==> r.vms[id].vm.state == Running)
            && (Valid(r) && rep.info.available ==> r.vms[id].process.Some?))
      && (id !in r.vms ==> rep.ErrorReply? && rep.status == NOT_FOUND)
  {
  }
}
