/**
 * The control plane's data model (crates/glidex-control-plane/src/models.rs):
 * the four lifecycle states, a VM's configuration and record, the create
 * request and its defaulting, and the response projection.
 */
module Models {
  import opened Wrappers
  import Text

  /** Rust's `u8`. */
  type U8 = x: int | 0 <= x < 0x100

  /** Rust's `u32`. */
  type U32 = x: int | 0 <= x < 0x1_0000_0000

  /** The four lifecycle states; there are no intermediate ones. */
  datatype VmState = Created | Running | Paused | Stopped

  /** The wire name of a state (`#[serde(rename_all = "lowercase")]`). */
  function StateName(s: VmState): string {
    match s
    case Created => "created"
    case Running => "running"
    case Paused => "paused"
    case Stopped => "stopped"
  }

  /** Deserialising a wire name: only the four lowercase names are accepted. */
  function ParseStateName(t: string): (r: Option<VmState>)
    ensures r.Some? ==> StateName(r.value) == t
  {
    if t == "created" then Some(Created)
    else if t == "running" then Some(Running)
    else if t == "paused" then Some(Paused)
    else if t == "stopped" then Some(Stopped)
    else None
  }

  /** Serialising a state and reading it back gives the same state; so the names are distinct. */
  lemma StateNameRoundTrip(s: VmState)
    ensures ParseStateName(StateName(s)) == Some(s)
  {
  }

  lemma StateNameInjective(a: VmState, b: VmState)
    ensures StateName(a) == StateName(b) ==> a == b
  {
    StateNameRoundTrip(a);
    StateNameRoundTrip(b);
  }

  /** The `{:?}` (Debug) text of a state, as error messages print it. */
  function StateDebug(s: VmState): string {
    match s
    case Created => "Created"
    case Running => "Running"
    case Paused => "Paused"
    case Stopped => "Stopped"
  }

  datatype VmConfig = VmConfig(
    vcpuCount: U8,
    memSizeMib: U32,
    kernelImagePath: string,
    rootfsPath: string,
    kernelArgs: string)

  /** The kernel command line used when a create request gives none. */
  const DEFAULT_KERNEL_ARGS: string := "console=ttyS0 reboot=k panic=1 pci=off"

  datatype Vm = Vm(
    id: string,
    name: string,
    state: VmState,
    config: VmConfig,
    socketPath: string,
    consoleSocketPath: string,
    logPath: string)

  const PATH_PREFIX: string := "/tmp/firecracker-"

  /** The hypervisor's control socket for a VM id. */
  function SocketPath(id: string): string {
    PATH_PREFIX + id + ".sock"
  }

  /** The console broadcast socket for a VM id. */
  function ConsoleSocketPath(id: string): string {
    PATH_PREFIX + id + ".console.sock"
  }

  /** The serial console log file for a VM id. */
  function LogPath(id: string): string {
    PATH_PREFIX + id + ".log"
  }

  /** A record whose three paths are the ones derived from its own id. */
  predicate PathsFollowId(vm: Vm) {
    vm.socketPath == SocketPath(vm.id)
    && vm.consoleSocketPath == ConsoleSocketPath(vm.id)
    && vm.logPath == LogPath(vm.id)
  }

  /**
   * `Vm::new`: the id (a fresh `Uuid::new_v4()` in the source) is a
   * parameter here. The record starts in Created, keeps the given name and
   * configuration, and takes its three paths from the id.
   */
  function NewVm(id: string, name: string, config: VmConfig): (vm: Vm)
    ensures vm.id == id && vm.name == name && vm.config == config
    ensures vm.state == Created
    ensures PathsFollowId(vm)
    ensures vm.socketPath != vm.consoleSocketPath && vm.socketPath != vm.logPath
      && vm.consoleSocketPath != vm.logPath
  {
    PathsDistinct(id);
    Vm(id, name, Created, config, SocketPath(id), ConsoleSocketPath(id), LogPath(id))
  }

  /** The three paths of one id are pairwise distinct (their lengths differ). */
  lemma PathsDistinct(id: string)
    ensures SocketPath(id) != ConsoleSocketPath(id)
    ensures SocketPath(id) != LogPath(id)
    ensures ConsoleSocketPath(id) != LogPath(id)
  {
    assert |SocketPath(id)| == |PATH_PREFIX| + |id| + 5;
    assert |ConsoleSocketPath(id)| == |PATH_PREFIX| + |id| + 13;
    assert |LogPath(id)| == |PATH_PREFIX| + |id| + 4;
  }

  /** Strings that share a prefix and a suffix are equal when the whole strings are. */
  lemma FramedInjective(p: string, a: string, b: string, q: string)
    requires p + a + q == p + b + q
    ensures a == b
  {
    var s := p + a + q;
    assert |a| == |b|;
    assert a == s[|p|..|p| + |a|];
    assert b == (p + b + q)[|p|..|p| + |b|];
  }

  /** Distinct ids give distinct paths of each kind. */
  lemma PathsInjective(a: string, b: string)
    ensures SocketPath(a) == SocketPath(b) ==> a == b
    ensures ConsoleSocketPath(a) == ConsoleSocketPath(b) ==> a == b
    ensures LogPath(a) == LogPath(b) ==> a == b
  {
    if SocketPath(a) == SocketPath(b) {
      FramedInjective(PATH_PREFIX, a, b, ".sock");
    }
    if ConsoleSocketPath(a) == ConsoleSocketPath(b) {
      FramedInjective(PATH_PREFIX, a, b, ".console.sock");
    }
    if LogPath(a) == LogPath(b) {
      FramedInjective(PATH_PREFIX, a, b, ".log");
    }
  }

  predicate IsLowerHex(c: char) {
    ('0' <= c <= '9') || ('a' <= c <= 'f')
  }

  /** The text of `Uuid::to_string`: 36 characters, lowercase hex with hyphens at 8, 13, 18 and 23. */
  predicate IsUuidText(id: string) {
    |id| == 36
    && forall i :: 0 <= i < 36 ==>
      if i == 8 || i == 13 || i == 18 || i == 23 then id[i] == '-' else IsLowerHex(id[i])
  }

  /**
   * For ids in the form `Uuid::new_v4()` produces, no path of one VM is
   * ever a path of another kind of any VM: the socket, console socket and
   * log files of the whole population never collide.
   */
  lemma UuidPathsNeverCollide(a: string, b: string)
    requires IsUuidText(a) && IsUuidText(b)
    ensures SocketPath(a) != ConsoleSocketPath(b)
    ensures SocketPath(a) != LogPath(b)
    ensures ConsoleSocketPath(a) != LogPath(b)
  {
    assert |SocketPath(a)| == |PATH_PREFIX| + 41;
    assert |ConsoleSocketPath(b)| == |PATH_PREFIX| + 49;
    assert |LogPath(b)| == |PATH_PREFIX| + 40;
    assert |ConsoleSocketPath(a)| == |PATH_PREFIX| + 49;
  }

  /**
   * Whatever the ids, a socket path is never the console socket path of a
   * VM whose id has no '.', because position |PATH_PREFIX| + |b| of the
   * console path holds the '.' of ".console.sock".
   */
  lemma SocketNeverConsoleSocket(a: string, b: string)
    requires forall i :: 0 <= i < |a| ==> a[i] != '.'
    ensures SocketPath(a) != ConsoleSocketPath(b)
  {
    if |a| == |b| + 8 {
      var k := |PATH_PREFIX| + |b|;
      assert ConsoleSocketPath(b)[k] == '.';
      assert SocketPath(a)[k] == a[|b|];
    }
  }

  /** The body of POST /vms; `kernel_args` may be missing (`#[serde(default)]`). */
  datatype CreateVmRequest = CreateVmRequest(
    name: string,
    vcpuCount: U8,
    memSizeMib: U32,
    kernelImagePath: string,
    rootfsPath: string,
    kernelArgs: Option<string>)

  /** `From<CreateVmRequest> for VmConfig`: a missing kernel command line becomes the default. */
  function ConfigFromRequest(req: CreateVmRequest): (c: VmConfig)
    ensures c.vcpuCount == req.vcpuCount && c.memSizeMib == req.memSizeMib
    ensures c.kernelImagePath == req.kernelImagePath && c.rootfsPath == req.rootfsPath
    ensures req.kernelArgs.None? ==> c.kernelArgs == DEFAULT_KERNEL_ARGS
    ensures req.kernelArgs.Some? ==> c.kernelArgs == req.kernelArgs.value
  {
    VmConfig(req.vcpuCount, req.memSizeMib, req.kernelImagePath, req.rootfsPath,
             req.kernelArgs.GetOr(DEFAULT_KERNEL_ARGS))
  }

  /** Every configuration can be asked for: the request that spells it out converts back to it. */
  lemma EveryConfigRequestable(name: string, c: VmConfig)
    ensures ConfigFromRequest(CreateVmRequest(name, c.vcpuCount, c.memSizeMib, c.kernelImagePath,
                                              c.rootfsPath, Some(c.kernelArgs))) == c
  {
  }

  /** Asking for the default command line explicitly or not at all gives the same configuration. */
  lemma DefaultArgsSameAsNone(req: CreateVmRequest)
    ensures ConfigFromRequest(req.(kernelArgs := None))
         == ConfigFromRequest(req.(kernelArgs := Some(DEFAULT_KERNEL_ARGS)))
  {
  }

  /** What the API returns for a VM: everything but the kernel paths, the arguments and the control socket. */
  datatype VmResponse = VmResponse(
    id: string,
    name: string,
    state: VmState,
    vcpuCount: U8,
    memSizeMib: U32,
    consoleSocketPath: string,
    logPath: string)

  /** `From<&Vm> for VmResponse`. */
  function ResponseOf(vm: Vm): (r: VmResponse)
    ensures r.id == vm.id && r.name == vm.name && r.state == vm.state
    ensures r.vcpuCount == vm.config.vcpuCount && r.memSizeMib == vm.config.memSizeMib
    ensures r.consoleSocketPath == vm.consoleSocketPath && r.logPath == vm.logPath
  {
    VmResponse(vm.id, vm.name, vm.state, vm.config.vcpuCount, vm.config.memSizeMib,
               vm.consoleSocketPath, vm.logPath)
  }

  /**
   * The response to a freshly created VM echoes the request's name and
   * sizes, reports the state "created", and tells where its console lives.
   */
  lemma CreatedResponse(id: string, req: CreateVmRequest)
    ensures var r := ResponseOf(NewVm(id, req.name, ConfigFromRequest(req)));
      && r.id == id && r.name == req.name
      && r.vcpuCount == req.vcpuCount && r.memSizeMib == req.memSizeMib
      && StateName(r.state) == "created"
      && r.consoleSocketPath == ConsoleSocketPath(id) && r.logPath == LogPath(id)
  {
  }

  /** The JSON error body: a machine-readable code and a message (`ApiError::new`). */
  datatype ApiError = ApiError(error: string, message: string)
}
