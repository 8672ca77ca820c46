/**
 * The web UI's own copy of the API types (crates/glidex-ui/src/types.rs):
 * its state enum with the badge colour and label of each state, and the
 * create request as the UI serialises it.
 */
module UiTypes {
  import opened Wrappers
  import Models

  /** The UI's state enum, declared apart from the server's. */
  datatype UiState = Created | Running | Paused | Stopped

  /** `css_class`: the badge colour of a state. */
  function CssClass(s: UiState): string {
    match s
    case Running => "bg-green-500"
    case Stopped => "bg-red-500"
    case Paused => "bg-yellow-500"
    case Created => "bg-blue-500"
  }

  /** `display`: the label of a state. */
  function Display(s: UiState): string {
    match s
    case Running => "Running"
    case Stopped => "Stopped"
    case Paused => "Paused"
    case Created => "Created"
  }

  /** No two states share a badge colour or a label. */
  lemma CssClassInjective(a: UiState, b: UiState)
    ensures CssClass(a) == CssClass(b) ==> a == b
  {
  }

  lemma DisplayInjective(a: UiState, b: UiState)
    ensures Display(a) == Display(b) ==> a == b
  {
  }

  /** The wire name of a state; both enums are `rename_all = "lowercase"`. */
  function WireName(s: UiState): string {
    match s
    case Created => "created"
    case Running => "running"
    case Paused => "paused"
    case Stopped => "stopped"
  }

  /** The state the UI reads for a wire name, as serde would; None for any other text. */
  function ParseWireName(t: string): (r: Option<UiState>) {
    match t
    case "created" => Some(Created)
    case "running" => Some(Running)
    case "paused" => Some(Paused)
    case "stopped" => Some(Stopped)
    case _ => None
  }

  /** The state the UI decodes from the server's JSON for a server state. */
  function FromServer(s: Models.VmState): (u: UiState)
    ensures ParseWireName(Models.StateName(s)) == Some(u)
  {
    match s
    case Created => Created
    case Running => Running
    case Paused => Paused
    case Stopped => Stopped
  }

  /** The server state the UI's state was decoded from. */
  function ToServer(u: UiState): (s: Models.VmState)
    ensures Models.StateName(s) == WireName(u)
  {
    match u
    case Created => Models.Created
    case Running => Models.Running
    case Paused => Models.Paused
    case Stopped => Models.Stopped
  }

  /**
   * The two enums have the same four variants under the same wire names:
   * decoding is a bijection, and the UI's label is the server's `Debug` name.
   */
  lemma SameStatesBothSides(s: Models.VmState, u: UiState)
    ensures ToServer(FromServer(s)) == s
    ensures FromServer(ToServer(u)) == u
    ensures ParseWireName(WireName(u)) == Some(u)
    ensures Display(FromServer(s)) == Models.StateDebug(s)
  {
  }

  /** A JSON value as far as the create request needs one. */
  datatype Json = Str(s: string) | Num(n: nat)

  /**
   * The fields of the create request the UI sends: `kernel_args` is left
   * out when it is None (`skip_serializing_if = "Option::is_none"`).
   */
  function RequestFields(req: Models.CreateVmRequest): (m: map<string, Json>)
    ensures "kernel_args" in m <==> req.kernelArgs.Some?
  {
    var fields := map["name" := Str(req.name), "vcpu_count" := Num(req.vcpuCount),
                      "mem_size_mib" := Num(req.memSizeMib),
                      "kernel_image_path" := Str(req.kernelImagePath), "rootfs_path" := Str(req.rootfsPath)];
    if req.kernelArgs.Some? then fields["kernel_args" := Str(req.kernelArgs.value)] else fields
  }

  function StrField(m: map<string, Json>, key: string): Option<string> {
    if key in m && m[key].Str? then Some(m[key].s) else None
  }

  /**
   * How the server's `CreateVmRequest` reads those fields: every field but
   * `kernel_args` is required, the numbers must fit `u8` and `u32`, and a
   * missing `kernel_args` reads as None (`#[serde(default)]`).
   */
  function ServerReads(m: map<string, Json>): Option<Models.CreateVmRequest> {
    if !("name" in m && m["name"].Str? && "vcpu_count" in m && m["vcpu_count"].Num?
         && "mem_size_mib" in m && m["mem_size_mib"].Num?
         && "kernel_image_path" in m && m["kernel_image_path"].Str?
         && "rootfs_path" in m && m["rootfs_path"].Str?) then None
    else if !(m["vcpu_count"].n < 0x100 && m["mem_size_mib"].n < 0x1_0000_0000) then None
    else if "kernel_args" in m && !m["kernel_args"].Str? then None
    else Some(Models.CreateVmRequest(m["name"].s, m["vcpu_count"].n, m["mem_size_mib"].n,
                                     m["kernel_image_path"].s, m["rootfs_path"].s,
                                     StrField(m, "kernel_args")))
  }

  /** Leaving `kernel_args` out is harmless: the server reads back exactly the request the UI built. */
  lemma RequestRoundTrip(req: Models.CreateVmRequest)
    ensures ServerReads(RequestFields(req)) == Some(req)
  {
  }
}
