/**
 * The create form of the web UI (crates/glidex-ui/src/components/create_vm_form.rs):
 * its initial field values and the request `handle_submit` builds from them.
 */
module CreateVmForm {
  import opened Wrappers
  import opened Models

  /** The form's fields; the numeric inputs already hold numbers of the request's widths. */
  datatype Form = Form(name: string, vcpuCount: U8, memSizeMib: U32,
                       kernelPath: string, rootfsPath: string, kernelArgs: string)

  /** The values the form starts with. */
  function Initial(): (f: Form)
    ensures f.vcpuCount == 1 && f.memSizeMib == 512
    ensures f.name == "" && f.kernelPath == "" && f.rootfsPath == "" && f.kernelArgs == ""
  {
    Form("", 1, 512, "", "", "")
  }

  /**
   * `handle_submit`: empty paths become the files under `{HOME}/.glidex`,
   * HOME falling back to "/root"; empty kernel arguments become none.
   */
  function Submit(f: Form, home: Option<string>): (req: CreateVmRequest)
    ensures req.name == f.name && req.vcpuCount == f.vcpuCount && req.memSizeMib == f.memSizeMib
    ensures f.kernelPath != "" ==> req.kernelImagePath == f.kernelPath
    ensures f.rootfsPath != "" ==> req.rootfsPath == f.rootfsPath
    ensures f.kernelPath == "" ==> req.kernelImagePath == home.GetOr("/root") + "/.glidex/vmlinux.bin"
    ensures f.rootfsPath == "" ==> req.rootfsPath == home.GetOr("/root") + "/.glidex/rootfs.ext4"
    ensures req.kernelArgs.None? <==> f.kernelArgs == ""
    ensures req.kernelArgs.Some? ==> req.kernelArgs.value == f.kernelArgs
  {
    var dir := home.GetOr("/root");
    CreateVmRequest(
      f.name, f.vcpuCount, f.memSizeMib,
      if f.kernelPath == "" then dir + "/.glidex/vmlinux.bin" else f.kernelPath,
      if f.rootfsPath == "" then dir + "/.glidex/rootfs.ext4" else f.rootfsPath,
      if f.kernelArgs == "" then None else Some(f.kernelArgs))
  }

  /**
   * Submitting the untouched form under some name asks for one vCPU,
   * 512 MiB and the default image files under HOME (or /root), and the
   * server then boots it with its default kernel command line.
   */
  lemma UntouchedFormDefaults(name: string, home: Option<string>)
    ensures var req := Submit(Initial().(name := name), home);
      var dir := if home.Some? then home.value else "/root";
      && req == CreateVmRequest(name, 1, 512, dir + "/.glidex/vmlinux.bin", dir + "/.glidex/rootfs.ext4", None)
      && ConfigFromRequest(req).kernelArgs == DEFAULT_KERNEL_ARGS
  {
  }

  /** A path that was typed in is sent as typed; a blank one is replaced by a path under the home directory. */
  lemma PathsDefaultUnderHome(f: Form, home: string)
    ensures var req := Submit(f, Some(home));
      && (f.kernelPath == "" ==> req.kernelImagePath == home + "/.glidex/vmlinux.bin")
      && (f.rootfsPath == "" ==> req.rootfsPath == home + "/.glidex/rootfs.ext4")
  {
  }
}
