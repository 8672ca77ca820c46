/**
 * The pure rules of the command-line client src/bin/gxctl.rs: how a line
 * becomes a command, when the prompt loop ends, how a name or id is
 * resolved against the server's answers, the delete confirmation, the
 * detach key of the console writer, and the defaults of the interactive
 * create. Input, output and the HTTP calls are the parameters of these
 * functions.
 */
module Cli {
  import opened Wrappers
  import opened Models
  import Text

  type Byte = bv8

  /** A line of input, after `split_whitespace`, as `handle_command` dispatches it. */
  datatype Command =
    | Blank
    | Help
    | Exit
    | List
    | Create
    | Health
    | Get(target: string)
    | Start(target: string)
    | Stop(target: string)
    | Pause(target: string)
    | Connect(target: string)
    | Log(target: string)
    | Delete(target: string)
    | Usage(command: string)
    | Unknown(word: string)

  /** The commands that take a VM; each prints its usage when the VM is missing. */
  predicate NeedsTarget(word: string) {
    word in {"get", "start", "stop", "pause", "connect", "console", "attach", "log", "logs", "delete", "rm"}
  }

  /** The name a command's usage line is printed under: aliases are shown by their main name. */
  function MainName(word: string): string {
    match word
    case "console" => "connect"
    case "attach" => "connect"
    case "logs" => "log"
    case "rm" => "delete"
    case _ => word
  }

  /** `handle_command`'s dispatch on the words of a line. */
  function Dispatch(parts: seq<string>): (c: Command) {
    if parts == [] then Blank
    else
      var w := parts[0];
      if w in {"help", "?"} then Help
      else if w in {"exit", "quit", "q"} then Exit
      else if w in {"list", "ls"} then List
      else if w == "create" then Create
      else if w == "health" then Health
      else if NeedsTarget(w) then
        if |parts| < 2 then Usage(MainName(w))
        else
          var t := parts[1];
          match MainName(w)
          case "get" => Get(t)
          case "start" => Start(t)
          case "stop" => Stop(t)
          case "pause" => Pause(t)
          case "connect" => Connect(t)
          case "log" => Log(t)
          case _ => Delete(t)
      else Unknown(w)
  }

  /** `handle_command` splits the trimmed line on whitespace and dispatches on the words. */
  function Parse(line: string): Command {
    Dispatch(Text.Words(Text.Trim(line)))
  }

  /** What `handle_command` returns: whether the prompt loop goes on. */
  function KeepsRunning(c: Command): bool {
    !c.Exit?
  }

  /** Only `exit`, `quit` and `q` end the loop, whatever follows them; every other line, unknown ones included, continues it. */
  lemma OnlyExitStops(parts: seq<string>)
    ensures !KeepsRunning(Dispatch(parts)) <==> parts != [] && parts[0] in {"exit", "quit", "q"}
  {
  }

  /** A line of nothing but whitespace does nothing and keeps the loop going; any other line has a first word. */
  lemma BlankLineIsNoOp(line: string)
    ensures Parse(line) == Blank <==> Text.AllWhitespace(line)
  {
    Text.WordsEmptyIff(Text.Trim(line));
    Text.TrimAllWhitespaceIff(line);
    BlankIffNoWords(Text.Words(Text.Trim(line)));
  }

  lemma BlankIffNoWords(parts: seq<string>)
    ensures Dispatch(parts) == Blank <==> parts == []
  {
  }

  /** A command that takes a VM but was given none prints its usage, under its main name, and resolves nothing. */
  lemma MissingTargetPrintsUsage(w: string)
    requires NeedsTarget(w)
    ensures Dispatch([w]) == Usage(MainName(w))
    ensures MainName(w) in {"get", "start", "stop", "pause", "connect", "log", "delete"}
  {
  }

  /** The aliases reach the same command as the names they stand for, whatever follows them. */
  lemma AliasesAgree(rest: seq<string>)
    ensures Dispatch(["?"] + rest) == Dispatch(["help"] + rest) == Help
    ensures Dispatch(["ls"] + rest) == Dispatch(["list"] + rest) == List
    ensures Dispatch(["console"] + rest) == Dispatch(["attach"] + rest) == Dispatch(["connect"] + rest)
    ensures Dispatch(["logs"] + rest) == Dispatch(["log"] + rest)
    ensures Dispatch(["rm"] + rest) == Dispatch(["delete"] + rest)
  {
    DispatchWord("?", rest);
    DispatchWord("help", rest);
    DispatchWord("ls", rest);
    DispatchWord("list", rest);
    DispatchWord("console", rest);
    DispatchWord("attach", rest);
    DispatchWord("connect", rest);
    DispatchWord("logs", rest);
    DispatchWord("log", rest);
    DispatchWord("rm", rest);
    DispatchWord("delete", rest);
  }

  /** The command a first word selects, given what follows it. */
  lemma DispatchWord(w: string, rest: seq<string>)
    ensures w in {"help", "?"} ==> Dispatch([w] + rest) == Help
    ensures w in {"list", "ls"} ==> Dispatch([w] + rest) == List
    ensures NeedsTarget(w) && rest == [] ==> Dispatch([w] + rest) == Usage(MainName(w))
    ensures NeedsTarget(w) && rest != [] && MainName(w) == "connect" ==> Dispatch([w] + rest) == Connect(rest[0])
    ensures NeedsTarget(w) && rest != [] && MainName(w) == "log" ==> Dispatch([w] + rest) == Log(rest[0])
    ensures NeedsTarget(w) && rest != [] && MainName(w) == "delete" ==> Dispatch([w] + rest) == Delete(rest[0])
  {
    assert ([w] + rest)[0] == w;
    assert rest != [] ==> ([w] + rest)[1] == rest[0];
  }

  // ---------------------------------------------------------------------
  // Resolving a name or an id

  /** The listed VMs with the given name, in listing order. */
  function Named(vms: seq<VmResponse>, name: string): (ms: seq<VmResponse>)
    ensures forall i :: 0 <= i < |ms| ==> ms[i].name == name && ms[i] in vms
    ensures forall v :: v in vms && v.name == name ==> v in ms
  {
    if vms == [] then []
    else (if vms[0].name == name then [vms[0]] else []) + Named(vms[1..], name)
  }

  /** The ids of the given VMs, in their order. */
  function Ids(ms: seq<VmResponse>): (ids: seq<string>)
    ensures |ids| == |ms|
    ensures forall i :: 0 <= i < |ms| ==> ids[i] == ms[i].id
  {
    if ms == [] then [] else [ms[0].id] + Ids(ms[1..])
  }

  /**
   * `resolve_vm`: `lookup` is the answer to GET /vms/{target}, `listing`
   * the answer to GET /vms. A VM found under the given id wins; otherwise
   * the name must match exactly one listed VM.
   */
  function Resolve(target: string, lookup: Result<VmResponse, string>,
                   listing: Result<seq<VmResponse>, string>): Result<string, string>
  {
    if lookup.Ok? then Ok(lookup.value.id)
    else if listing.Err? then Err(listing.error)
    else
      var ms := Named(listing.value, target);
      if |ms| == 0 then Err("VM '" + target + "' not found")
      else if |ms| == 1 then Ok(ms[0].id)
      else Err("Multiple VMs found with name '" + target + "'. Use ID instead: " + Text.Join(Ids(ms), ", "))
  }

  /**
   * A VM found under the given id wins, whatever the listing says; when
   * the id lookup fails, a failed listing is reported as it came.
   */
  lemma ResolveById(target: string, lookup: Result<VmResponse, string>, listing: Result<seq<VmResponse>, string>)
    ensures lookup.Ok? ==> Resolve(target, lookup, listing) == Ok(lookup.value.id)
    ensures lookup.Err? && listing.Err? ==> Resolve(target, lookup, listing) == Err(listing.error)
  {
  }

  /**
   * When the id lookup fails, resolution succeeds exactly when one listed
   * VM carries the name, and then yields that VM's id. No match is "not
   * found"; several matches are refused with a message that lists the id
   * of every listed VM with that name.
   */
  lemma ResolveByName(target: string, lookup: Result<VmResponse, string>, vms: seq<VmResponse>)
    requires lookup.Err?
    ensures var r := Resolve(target, lookup, Ok(vms));
      && (r.Ok? <==> |Named(vms, target)| == 1)
      && (r.Ok? ==> exists v :: v in vms && v.name == target && v.id == r.value)
      && (Named(vms, target) == [] ==> r == Err("VM '" + target + "' not found"))
      && (|Named(vms, target)| > 1 ==>
            r == Err("Multiple VMs found with name '" + target + "'. Use ID instead: "
                     + Text.Join(Ids(Named(vms, target)), ", ")))
    ensures forall v :: v in vms && v.name == target ==> v.id in Ids(Named(vms, target))
  {
    var ms := Named(vms, target);
    if |ms| == 1 {
      assert ms[0] in vms;
    }
    forall v | v in vms && v.name == target
      ensures v.id in Ids(ms)
    {
      var i :| 0 <= i < |ms| && ms[i] == v;
      assert Ids(ms)[i] == v.id;
    }
  }

  predicate NamesDistinct(vms: seq<VmResponse>) {
    forall i, j :: 0 <= i < j < |vms| ==> vms[i].name != vms[j].name
  }

  /** Among VMs whose names differ, at most one carries a given name. */
  lemma {:induction false} NamedAtMostOnce(vms: seq<VmResponse>, name: string)
    requires NamesDistinct(vms)
    ensures |Named(vms, name)| <= 1
  {
    if vms != [] {
      var rest := vms[1..];
      assert NamesDistinct(rest) by {
        forall i, j | 0 <= i < j < |rest|
          ensures rest[i].name != rest[j].name
        {
          assert rest[i] == vms[i + 1] && rest[j] == vms[j + 1];
        }
      }
      NamedAtMostOnce(rest, name);
      if vms[0].name == name {
        forall v | v in rest
          ensures v.name != name
        {
          var k :| 0 <= k < |rest| && rest[k] == v;
          assert rest[k] == vms[k + 1];
        }
        NoneNamed(rest, name);
      }
    }
  }

  lemma {:induction false} NoneNamed(vms: seq<VmResponse>, name: string)
    requires forall v :: v in vms ==> v.name != name
    ensures Named(vms, name) == []
  {
    if vms != [] {
      assert vms[0] in vms;
      forall v | v in vms[1..]
        ensures v in vms
      {
      }
      NoneNamed(vms[1..], name);
    }
  }

  /** Against a server whose names are unique, as the manager keeps them, resolving a name is never ambiguous. */
  lemma UniqueNamesNeverAmbiguous(target: string, lookup: Result<VmResponse, string>, vms: seq<VmResponse>)
    requires NamesDistinct(vms)
    ensures var r := Resolve(target, lookup, Ok(vms));
      r.Ok? || r == Err("VM '" + target + "' not found")
  {
    NamedAtMostOnce(vms, target);
  }

  // ---------------------------------------------------------------------
  // Delete confirmation and the console writer

  /** The delete prompt's answer (already trimmed) confirms when its lowercase form is "y". */
  predicate Confirmed(answer: string) {
    Text.LowerAscii(answer) == "y"
  }

  lemma ConfirmedIff(answer: string)
    ensures Confirmed(answer) <==> answer == "y" || answer == "Y"
  {
    if Confirmed(answer) {
      assert |answer| == 1;
    }
  }

  /** Ctrl+], the byte that detaches from the console. */
  const DETACH: Byte := 0x1d

  /**
   * The writer loop of `handle_connect` over the bytes read from the
   * terminal, one at a time: every byte up to the detach byte is
   * forwarded, the detach byte is not, and it ends the loop.
   */
  method ForwardUntilDetach(input: seq<Byte>) returns (sent: seq<Byte>, detached: bool)
    ensures detached <==> DETACH in input
    ensures DETACH !in sent
    ensures detached ==> |sent| < |input| && sent + [DETACH] == input[..|sent| + 1]
    ensures !detached ==> sent == input
  {
    sent := [];
    detached := false;
    var i := 0;
    while i < |input|
      invariant 0 <= i <= |input|
      invariant sent == input[..i]
      invariant DETACH !in sent
    {
      if input[i] == DETACH {
        detached := true;
        assert input[..i + 1] == sent + [DETACH];
        return;
      }
      sent := sent + [input[i]];
      i := i + 1;
    }
    assert input[..i] == input;
  }

  // ---------------------------------------------------------------------
  // The interactive create

  /** The raw lines typed at the prompts of `handle_create`. */
  datatype CreateAnswers = CreateAnswers(name: string, vcpus: string, memory: string,
                                         kernel: string, rootfs: string, kernelArgs: string)

  /**
   * The request `handle_create` sends, or None when the name is empty. Each
   * answer is trimmed; an unparsable vCPU count or memory size falls back to
   * 1 and 512, empty paths to the files under `{HOME}/.glidex` (HOME
   * falling back to "."), and empty kernel arguments to none.
   */
  function CreateRequestFrom(a: CreateAnswers, home: Option<string>): (r: Option<CreateVmRequest>)
    ensures r.None? <==> Text.Trim(a.name) == []
    ensures r.Some? ==> r.value.name == Text.Trim(a.name)
    ensures r.Some? && Text.ParseUnsigned(Text.Trim(a.vcpus), 0xFF).None? ==> r.value.vcpuCount == 1
    ensures r.Some? && Text.ParseUnsigned(Text.Trim(a.memory), 0xFFFF_FFFF).None? ==> r.value.memSizeMib == 512
    ensures r.Some? && Text.ParseUnsigned(Text.Trim(a.vcpus), 0xFF).Some? ==>
      r.value.vcpuCount == Text.ParseUnsigned(Text.Trim(a.vcpus), 0xFF).value
    ensures r.Some? && Text.ParseUnsigned(Text.Trim(a.memory), 0xFFFF_FFFF).Some? ==>
      r.value.memSizeMib == Text.ParseUnsigned(Text.Trim(a.memory), 0xFFFF_FFFF).value
    ensures r.Some? && Text.Trim(a.kernel) != [] ==> r.value.kernelImagePath == Text.Trim(a.kernel)
    ensures r.Some? && Text.Trim(a.kernel) == [] ==> r.value.kernelImagePath == home.GetOr(".") + "/.glidex/vmlinux.bin"
    ensures r.Some? && Text.Trim(a.rootfs) != [] ==> r.value.rootfsPath == Text.Trim(a.rootfs)
    ensures r.Some? && Text.Trim(a.rootfs) == [] ==> r.value.rootfsPath == home.GetOr(".") + "/.glidex/rootfs.ext4"
    ensures r.Some? ==> (r.value.kernelArgs.Some? <==> Text.Trim(a.kernelArgs) != [])
    ensures r.Some? && r.value.kernelArgs.Some? ==> r.value.kernelArgs.value == Text.Trim(a.kernelArgs)
  {
    var name := Text.Trim(a.name);
    if name == [] then None
    else
      var dir := home.GetOr(".");
      var vcpus := Text.ParseUnsigned(Text.Trim(a.vcpus), 0xFF).GetOr(1);
      var memory := Text.ParseUnsigned(Text.Trim(a.memory), 0xFFFF_FFFF).GetOr(512);
      var kernel := Text.Trim(a.kernel);
      var rootfs := Text.Trim(a.rootfs);
      var args := Text.Trim(a.kernelArgs);
      Some(CreateVmRequest(
        name, vcpus, memory,
        if kernel == [] then dir + "/.glidex/vmlinux.bin" else kernel,
        if rootfs == [] then dir + "/.glidex/rootfs.ext4" else rootfs,
        if args == [] then None else Some(args)))
  }

  /** Answers left blank give one vCPU, 512 MiB, the default kernel and root filesystem under HOME, and no kernel arguments. */
  lemma BlankAnswersGiveDefaults(name: string, home: Option<string>)
    requires Text.Trim(name) != []
    ensures var r := CreateRequestFrom(CreateAnswers(name, "", "", "", "", ""), home);
      var dir := home.GetOr(".");
      r == Some(CreateVmRequest(Text.Trim(name), 1, 512, dir + "/.glidex/vmlinux.bin",
                                dir + "/.glidex/rootfs.ext4", None))
  {
    assert Text.Trim("") == "";
  }

  /** Numbers typed in decimal are taken as given when they fit the field. */
  lemma TypedSizesAreKept(a: CreateAnswers, home: Option<string>, vcpus: U8, memory: U32)
    requires Text.Trim(a.name) != []
    requires Text.Trim(a.vcpus) == Text.NatToDecimal(vcpus) && Text.Trim(a.memory) == Text.NatToDecimal(memory)
    ensures CreateRequestFrom(a, home).value.vcpuCount == vcpus
    ensures CreateRequestFrom(a, home).value.memSizeMib == memory
  {
    Text.ParseUnsignedOfDecimal(vcpus, 0xFF);
    Text.ParseUnsignedOfDecimal(memory, 0xFFFF_FFFF);
  }

  /**
   * A size that is not a number of the field's width gets the default: one
   * written in decimal but too large for it, or one that starts with
   * neither a digit nor '+' (an empty answer included).
   */
  lemma UnparsableSizesGiveDefaults(a: CreateAnswers, home: Option<string>, n: nat, m: nat)
    requires Text.Trim(a.name) != []
    ensures Text.Trim(a.vcpus) == Text.NatToDecimal(n) && n > 0xFF ==> CreateRequestFrom(a, home).value.vcpuCount == 1
    ensures Text.Trim(a.memory) == Text.NatToDecimal(m) && m > 0xFFFF_FFFF ==> CreateRequestFrom(a, home).value.memSizeMib == 512
    ensures NotNumeric(Text.Trim(a.vcpus)) ==> CreateRequestFrom(a, home).value.vcpuCount == 1
    ensures NotNumeric(Text.Trim(a.memory)) ==> CreateRequestFrom(a, home).value.memSizeMib == 512
  {
    Text.ParseUnsignedOverflow(n, 0xFF);
    Text.ParseUnsignedOverflow(m, 0xFFFF_FFFF);
    if NotNumeric(Text.Trim(a.vcpus)) {
      Text.ParseUnsignedRejects(Text.Trim(a.vcpus), 0xFF);
    }
    if NotNumeric(Text.Trim(a.memory)) {
      Text.ParseUnsignedRejects(Text.Trim(a.memory), 0xFFFF_FFFF);
    }
  }

  /** Text that cannot begin an unsigned number: empty, or led by neither a digit nor '+'. */
  predicate NotNumeric(t: string) {
    t == [] || (t[0] != '+' && !Text.IsDigit(t[0]))
  }
}
