/**
 * The hypervisor control client (src/firecracker.rs): the HTTP/1.1
 * request text sent over the control socket, the response reader, the
 * success rule of every control call and the fixed order of the calls
 * that configure a machine.
 *
 * The socket is not modelled. What the hypervisor does with a request is
 * a parameter `hv` from the socket path and the request text to an
 * `Exchange`; the byte stream of an answer is a string, one character
 * per byte.
 */
module Firecracker {
  import opened Wrappers
  import opened Models
  import opened Text

  datatype FirecrackerError =
    | ProcessStart(detail: string)
    | SocketConnection(detail: string)
    | ApiRequest(detail: string)

  /** The `Display` text of a client error. */
  function ErrorText(e: FirecrackerError): string {
    match e
    case ProcessStart(d) => "Failed to start Firecracker process: " + d
    case SocketConnection(d) => "Failed to connect to Firecracker socket: " + d
    case ApiRequest(d) => "API request failed: " + d
  }

  /** The largest `usize` on a 64-bit host. */
  const USIZE_MAX: nat := 0xFFFF_FFFF_FFFF_FFFF

  // ---------------------------------------------------------------------
  // The request

  /** The request text `send_request` writes: fixed headers, the body's byte length, then the body. */
  function RequestText(verb: string, path: string, body: Option<string>): string {
    var b := body.GetOr("");
    RequestHead(verb, path, Utf8Len(b)) + b
  }

  /** The request line and the four fixed headers, Content-Length n among them, and the blank line. */
  function RequestHead(verb: string, path: string, n: nat): string {
    verb + " " + path + " HTTP/1.1\r\nHost: localhost\r\nContent-Type: application/json\r\n"
    + ContentLengthLine(n) + "Connection: close\r\n\r\n"
  }

  function ContentLengthLine(n: nat): string {
    "Content-Length: " + NatToDecimal(n) + "\r\n"
  }

  /**
   * The request ends with the body, its header block ends with a blank
   * line, and its Content-Length line, read back by the client's own
   * header rule, gives the body's length in bytes (a missing body is
   * the empty one).
   */
  lemma RequestFraming(verb: string, path: string, body: Option<string>)
    requires Utf8Len(body.GetOr("")) <= USIZE_MAX
    ensures var b := body.GetOr("");
      var head := RequestHead(verb, path, Utf8Len(b));
      && RequestText(verb, path, body) == head + b
      && head[|head| - 4..] == "\r\n\r\n"
      && ContentLengthOf(ContentLengthLine(Utf8Len(b))) == Some(Utf8Len(b))
  {
    var n := Utf8Len(body.GetOr(""));
    var x := verb + " " + path + " HTTP/1.1\r\nHost: localhost\r\nContent-Type: application/json\r\n"
             + ContentLengthLine(n);
    var y := "Connection: close\r\n\r\n";
    assert RequestHead(verb, path, n) == x + y;
    assert (x + y)[|x + y| - 4..] == y[|y| - 4..];
    ContentLengthLineReadsBack(n);
  }

  // ---------------------------------------------------------------------
  // Reading the response headers

  /** The position just after the line that starts at pos: past its '\n', or the end of the stream. */
  function LineEnd(s: string, pos: nat): (e: nat)
    requires pos <= |s|
    ensures pos <= e <= |s|
    ensures e == pos <==> pos == |s|
    ensures e < |s| || e == pos || s[e - 1] == '\n' || forall k :: pos <= k < |s| ==> s[k] != '\n'
    ensures forall k :: pos <= k < e - 1 ==> s[k] != '\n'
    decreases |s| - pos
  {
    if pos == |s| then pos
    else if s[pos] == '\n' then pos + 1
    else LineEnd(s, pos + 1)
  }

  lemma {:induction false} LineEndAt(s: string, pos: nat, e: nat)
    requires pos < e <= |s| && s[e - 1] == '\n'
    requires forall k :: pos <= k < e - 1 ==> s[k] != '\n'
    ensures LineEnd(s, pos) == e
    decreases e - pos
  {
    if s[pos] != '\n' {
      LineEndAt(s, pos + 1, e);
    }
  }

  /** The line that ends the header block. */
  predicate IsBlankLine(line: string) {
    line == "\r\n" || line == "\n"
  }

  /**
   * The Content-Length a header line sets, or None when the line is not
   * a Content-Length header: the name is matched without regard to
   * case, the value is the trimmed text after the first ':', and a
   * value that is not a `usize` counts as 0.
   */
  function ContentLengthOf(line: string): (r: Option<nat>)
    ensures r.Some? <==> StartsWith(LowerAscii(line), "content-length:")
    ensures r.Some? ==> r.value <= USIZE_MAX
    ensures r.Some? ==> SecondField(line, ':').Some?
    ensures r.Some? && ParseUnsigned(Trim(SecondField(line, ':').value), USIZE_MAX).Some? ==>
      r == ParseUnsigned(Trim(SecondField(line, ':').value), USIZE_MAX)
    ensures r.Some? && ParseUnsigned(Trim(SecondField(line, ':').value), USIZE_MAX).None? ==> r == Some(0)
  {
    if StartsWith(LowerAscii(line), "content-length:") then
      HeaderNameEndsInColon(line);
      var v := SecondField(line, ':').value;
      Some(ParseUnsigned(Trim(v), USIZE_MAX).GetOr(0))
    else None
  }

  /** A line whose lowered text starts with "content-length:" has its colon at position 14. */
  lemma HeaderNameEndsInColon(line: string)
    requires StartsWith(LowerAscii(line), "content-length:")
    ensures |line| > 14 && line[14] == ':'
  {
    assert LowerAscii(line)[14] == "content-length:"[14];
  }

  /** A status line is never taken for a Content-Length header. */
  lemma StatusLineNotContentLength(line: string)
    requires StartsWith(line, "HTTP/")
    ensures ContentLengthOf(line) == None
  {
    var low := LowerAscii(line);
    assert low[0] == 'h';
    if |low| >= 15 {
      assert low[..15][0] != "content-length:"[0];
    }
  }

  lemma TrimPadded(d: string)
    requires d != [] && AllDigits(d)
    ensures Trim(" " + d + "\r\n") == d
  {
    assert " " + d + "\r\n" == " " + (d + "\r\n");
    TrimStartAfterSpace(d + "\r\n");
    TrimEndBeforeCrlf(d);
  }

  /** A header line the client writes reads back as the number it carries. */
  lemma ContentLengthLineReadsBack(n: nat)
    requires n <= USIZE_MAX
    ensures ContentLengthOf(ContentLengthLine(n)) == Some(n)
  {
    var d := NatToDecimal(n);
    var line := ContentLengthLine(n);
    var low := LowerAscii(line);
    assert low[..15] == "content-length:";
    var rest := " " + d + "\r\n";
    assert line == "Content-Length" + [':'] + rest;
    assert forall k :: 0 <= k < |rest| ==> rest[k] != ':' by {
      assert forall k :: 0 <= k < |d| ==> rest[k + 1] == d[k];
    }
    SecondFieldOfPair("Content-Length", rest, ':');
    TrimPadded(d);
    ParseUnsignedOfDecimal(n, USIZE_MAX);
  }

  /**
   * The header loop: from pos, read line after line, let every line that
   * `header` reads as a Content-Length overwrite cl, and stop after the
   * first blank line, or at the end of the stream. Returns where the
   * headers end and the Content-Length in force there. The client reads
   * lines with ContentLengthOf; the lemmas below hold for any reader.
   */
  function ScanHeaders(s: string, pos: nat, cl: nat, header: string -> Option<nat>): (r: (nat, nat))
    requires pos <= |s|
    ensures pos <= r.0 <= |s|
    decreases |s| - pos
  {
    var e := LineEnd(s, pos);
    var line := s[pos..e];
    var cl' := header(line).GetOr(cl);
    if IsBlankLine(line) || line == "" then (e, cl') else ScanHeaders(s, e, cl', header)
  }

  /** Without a Content-Length in force when the headers end, no body is read: the response is the header text. */
  lemma NoLengthNoBody(s: string)
    ensures var (end, cl) := ScanHeaders(s, 0, 0, ContentLengthOf);
      cl == 0 ==> ResponseOf(s) == Ok(s[..end])
  {
  }

  /**
   * What `send_request` returns for the bytes the hypervisor sends back:
   * the header lines, then exactly Content-Length body bytes, or the
   * `read_exact` failure when the stream ends first. A Content-Length
   * of 0 reads no body at all.
   */
  function ResponseOf(s: string): Result<string, FirecrackerError> {
    var (end, cl) := ScanHeaders(s, 0, 0, ContentLengthOf);
    if cl == 0 then Ok(s[..end])
    else if end + cl <= |s| then Ok(s[..end + cl])
    else Err(ProcessStart("failed to fill whole buffer"))
  }

  /** A response is the stream up to some point, never more than was sent and never altered. */
  lemma ResponseIsPrefix(s: string)
    ensures ResponseOf(s).Ok? ==> ResponseOf(s).value == s[..|ResponseOf(s).value|]
  {
  }

  /** The reply shape the hypervisor sends: a status line, a Content-Length header, a blank line, the body. */
  function ReplyText(status: string, body: string): string {
    status + "\r\n" + ContentLengthLine(|body|) + "\r\n" + body
  }

  lemma ContentLengthLineIsOneLine(n: nat)
    ensures var b := ContentLengthLine(n);
      && b != [] && b[|b| - 1] == '\n' && !IsBlankLine(b)
      && forall k :: 0 <= k < |b| - 1 ==> b[k] != '\n'
  {
    var b := ContentLengthLine(n);
    var d := NatToDecimal(n);
    assert forall k :: 0 <= k < |d| ==> b[16 + k] == d[k];
  }

  lemma StatusLineIsOneLine(status: string)
    requires StartsWith(status, "HTTP/")
    requires forall k :: 0 <= k < |status| ==> status[k] != '\n'
    ensures var a := status + "\r\n";
      && a != [] && a[|a| - 1] == '\n' && !IsBlankLine(a)
      && (forall k :: 0 <= k < |a| - 1 ==> a[k] != '\n')
      && ContentLengthOf(a) == None
  {
    var a := status + "\r\n";
    assert a[..|status|] == status;
    assert a[..5] == "HTTP/";
    StatusLineNotContentLength(a);
  }

  /** Reading past one header line that is not blank. */
  lemma ScanPastLine(s: string, pos: nat, line: string, cl: nat, header: string -> Option<nat>)
    requires pos + |line| <= |s| && s[pos..pos + |line|] == line
    requires line != [] && line[|line| - 1] == '\n' && !IsBlankLine(line)
    requires forall k :: 0 <= k < |line| - 1 ==> line[k] != '\n'
    ensures ScanHeaders(s, pos, cl, header) == ScanHeaders(s, pos + |line|, header(line).GetOr(cl), header)
  {
    forall k | pos <= k < pos + |line| - 1
      ensures s[k] != '\n'
    {
      assert s[k] == line[k - pos];
    }
    assert s[pos + |line| - 1] == line[|line| - 1];
    LineEndAt(s, pos, pos + |line|);
  }

  /** Reading a blank line that sets no Content-Length ends the header block. */
  lemma ScanBlankLine(s: string, pos: nat, cl: nat, header: string -> Option<nat>)
    requires pos + 2 <= |s| && s[pos] == '\r' && s[pos + 1] == '\n'
    requires header("\r\n") == None
    ensures ScanHeaders(s, pos, cl, header) == (pos + 2, cl)
  {
    LineEndAt(s, pos, pos + 2);
    assert s[pos..pos + 2] == "\r\n";
  }

  /**
   * A well-framed reply is read exactly: the client stops after the body
   * and ignores whatever follows it.
   */
  lemma {:induction false} WellFramedReplyRead(status: string, body: string, rest: string)
    requires StartsWith(status, "HTTP/")
    requires forall k :: 0 <= k < |status| ==> status[k] != '\n'
    requires |body| <= USIZE_MAX
    ensures ResponseOf(ReplyText(status, body) + rest) == Ok(ReplyText(status, body))
  {
    var a := status + "\r\n";
    var b := ContentLengthLine(|body|);
    var tail := "\r\n" + body + rest;
    var s := a + b + tail;
    assert s == ReplyText(status, body) + rest;
    StatusLineIsOneLine(status);
    ContentLengthLineIsOneLine(|body|);
    ContentLengthLineReadsBack(|body|);
    assert ContentLengthOf("\r\n") == None;
    ScanTwoLinesThenBlank(s, a, b, tail, |body|, ContentLengthOf);
    assert s[..|a| + |b| + 2 + |body|] == ReplyText(status, body);
  }

  /** Two header lines, the second setting Content-Length n, then the blank line. */
  lemma {:induction false} ScanTwoLinesThenBlank(s: string, a: string, b: string, tail: string, n: nat,
                                                 header: string -> Option<nat>)
    requires s == a + b + tail
    requires a != [] && a[|a| - 1] == '\n' && !IsBlankLine(a) && header(a) == None
    requires forall k :: 0 <= k < |a| - 1 ==> a[k] != '\n'
    requires b != [] && b[|b| - 1] == '\n' && !IsBlankLine(b) && header(b) == Some(n)
    requires forall k :: 0 <= k < |b| - 1 ==> b[k] != '\n'
    requires |tail| >= 2 && tail[0] == '\r' && tail[1] == '\n' && header("\r\n") == None
    ensures ScanHeaders(s, 0, 0, header) == (|a| + |b| + 2, n)
  {
    assert s[0..|a|] == a;
    ScanPastLine(s, 0, a, 0, header);
    assert s[|a|..|a| + |b|] == b;
    ScanPastLine(s, |a|, b, 0, header);
    var e := |a| + |b|;
    assert s[e] == tail[0] && s[e + 1] == tail[1];
    ScanBlankLine(s, e, n, header);
  }

  /** One line of the header scan: a blank or empty line ends it, any other line hands on to the next. */
  lemma ScanOneLine(s: string, pos: nat, cl: nat, header: string -> Option<nat>)
    requires pos <= |s|
    ensures var e := LineEnd(s, pos);
      var line := s[pos..e];
      ScanHeaders(s, pos, cl, header) ==
        if IsBlankLine(line) || line == "" then (e, header(line).GetOr(cl))
        else ScanHeaders(s, e, header(line).GetOr(cl), header)
  {
  }

  /**
   * `send_request`'s header loop, reading the answer line by line and
   * keeping the length the last matching header gave. Unlike the source
   * it also stops when `read_line` reports the end of the stream (see
   * HeaderStepAsWritten).
   */
  method ReadHeaders(s: string, header: string -> Option<nat>) returns (response: string, pos: nat, contentLength: nat)
    ensures pos <= |s| && response == s[..pos]
    ensures (pos, contentLength) == ScanHeaders(s, 0, 0, header)
  {
    response := "";
    pos := 0;
    contentLength := 0;
    while true
      invariant pos <= |s| && response == s[..pos]
      invariant ScanHeaders(s, pos, contentLength, header) == ScanHeaders(s, 0, 0, header)
      decreases |s| - pos
    {
      ScanOneLine(s, pos, contentLength, header);
      var e := LineEnd(s, pos);
      var line := s[pos..e];
      assert s[..e] == s[..pos] + line;
      response := response + line;
      pos := e;
      contentLength := header(line).GetOr(contentLength);
      if IsBlankLine(line) || line == "" {
        return;
      }
    }
  }

  /** `send_request` after the request is written: the headers, then exactly Content-Length body bytes. */
  method ReadResponse(s: string) returns (r: Result<string, FirecrackerError>)
    ensures r == ResponseOf(s)
  {
    var response, pos, contentLength := ReadHeaders(s, ContentLengthOf);
    if contentLength > 0 {
      if pos + contentLength > |s| {
        return Err(ProcessStart("failed to fill whole buffer"));
      }
      assert s[..pos + contentLength] == s[..pos] + s[pos..pos + contentLength];
      response := response + s[pos..pos + contentLength];
    }
    return Ok(response);
  }

  /** The state of the header loop as the source writes it. */
  datatype HeaderLoop = HeaderLoop(pos: nat, response: string, contentLength: nat, done: bool)

  /**
   * One pass of the source's header loop: `read_line` gives "" at the end
   * of the stream, and the loop leaves only on a line equal to "\r\n" or
   * "\n".
   */
  function HeaderStepAsWritten(s: string, st: HeaderLoop): (st': HeaderLoop)
    requires st.pos <= |s|
    ensures st'.pos <= |s|
  {
    var e := LineEnd(s, st.pos);
    var line := s[st.pos..e];
    HeaderLoop(e, st.response + line, ContentLengthOf(line).GetOr(st.contentLength), IsBlankLine(line))
  }

  /** The loop after at most k passes, stopping early when it breaks out. */
  function RunAsWritten(s: string, st: HeaderLoop, k: nat): (st': HeaderLoop)
    requires st.pos <= |s|
    ensures st'.pos <= |s|
    decreases k
  {
    if k == 0 || st.done then st else RunAsWritten(s, HeaderStepAsWritten(s, st), k - 1)
  }

  /** At the end of the stream a pass changes nothing, so the loop can only leave earlier. */
  lemma AsWrittenStuckAtEnd(s: string, st: HeaderLoop)
    requires st.pos == |s| && !st.done
    ensures HeaderStepAsWritten(s, st) == st
  {
    assert s[st.pos..st.pos] == "";
  }

  lemma {:induction false} AsWrittenNeverLeaves(s: string, st: HeaderLoop, k: nat)
    requires st.pos == |s| && !st.done
    ensures RunAsWritten(s, st, k) == st
  {
    if k > 0 {
      AsWrittenStuckAtEnd(s, st);
      AsWrittenNeverLeaves(s, st, k - 1);
    }
  }

  /**
   * A hypervisor that closes the connection after its status line, before
   * sending the blank line, keeps the source's header loop running for
   * ever, while the corrected reader returns what it received.
   */
  lemma HeaderLoopSpinsAtEof(status: string, k: nat)
    requires StartsWith(status, "HTTP/")
    requires forall i :: 0 <= i < |status| ==> status[i] != '\n'
    ensures !RunAsWritten(status + "\r\n", HeaderLoop(0, "", 0, false), k).done
    ensures ResponseOf(status + "\r\n") == Ok(status + "\r\n")
  {
    var s := status + "\r\n";
    assert s[..|status|] == status;
    LineEndAt(s, 0, |s|);
    assert s[0..|s|] == s;
    StatusLineNotContentLength(s);
    var st1 := HeaderStepAsWritten(s, HeaderLoop(0, "", 0, false));
    assert st1 == HeaderLoop(|s|, s, 0, false);
    if k > 0 {
      AsWrittenNeverLeaves(s, st1, k - 1);
    }
    assert s[|s|..|s|] == "";
    assert ScanHeaders(s, |s|, 0, ContentLengthOf) == (|s|, 0);
    assert s[..|s|] == s;
  }

  /** The input that shows it: the status line of an ordinary success reply. */
  lemma HeaderLoopEofCounterexample(k: nat)
    ensures !RunAsWritten("HTTP/1.1 200 OK\r\n", HeaderLoop(0, "", 0, false), k).done
  {
    var status := "HTTP/1.1 200 OK";
    assert status[..5] == "HTTP/";
    assert forall i :: 0 <= i < |status| ==> status[i] != '\n';
    assert status + "\r\n" == "HTTP/1.1 200 OK\r\n";
    HeaderLoopSpinsAtEof(status, k);
  }

  // ---------------------------------------------------------------------
  // Control calls

  /** What the hypervisor does with one request. */
  datatype Exchange =
    | Refused(reason: string)        // the control socket cannot be connected to
    | Broken(reason: string)         // an I/O error while writing or reading
    | Answered(stream: string)       // the bytes sent back

  type Hypervisor = (string, string) -> Exchange

  /** `send_request`: connection failures and I/O errors become the two error kinds the source maps them to. */
  function Send(hv: Hypervisor, socketPath: string, verb: string, path: string, body: Option<string>): Result<string, FirecrackerError> {
    match hv(socketPath, RequestText(verb, path, body))
    case Refused(reason) => Err(SocketConnection(reason))
    case Broken(reason) => Err(ProcessStart(reason))
    case Answered(stream) => ResponseOf(stream)
  }

  /** The success rule of every control call: the status text appears anywhere in the response. */
  predicate Accepted(response: string) {
    Contains(response, "HTTP/1.1 204") || Contains(response, "HTTP/1.1 200")
  }

  /** The control calls the manager makes. */
  datatype Call =
    | MachineConfig(vcpuCount: U8, memSizeMib: U32)
    | BootSource(kernelImagePath: string, bootArgs: string)
    | RootDrive(rootfsPath: string)
    | InstanceStart
    | PauseInstance
    | ResumeInstance

  function CallMethod(c: Call): string {
    if c.PauseInstance? || c.ResumeInstance? then "PATCH" else "PUT"
  }

  function CallPath(c: Call): string {
    match c
    case MachineConfig(_, _) => "/machine-config"
    case BootSource(_, _) => "/boot-source"
    case RootDrive(_) => "/drives/rootfs"
    case InstanceStart => "/actions"
    case PauseInstance => "/vm"
    case ResumeInstance => "/vm"
  }

  /** The JSON body of a call, as `serde_json::to_string` writes it (pause and resume are literals). */
  function CallBody(c: Call): string {
    match c
    case MachineConfig(v, m) =>
      "{\"vcpu_count\":" + NatToDecimal(v) + ",\"mem_size_mib\":" + NatToDecimal(m) + "}"
    case BootSource(k, a) =>
      "{\"kernel_image_path\":" + JsonString(k) + ",\"boot_args\":" + JsonString(a) + "}"
    case RootDrive(p) =>
      "{\"drive_id\":\"rootfs\",\"path_on_host\":" + JsonString(p)
      + ",\"is_root_device\":true,\"is_read_only\":false}"
    case InstanceStart => "{\"action_type\":\"InstanceStart\"}"
    case PauseInstance => "{\"state\": \"Paused\"}"
    case ResumeInstance => "{\"state\": \"Resumed\"}"
  }

  function FailurePrefix(c: Call): string {
    match c
    case MachineConfig(_, _) => "Failed to configure machine: "
    case BootSource(_, _) => "Failed to set boot source: "
    case RootDrive(_) => "Failed to add root drive: "
    case InstanceStart => "Failed to start instance: "
    case PauseInstance => "Failed to pause instance: "
    case ResumeInstance => "Failed to resume instance: "
  }

  /**
   * One control call: send it, then accept the response only when it
   * holds one of the two success status texts; otherwise report it in
   * an `ApiRequest` error.
   */
  function Invoke(hv: Hypervisor, socketPath: string, c: Call): Result<(), FirecrackerError> {
    match Send(hv, socketPath, CallMethod(c), CallPath(c), Some(CallBody(c)))
    case Err(e) => Err(e)
    case Ok(response) =>
      if Accepted(response) then Ok(()) else Err(ApiRequest(FailurePrefix(c) + response))
  }

  /**
   * A call succeeds exactly when its exchange gives a response holding a
   * success status text; a failed exchange passes its error through, and
   * any other response is reported with the call's own message.
   */
  lemma InvokeOutcome(hv: Hypervisor, socketPath: string, c: Call)
    ensures var sent := Send(hv, socketPath, CallMethod(c), CallPath(c), Some(CallBody(c)));
      && (Invoke(hv, socketPath, c).Ok? <==> sent.Ok? && Accepted(sent.value))
      && (sent.Err? ==> Invoke(hv, socketPath, c) == Err(sent.error))
      && (sent.Ok? && !Accepted(sent.value) ==>
            Invoke(hv, socketPath, c) == Err(ApiRequest(FailurePrefix(c) + sent.value)))
  {
  }

  /**
   * The success test looks at the whole response, body included: an
   * error reply whose body quotes a success status line passes.
   */
  lemma SuccessTextInBodyAccepted(body: string)
    ensures Accepted("HTTP/1.1 400 Bad Request\r\n\r\n" + body + "HTTP/1.1 200")
  {
    var s := "HTTP/1.1 400 Bad Request\r\n\r\n" + body + "HTTP/1.1 200";
    var i := |s| - 12;
    assert s[i..i + 12] == "HTTP/1.1 200";
    assert MatchesAt(s, "HTTP/1.1 200", i);
  }

  /** A reply whose status line is 204 or 200 passes. */
  lemma SuccessStatusAccepted(status: string, body: string)
    requires StartsWith(status, "HTTP/1.1 204") || StartsWith(status, "HTTP/1.1 200")
    ensures Accepted(ReplyText(status, body))
  {
    var s := ReplyText(status, body);
    assert s[..|status|] == status;
    assert s[..12] == status[..12];
    if StartsWith(status, "HTTP/1.1 204") {
      StartsWithContains(s, "HTTP/1.1 204");
    } else {
      StartsWithContains(s, "HTTP/1.1 200");
    }
  }

  /**
   * Send calls in order and stop at the first that fails; outcome gives
   * the result each call has. Returns the calls sent and the result.
   */
  function RunCalls(outcome: Call -> Result<(), FirecrackerError>, calls: seq<Call>): (r: (seq<Call>, Result<(), FirecrackerError>))
    ensures |r.0| <= |calls| && r.0 == calls[..|r.0|]
    ensures r.1.Err? ==> r.0 != [] && r.1 == outcome(r.0[|r.0| - 1])
  {
    if calls == [] then ([], Ok(()))
    else
      var first := outcome(calls[0]);
      if first.Err? then ([calls[0]], first)
      else
        var (sent, res) := RunCalls(outcome, calls[1..]);
        ([calls[0]] + sent, res)
  }

  /** The run succeeds exactly when every call succeeds, and then all of them were sent. */
  lemma {:induction false} RunCallsOkIff(outcome: Call -> Result<(), FirecrackerError>, calls: seq<Call>)
    ensures RunCalls(outcome, calls).1.Ok? <==> forall i :: 0 <= i < |calls| ==> outcome(calls[i]).Ok?
    ensures RunCalls(outcome, calls).1.Ok? ==> RunCalls(outcome, calls).0 == calls
  {
    if calls != [] && outcome(calls[0]).Ok? {
      RunCallsOkIff(outcome, calls[1..]);
      assert forall i :: 1 <= i < |calls| ==> calls[i] == calls[1..][i - 1];
      assert [calls[0]] + calls[1..] == calls;
    }
  }

  /** Every call but the last succeeded. */
  predicate OkBeforeLast(outcome: Call -> Result<(), FirecrackerError>, sent: seq<Call>) {
    forall i :: 0 <= i < |sent| - 1 ==> outcome(sent[i]).Ok?
  }

  /** Every call sent before the last one succeeded. */
  lemma {:induction false} RunCallsSentBeforeOk(outcome: Call -> Result<(), FirecrackerError>, calls: seq<Call>)
    ensures OkBeforeLast(outcome, RunCalls(outcome, calls).0)
  {
    if calls != [] && outcome(calls[0]).Ok? {
      RunCallsSentBeforeOk(outcome, calls[1..]);
      var rest := RunCalls(outcome, calls[1..]).0;
      assert OkBeforeLast(outcome, rest);
      var sent := [calls[0]] + rest;
      assert RunCalls(outcome, calls).0 == sent;
      forall i | 0 <= i < |sent| - 1
        ensures outcome(sent[i]).Ok?
      {
        if i > 0 {
          assert sent[i] == rest[i - 1];
        }
      }
    }
  }

  /** The result each control call has on each control socket. */
  type Control = (string, Call) -> Result<(), FirecrackerError>

  /** The calls of the client, made through the hypervisor. */
  function Calls(hv: Hypervisor): Control {
    (socketPath, c) => Invoke(hv, socketPath, c)
  }

  /** `configure_vm`: machine size, then kernel and command line, then the root drive. */
  function ConfigureCalls(c: VmConfig): seq<Call> {
    [MachineConfig(c.vcpuCount, c.memSizeMib), BootSource(c.kernelImagePath, c.kernelArgs), RootDrive(c.rootfsPath)]
  }

  /** What configuring a machine sends to its control socket, and with which result. */
  function ConfigureVm(control: Control, vm: Vm): (seq<Call>, Result<(), FirecrackerError>) {
    RunCalls(c => control(vm.socketPath, c), ConfigureCalls(vm.config))
  }

  /**
   * The three calls go out in their fixed order: the boot source is never
   * sent when the machine configuration was refused, nor the drive when
   * the boot source was; configuration succeeds exactly when all three
   * calls do.
   */
  lemma ConfigureStopsAtFirstFailure(control: Control, vm: Vm)
    ensures var cs := ConfigureCalls(vm.config);
      var (sent, res) := ConfigureVm(control, vm);
      var ok := c => control(vm.socketPath, c);
      && sent == cs[..|sent|]
      && (ok(cs[0]).Err? ==> sent == [cs[0]] && res == ok(cs[0]))
      && (ok(cs[0]).Ok? && ok(cs[1]).Err? ==> sent == [cs[0], cs[1]] && res == ok(cs[1]))
      && (res.Ok? <==> sent == cs && ok(cs[0]).Ok? && ok(cs[1]).Ok? && ok(cs[2]).Ok?)
  {
    var cs := ConfigureCalls(vm.config);
    var ok := c => control(vm.socketPath, c);
    assert cs[1..][0] == cs[1];
    assert cs[1..][1..][0] == cs[2];
    RunCallsOkIff(ok, cs);
  }

  function StartInstanceVm(control: Control, vm: Vm): Result<(), FirecrackerError> {
    control(vm.socketPath, InstanceStart)
  }

  function PauseVm(control: Control, vm: Vm): Result<(), FirecrackerError> {
    control(vm.socketPath, PauseInstance)
  }

  function ResumeVm(control: Control, vm: Vm): Result<(), FirecrackerError> {
    control(vm.socketPath, ResumeInstance)
  }

  /** The handle of a spawned hypervisor: the files it owns. */
  datatype Process = Process(socketPath: string, consoleSocketPath: string, logPath: string)

  /** `FirecrackerProcess::spawn` for a VM's paths. */
  function ProcessFor(vm: Vm): Process {
    Process(vm.socketPath, vm.consoleSocketPath, vm.logPath)
  }

  // ---------------------------------------------------------------------
  // JSON string bodies

  function HexDigit(d: nat): (c: char)
    requires d < 16
  {
    if d < 10 then ('0' as int + d) as char else ('a' as int + d - 10) as char
  }

  function HexValue(c: char): Option<nat> {
    if '0' <= c <= '9' then Some(c as int - '0' as int)
    else if 'a' <= c <= 'f' then Some(c as int - 'a' as int + 10)
    else if 'A' <= c <= 'F' then Some(c as int - 'A' as int + 10)
    else None
  }

  /** How `serde_json` writes one character inside a string literal. */
  function EscapeChar(c: char): string {
    if c == '"' then "\\\""
    else if c == '\\' then "\\\\"
    else if c == '\U{8}' then "\\b"
    else if c == '\U{C}' then "\\f"
    else if c == '\n' then "\\n"
    else if c == '\r' then "\\r"
    else if c == '\t' then "\\t"
    else if (c as int) < 0x20 then "\\u00" + [HexDigit(c as int / 16), HexDigit(c as int % 16)]
    else [c]
  }

  function Escape(s: string): string {
    if s == [] then "" else EscapeChar(s[0]) + Escape(s[1..])
  }

  /** A string value in the JSON text. */
  function JsonString(s: string): string {
    "\"" + Escape(s) + "\""
  }

  /** Reading the inside of a JSON string literal back, as the hypervisor does. */
  function Unescape(t: string): Option<string>
    decreases |t|
  {
    if t == [] then Some("")
    else if t[0] == '"' then None
    else if t[0] != '\\' then
      match Unescape(t[1..])
      case Some(rest) => Some([t[0]] + rest)
      case None => None
    else if |t| < 2 then None
    else
      var e := t[1];
      if e == 'u' then
        if |t| < 6 || t[2] != '0' || t[3] != '0' || HexValue(t[4]).None? || HexValue(t[5]).None? then None
        else
          match Unescape(t[6..])
          case Some(rest) => Some([(HexValue(t[4]).value * 16 + HexValue(t[5]).value) as char] + rest)
          case None => None
      else
        var c := if e == '"' then Some('"') else if e == '\\' then Some('\\') else if e == '/' then Some('/')
                 else if e == 'b' then Some('\U{8}') else if e == 'f' then Some('\U{C}')
                 else if e == 'n' then Some('\n') else if e == 'r' then Some('\r')
                 else if e == 't' then Some('\t') else None;
        match c
        case None => None
        case Some(ch) =>
          match Unescape(t[2..])
          case Some(rest) => Some([ch] + rest)
          case None => None
  }

  lemma UnescapeOne(c: char, rest: string)
    ensures Unescape(EscapeChar(c) + rest) ==
      match Unescape(rest) case Some(r) => Some([c] + r) case None => None
  {
    var t := EscapeChar(c) + rest;
    if (c as int) < 0x20 && c != '\U{8}' && c != '\U{C}' && c != '\n' && c != '\r' && c != '\t' {
      var hi := c as int / 16;
      var lo := c as int % 16;
      assert t[6..] == rest;
      assert HexValue(HexDigit(hi)) == Some(hi);
      assert HexValue(HexDigit(lo)) == Some(lo);
      assert (hi * 16 + lo) as char == c;
    } else if c == '"' || c == '\\' || c == '\U{8}' || c == '\U{C}' || c == '\n' || c == '\r' || c == '\t' {
      assert t[2..] == rest;
    } else {
      assert t[1..] == rest;
    }
  }

  /** Whatever a path or command line holds, the hypervisor reads back exactly that string. */
  lemma {:induction false} EscapeRoundTrip(s: string)
    ensures Unescape(Escape(s)) == Some(s)
  {
    if s != [] {
      EscapeRoundTrip(s[1..]);
      UnescapeOne(s[0], Escape(s[1..]));
      assert [s[0]] + s[1..] == s;
    }
  }
}
