/**
 * One pass of the console broadcast loop (`console_proxy_loop` in
 * src/firecracker.rs): accept a client and replay the log to it, then
 * read a chunk from the guest's terminal, append it to the log and hand
 * it to every client, dropping those whose write failed. Sockets, the
 * terminal and the log file are replaced by the byte sequences they carry.
 */
module Console {

  type Byte = bv8

  /** A connected console client and every byte the proxy has delivered to it. */
  datatype Client = Client(id: nat, received: seq<Byte>)

  /**
   * The outcome of one read of the terminal: some bytes (none at all means
   * the terminal was closed), nothing ready yet, or an error.
   */
  datatype TerminalRead =
    | Bytes(data: seq<Byte>)
    | WouldBlock
    | Failed

  predicate IsSuffix(x: seq<Byte>, y: seq<Byte>) {
    |x| <= |y| && x == y[|y| - |x|..]
  }

  /** The client as it is after `data` was written to it. */
  function Delivered(c: Client, data: seq<Byte>): Client {
    c.(received := c.received + data)
  }

  /**
   * `clients.retain_mut(|client| client.write_all(data).is_ok())`: the
   * clients whose write succeeds, in their order, each having received
   * the chunk. `writeOk` says, per client id, whether its write succeeds.
   */
  function Broadcast(cs: seq<Client>, data: seq<Byte>, writeOk: nat -> bool): seq<Client>
    decreases |cs|
  {
    if cs == [] then []
    else
      var last := cs[|cs| - 1];
      Broadcast(cs[..|cs| - 1], data, writeOk) + (if writeOk(last.id) then [Delivered(last, data)] else [])
  }

  /** The positions, in increasing order, of the clients a broadcast keeps. */
  function KeptPositions(cs: seq<Client>, writeOk: nat -> bool): (ks: seq<nat>)
    ensures forall k :: 0 <= k < |ks| ==> ks[k] < |cs|
    ensures forall k, l :: 0 <= k < l < |ks| ==> ks[k] < ks[l]
    decreases |cs|
  {
    if cs == [] then []
    else
      KeptPositions(cs[..|cs| - 1], writeOk) + (if writeOk(cs[|cs| - 1].id) then [|cs| - 1] else [])
  }

  /** A position is kept exactly when that client's write succeeds. */
  lemma {:induction false} KeptExactlyWhenWritten(cs: seq<Client>, writeOk: nat -> bool)
    ensures forall i :: 0 <= i < |cs| ==> (writeOk(cs[i].id) <==> i in KeptPositions(cs, writeOk))
    decreases |cs|
  {
    if cs != [] {
      var init := cs[..|cs| - 1];
      KeptExactlyWhenWritten(init, writeOk);
      var ks0 := KeptPositions(init, writeOk);
      var ks := KeptPositions(cs, writeOk);
      forall i | 0 <= i < |cs|
        ensures writeOk(cs[i].id) <==> i in ks
      {
        if i < |cs| - 1 {
          assert cs[i] == init[i];
          assert i in ks0 <==> i in ks;
        }
      }
    }
  }

  /**
   * The broadcast is the ordered subsequence of the clients whose write
   * succeeds: its k-th client is the client at the k-th kept position
   * with the chunk appended (the positions increase, see KeptPositions,
   * and are exactly those whose write succeeds, see KeptExactlyWhenWritten).
   */
  lemma {:induction false} BroadcastIsOrderedSubsequence(cs: seq<Client>, data: seq<Byte>, writeOk: nat -> bool)
    ensures |Broadcast(cs, data, writeOk)| == |KeptPositions(cs, writeOk)|
    ensures forall k :: 0 <= k < |KeptPositions(cs, writeOk)| ==>
      Broadcast(cs, data, writeOk)[k] == Delivered(cs[KeptPositions(cs, writeOk)[k]], data)
    decreases |cs|
  {
    if cs != [] {
      var init := cs[..|cs| - 1];
      BroadcastIsOrderedSubsequence(init, data, writeOk);
      var ks0 := KeptPositions(init, writeOk);
      var ks := KeptPositions(cs, writeOk);
      var out0 := Broadcast(init, data, writeOk);
      var out := Broadcast(cs, data, writeOk);
      forall k | 0 <= k < |ks0|
        ensures out[k] == Delivered(cs[ks[k]], data)
      {
        assert out[k] == out0[k];
        assert ks[k] == ks0[k];
        assert cs[ks0[k]] == init[ks0[k]];
      }
    }
  }

  /** A client that stays connected has received the chunk; one that is dropped is gone. */
  lemma BroadcastMembership(cs: seq<Client>, data: seq<Byte>, writeOk: nat -> bool, i: nat)
    requires i < |cs|
    requires forall j :: 0 <= j < |cs| && j != i ==> cs[j].id != cs[i].id
    ensures writeOk(cs[i].id) ==> Delivered(cs[i], data) in Broadcast(cs, data, writeOk)
    ensures !writeOk(cs[i].id) ==> forall c :: c in Broadcast(cs, data, writeOk) ==> c.id != cs[i].id
  {
    BroadcastIsOrderedSubsequence(cs, data, writeOk);
    KeptExactlyWhenWritten(cs, writeOk);
    var ks := KeptPositions(cs, writeOk);
    var out := Broadcast(cs, data, writeOk);
    if writeOk(cs[i].id) {
      var k :| 0 <= k < |ks| && ks[k] == i;
      assert out[k] == Delivered(cs[i], data);
    } else {
      forall c | c in out
        ensures c.id != cs[i].id
      {
        var k :| 0 <= k < |out| && out[k] == c;
        assert ks[k] != i;
      }
    }
  }

  /**
   * The bytes of a client that connected when the log was j bytes long and
   * whose replay got p of them through: the first p bytes of the log, then
   * everything logged since it connected.
   */
  predicate JoinedAt(x: seq<Byte>, log: seq<Byte>, j: nat, p: nat) {
    p <= j <= |log| && x == log[..p] + log[j..]
  }

  /** Writing the same chunk to the log and to a client keeps the client's place in the log. */
  lemma JoinedExtends(x: seq<Byte>, log: seq<Byte>, data: seq<Byte>, j: nat, p: nat)
    requires JoinedAt(x, log, j, p)
    ensures JoinedAt(x + data, log + data, j, p)
  {
    var y := log + data;
    assert y[..p] == log[..p];
    assert y[j..] == log[j..] + data;
  }

  /**
   * Every client the proxy keeps holds a prefix of the log as it was when
   * the client connected, followed by every byte logged since.
   */
  ghost predicate CaughtUp(cs: seq<Client>, log: seq<Byte>) {
    forall i :: 0 <= i < |cs| ==> Joined(cs[i].received, log)
  }

  ghost predicate Joined(x: seq<Byte>, log: seq<Byte>) {
    exists j: nat, p: nat :: JoinedAt(x, log, j, p)
  }

  /** A client whose replay got through completely holds exactly the log; one whose replay failed at once holds a suffix of it. */
  lemma JoinedExtremes(x: seq<Byte>, log: seq<Byte>, j: nat, p: nat)
    requires JoinedAt(x, log, j, p)
    ensures p == j ==> x == log
    ensures p == 0 ==> IsSuffix(x, log)
  {
    if p == j {
      assert log == log[..p] + log[j..];
    }
  }

  /** A broadcast of the chunk just logged keeps every client caught up. */
  lemma BroadcastKeepsCaughtUp(cs: seq<Client>, log: seq<Byte>, data: seq<Byte>, writeOk: nat -> bool)
    requires CaughtUp(cs, log)
    ensures CaughtUp(Broadcast(cs, data, writeOk), log + data)
  {
    BroadcastIsOrderedSubsequence(cs, data, writeOk);
    var ks := KeptPositions(cs, writeOk);
    var out := Broadcast(cs, data, writeOk);
    forall k | 0 <= k < |out|
      ensures Joined(out[k].received, log + data)
    {
      var c := cs[ks[k]];
      assert Joined(c.received, log);
      var j: nat, p: nat :| JoinedAt(c.received, log, j, p);
      JoinedExtends(c.received, log, data, j, p);
      assert out[k].received == c.received + data;
      assert JoinedAt(out[k].received, log + data, j, p);
    }
  }

  /** The proxy's state: the log file's contents since the last spawn and the connected clients. */
  class ConsoleProxy {
    var log: seq<Byte>
    var clients: seq<Client>

    ghost predicate Valid()
      reads this
    {
      CaughtUp(clients, log)
    }

    /** The loop starts on the log file `spawn` has just truncated, with no client. */
    constructor Start()
      ensures Valid() && log == [] && clients == []
    {
      log := [];
      clients := [];
    }

    /**
     * A new client connection: the existing log, when there is any, is
     * written to the non-blocking client socket, and the client goes to
     * the end of the list whether or not that write succeeds. `delivered`
     * is how many bytes of the log the write gets through before it
     * fails; a write that succeeds delivers the whole log.
     */
    method Accept(id: nat, delivered: nat)
      requires Valid()
      modifies this
      ensures Valid()
      ensures log == old(log)
      ensures clients == old(clients) + [Client(id, old(log)[..if delivered < |old(log)| then delivered else |old(log)|])]
      ensures delivered >= |log| ==> clients[|clients| - 1].received == log
    {
      var received: seq<Byte> := [];
      if |log| > 0 {
        received := log[..if delivered < |log| then delivered else |log|];
      }
      assert JoinedAt(received, log, |log|, |received|);
      ghost var before := clients;
      clients := clients + [Client(id, received)];
      forall i | 0 <= i < |clients|
        ensures Joined(clients[i].received, log)
      {
        if i < |before| {
          assert clients[i] == before[i];
        } else {
          assert clients[i].received == received;
          assert JoinedAt(clients[i].received, log, |log|, |received|);
        }
      }
    }

    /**
     * One read of the terminal. A chunk goes to the log first, then to
     * every client; clients whose write fails are dropped. Returns whether
     * the loop goes on: an empty read (the terminal closed) or a read
     * error ends it, a read with nothing ready changes nothing.
     */
    method Pump(r: TerminalRead, writeOk: nat -> bool) returns (more: bool)
      requires Valid()
      modifies this
      ensures Valid()
      ensures more <==> (r.Bytes? && r.data != []) || r.WouldBlock?
      ensures r.Bytes? && r.data != [] ==>
        log == old(log) + r.data && clients == Broadcast(old(clients), r.data, writeOk)
      ensures !(r.Bytes? && r.data != []) ==> log == old(log) && clients == old(clients)
    {
      match r
      case Failed => return false;
      case WouldBlock => return true;
      case Bytes(data) =>
        if data == [] {
          return false;
        }
        BroadcastKeepsCaughtUp(clients, log, data, writeOk);
        log := log + data;
        var kept: seq<Client> := [];
        var i := 0;
        while i < |clients|
          invariant 0 <= i <= |clients|
          invariant kept == Broadcast(clients[..i], data, writeOk)
        {
          assert clients[..i + 1][..i] == clients[..i];
          if writeOk(clients[i].id) {
            kept := kept + [Delivered(clients[i], data)];
          }
          i := i + 1;
        }
        assert clients[..i] == clients;
        clients := kept;
        return true;
    }
  }

  /** A client whose replay succeeded holds the whole log, and keeps holding it while it stays connected. */
  lemma ReplayedClientHoldsLog(cs: seq<Client>, log: seq<Byte>, data: seq<Byte>, writeOk: nat -> bool, i: nat)
    requires i < |cs| && cs[i].received == log
    requires forall j :: 0 <= j < |cs| && j != i ==> cs[j].id != cs[i].id
    requires writeOk(cs[i].id)
    ensures Client(cs[i].id, log + data) in Broadcast(cs, data, writeOk)
  {
    BroadcastMembership(cs, data, writeOk, i);
  }
}
