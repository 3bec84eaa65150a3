/**
 * The server's transport: one listening socket, one client slot, and the listen
 * thread's reassembly of length-prefixed frames out of a `pending` byte buffer.
 * Winsock calls are replaced by their outcomes, supplied by the caller.
 */
module ServerNet {
  import opened Wire

  /** A Winsock socket handle; `InvalidSocket` is `INVALID_SOCKET`. */
  datatype Socket = InvalidSocket | Socket(id: nat)

  /**
   * The outcome of one `recv`: `Received(data)` with `|data| > 0` delivers bytes,
   * `Received([])` is `recv` returning 0 (the peer closed), `RecvFailed` a negative return.
   */
  datatype RecvOutcome = Received(data: seq<Byte>) | RecvFailed

  /**
   * One `accept` and what follows it: `client` is the accepted socket
   * (`InvalidSocket` when `accept` failed) and `recvs` the outcomes of its `recv` calls.
   */
  datatype Connection = Connection(client: Socket, recvs: seq<RecvOutcome>)

  // ---------------------------------------------------------------------------
  // Reassembly specification
  // ---------------------------------------------------------------------------

  /** The completeness test the reassembly loop applies before cutting a frame. */
  predicate HasCompleteFrame(buf: seq<Byte>)
  {
    |buf| >= 4 && |buf| >= 4 + DeclaredLength(buf)
  }

  /** The frames cut from a buffer and what is left of it. */
  datatype Split = Split(payloads: seq<seq<Byte>>, rest: seq<Byte>)

  /** Cut whole frames off the front of `buf` until none is complete. */
  function SplitFrames(buf: seq<Byte>): Split
    decreases |buf|
  {
    if !HasCompleteFrame(buf) then Split([], buf)
    else
      var n := 4 + DeclaredLength(buf);
      var tail := SplitFrames(buf[n..]);
      Split([buf[4..n]] + tail.payloads, tail.rest)
  }

  /** The first payload cut is exactly the declared bytes after the prefix, and a frame is cut only when one is complete. */
  lemma {:induction false} SplitFramesFirst(buf: seq<Byte>)
    ensures SplitFrames(buf).payloads != [] <==> HasCompleteFrame(buf)
    ensures !HasCompleteFrame(buf) ==> SplitFrames(buf).rest == buf
    ensures HasCompleteFrame(buf) ==>
              SplitFrames(buf).payloads[0] == buf[4..4 + DeclaredLength(buf)] &&
              SplitFrames(buf).payloads[1..] == SplitFrames(buf[4 + DeclaredLength(buf)..]).payloads &&
              SplitFrames(buf).rest == SplitFrames(buf[4 + DeclaredLength(buf)..]).rest
  {
  }

  /** Nothing is lost, duplicated or reordered: re-prefixing the payloads and appending the rest gives the buffer back. */
  lemma {:induction false} SplitFramesConserves(buf: seq<Byte>)
    ensures Frames(SplitFrames(buf).payloads) + SplitFrames(buf).rest == buf
    decreases |buf|
  {
    if HasCompleteFrame(buf) {
      var n := 4 + DeclaredLength(buf);
      var p := buf[4..n];
      var tail := SplitFrames(buf[n..]);
      assert SplitFrames(buf) == Split([p] + tail.payloads, tail.rest);
      assert Frames([p] + tail.payloads) == Frame(p) + Frames(tail.payloads) by {
        var ps := [p] + tail.payloads;
        assert ps[0] == p && ps[1..] == tail.payloads;
      }
      assert Frame(p) + (Frames(tail.payloads) + tail.rest) == buf by {
        assert buf[..n] + buf[n..] == buf;
        SplitFramesConserves(buf[n..]);
        FrameOfDeclared(buf);
      }
      ConcatAssociates(Frame(p), Frames(tail.payloads), tail.rest);
    }
  }

  /** Every payload cut fits the 32-bit length field, so re-prefixing it is exact. */
  lemma {:induction false} SplitFramesFramable(buf: seq<Byte>)
    ensures Framable(SplitFrames(buf).payloads)
    decreases |buf|
  {
    if HasCompleteFrame(buf) {
      var n: int := 4 + DeclaredLength(buf);
      var tail := SplitFrames(buf[n..]);
      SplitFramesFramable(buf[n..]);
      var ps := SplitFrames(buf).payloads;
      assert ps == [buf[4..n]] + tail.payloads;
      forall i | 0 <= i < |ps| ensures |ps[i]| < U32_MODULUS {
        if i > 0 { assert ps[i] == tail.payloads[i - 1]; }
      }
    }
  }

  /** What remains after cutting holds no complete frame. */
  lemma {:induction false} SplitFramesLeavesNoFrame(buf: seq<Byte>)
    ensures !HasCompleteFrame(SplitFrames(buf).rest)
    decreases |buf|
  {
    if HasCompleteFrame(buf) {
      SplitFramesLeavesNoFrame(buf[4 + DeclaredLength(buf)..]);
    }
  }

  /** Frames packed back to back are cut apart again, in order, leaving a trailing partial frame alone. */
  lemma {:induction false} SplitFramesOfFrames(payloads: seq<seq<Byte>>, rest: seq<Byte>)
    requires Framable(payloads)
    requires !HasCompleteFrame(rest)
    ensures SplitFrames(Frames(payloads) + rest) == Split(payloads, rest)
  {
    if payloads != [] {
      var p := payloads[0];
      var tailBytes := Frames(payloads[1..]) + rest;
      FrameHeader(p, tailBytes);
      assert Frames(payloads) + rest == Frame(p) + tailBytes;
      SplitFramesOfFrames(payloads[1..], rest);
      assert [p] + payloads[1..] == payloads;
    }
  }

  /** A complete frame at the front stays complete, and the same, when bytes are appended. */
  lemma CompleteFrameExtends(buf: seq<Byte>, more: seq<Byte>)
    requires HasCompleteFrame(buf)
    ensures var n := 4 + DeclaredLength(buf);
            DeclaredLength(buf + more) == DeclaredLength(buf) && HasCompleteFrame(buf + more) &&
            (buf + more)[4..n] == buf[4..n] && (buf + more)[n..] == buf[n..] + more
  {
    assert (buf + more)[..4] == buf[..4];
  }

  /** Appending bytes never disturbs the frames already complete: they are cut first, then the rest is reassembled with the new bytes. */
  lemma {:induction false} SplitFramesAppend(buf: seq<Byte>, more: seq<Byte>)
    ensures var s := SplitFrames(buf);
            var t := SplitFrames(s.rest + more);
            SplitFrames(buf + more) == Split(s.payloads + t.payloads, t.rest)
    decreases |buf|
  {
    var s := SplitFrames(buf);
    if HasCompleteFrame(buf) {
      var n := 4 + DeclaredLength(buf);
      var whole := buf + more;
      CompleteFrameExtends(buf, more);
      var u := SplitFrames(buf[n..]);
      assert s == Split([buf[4..n]] + u.payloads, u.rest);
      SplitFramesAppend(buf[n..], more);
      var t := SplitFrames(u.rest + more);
      assert SplitFrames(whole) == Split([buf[4..n]] + (u.payloads + t.payloads), t.rest);
      ConcatAssociates([buf[4..n]], u.payloads, t.payloads);
    } else {
      assert s == Split([], buf);
      assert [] + SplitFrames(buf + more).payloads == SplitFrames(buf + more).payloads;
    }
  }

  /** All chunks, concatenated in order. */
  function Flatten(chunks: seq<seq<Byte>>): seq<Byte>
  {
    if chunks == [] then [] else chunks[0] + Flatten(chunks[1..])
  }

  /** Feed `chunks` to the reassembly loop one `recv` at a time, starting from `pending`. */
  function Reassemble(pending: seq<Byte>, chunks: seq<seq<Byte>>): Split
    decreases |chunks|
  {
    if chunks == [] then Split([], pending)
    else
      var s := SplitFrames(pending + chunks[0]);
      var t := Reassemble(s.rest, chunks[1..]);
      Split(s.payloads + t.payloads, t.rest)
  }

  /** Reassembling chunk by chunk is the same as cutting the whole stream at once. */
  lemma {:induction false} ReassembleIsSplit(pending: seq<Byte>, chunks: seq<seq<Byte>>)
    requires !HasCompleteFrame(pending)
    ensures Reassemble(pending, chunks) == SplitFrames(pending + Flatten(chunks))
    decreases |chunks|
  {
    if chunks == [] {
      assert pending + [] == pending;
    } else {
      var head := pending + chunks[0];
      var more := Flatten(chunks[1..]);
      ConcatAssociates(pending, chunks[0], more);
      var s := SplitFrames(head);
      SplitFramesLeavesNoFrame(head);
      ReassembleIsSplit(s.rest, chunks[1..]);
      SplitFramesAppend(head, more);
    }
  }

  /** Any two ways of splitting the same byte stream into `recv` chunks dispatch the same payloads in the same order. */
  lemma ChunkingInvariance(chunks1: seq<seq<Byte>>, chunks2: seq<seq<Byte>>)
    requires Flatten(chunks1) == Flatten(chunks2)
    ensures Reassemble([], chunks1) == Reassemble([], chunks2)
  {
    ReassembleIsSplit([], chunks1);
    ReassembleIsSplit([], chunks2);
  }

  /** A frame split at any byte boundary, the length prefix included, is dispatched once, whole. */
  lemma SplitDeliveryOfOneFrame(payload: seq<Byte>, k: nat)
    requires |payload| < U32_MODULUS
    requires k <= |Frame(payload)|
    ensures Reassemble([], [Frame(payload)[..k], Frame(payload)[k..]]) == Split([payload], [])
  {
    var f := Frame(payload);
    var chunks: seq<seq<Byte>> := [f[..k], f[k..]];
    assert [] + Flatten(chunks) == f by {
      FlattenPair(f[..k], f[k..]);
      assert f[..k] + f[k..] == f;
    }
    assert SplitFrames(f) == Split([payload], []) by {
      SplitFramesOfFrames([payload], []);
      FramesSingle(payload);
      assert Frames([payload]) + [] == f;
    }
    ReassembleIsSplit([], chunks);
  }

  /** The frames of one payload are its frame. */
  lemma FramesSingle(payload: seq<Byte>)
    ensures Frames([payload]) == Frame(payload)
  {
    assert [payload][1..] == [];
    assert Frame(payload) + [] == Frame(payload);
  }

  /** Two chunks flatten to their concatenation. */
  lemma FlattenPair(a: seq<Byte>, b: seq<Byte>)
    ensures Flatten([a, b]) == a + b
  {
    assert [a, b][1..] == [b];
    assert Flatten([b]) == b + [];
  }

  // ---------------------------------------------------------------------------
  // The 32-bit completeness check as written
  // ---------------------------------------------------------------------------

  /**
   * The check of network_server.cpp as written: `4 + msgLen` is computed in 32-bit
   * unsigned arithmetic before it is compared with the buffer size.
   */
  predicate WrappedCompleteFrame(buf: seq<Byte>)
  {
    |buf| >= 4 && |buf| >= (4 + DeclaredLength(buf)) % U32_MODULUS
  }

  /** The wrapped check differs from the intended one exactly for declared lengths of 2^32 - 4 and above. */
  lemma WrappedGuardDiffers(buf: seq<Byte>)
    requires |buf| >= 4
    ensures WrappedCompleteFrame(buf) <==> HasCompleteFrame(buf) || DeclaredLength(buf) >= U32_MODULUS - 4
  {
    var len := DeclaredLength(buf);
    if len >= U32_MODULUS - 4 {
      assert (4 + len) % U32_MODULUS == 4 + len - U32_MODULUS;
    } else {
      assert (4 + len) % U32_MODULUS == 4 + len;
    }
  }

  /** Four bytes declaring 0xFFFFFFFC pass the wrapped check although the frame's end lies 2^32 bytes past the buffer. */
  lemma WrappedGuardAdmitsShortBuffer()
    ensures var buf: seq<Byte> := [0xFC, 0xFF, 0xFF, 0xFF];
            WrappedCompleteFrame(buf) && 4 + DeclaredLength(buf) > |buf| && !HasCompleteFrame(buf)
  {
    var buf: seq<Byte> := [0xFC, 0xFF, 0xFF, 0xFF];
    assert buf[..4] == buf;
    assert DeclaredLength(buf) == 0xFFFF_FFFC;
  }

  // ---------------------------------------------------------------------------
  // The listen thread's session, as a specification
  // ---------------------------------------------------------------------------

  /** The bytes a session delivers: the data of its `recv` calls up to the first close or failure. */
  function SessionStream(recvs: seq<RecvOutcome>): seq<Byte>
  {
    if recvs == [] then []
    else match recvs[0]
      case Received(data) => if |data| > 0 then data + SessionStream(recvs[1..]) else []
      case RecvFailed => []
  }

  /** One step of `SessionStream` at position `j`. */
  lemma SessionStreamAt(recvs: seq<RecvOutcome>, j: nat)
    requires j < |recvs|
    ensures recvs[j].Received? && |recvs[j].data| > 0 ==>
              SessionStream(recvs[j..]) == recvs[j].data + SessionStream(recvs[j + 1..])
    ensures !(recvs[j].Received? && |recvs[j].data| > 0) ==> SessionStream(recvs[j..]) == []
  {
    assert recvs[j..][0] == recvs[j];
    assert recvs[j..][1..] == recvs[j + 1..];
  }

  /** The payloads one connection hands to the message handler (none when `accept` failed). */
  function ConnectionPayloads(c: Connection): seq<seq<Byte>>
  {
    if c.client == InvalidSocket then [] else SplitFrames(SessionStream(c.recvs)).payloads
  }

  /** The payloads a run of the listen thread hands to the message handler, connection after connection. */
  function ServedPayloads(script: seq<Connection>): seq<seq<Byte>>
  {
    if script == [] then []
    else ServedPayloads(script[..|script| - 1]) + ConnectionPayloads(script[|script| - 1])
  }

  /** The accepted client sockets, in order. */
  function AcceptedClients(script: seq<Connection>): seq<Socket>
  {
    if script == [] then []
    else
      var c := script[|script| - 1];
      AcceptedClients(script[..|script| - 1]) + (if c.client == InvalidSocket then [] else [c.client])
  }

  /** One more connection of the script adds its payloads and its accepted socket at the end. */
  lemma ScriptStep(script: seq<Connection>, i: nat)
    requires i < |script|
    ensures ServedPayloads(script[..i + 1]) == ServedPayloads(script[..i]) + ConnectionPayloads(script[i])
    ensures AcceptedClients(script[..i + 1]) ==
            AcceptedClients(script[..i]) + (if script[i].client == InvalidSocket then [] else [script[i].client])
    ensures script[i].client == InvalidSocket ==>
              ServedPayloads(script[..i + 1]) == ServedPayloads(script[..i]) &&
              AcceptedClients(script[..i + 1]) == AcceptedClients(script[..i])
  {
    assert script[..i + 1][..i] == script[..i];
    if script[i].client == InvalidSocket {
      assert ServedPayloads(script[..i]) + [] == ServedPayloads(script[..i]);
      assert AcceptedClients(script[..i]) + [] == AcceptedClients(script[..i]);
    }
  }

  /** The bytes `SendMessage` puts on the wire: the length prefix, then the body, each only if its `send` succeeds. */
  function Transmitted(connected: bool, message: seq<Byte>, prefixSent: bool, bodySent: bool): (t: seq<Byte>)
    ensures |t| <= |Frame(message)| && t == Frame(message)[..|t|]
    ensures t == [] <==> !connected || !prefixSent
    ensures |t| == |Frame(message)| <== connected && prefixSent && bodySent
  {
    if !connected || !prefixSent then []
    else if !bodySent then LeBytes(Truncate32(|message|))
    else Frame(message)
  }

  // ---------------------------------------------------------------------------
  // The server object
  // ---------------------------------------------------------------------------

  class NetworkServer {
    const port: int
    var running: bool
    var serverSocket: Socket
    var clientSocket: Socket
    /** Whether `SetMessageHandler` installed a handler. */
    var hasHandler: bool
    /** The listen thread's buffer of received bytes not yet cut into frames. */
    var pending: seq<Byte>
    /** The payloads handed to the message handler, in order. */
    var delivered: seq<seq<Byte>>
    /** The bytes `SendMessage` wrote to client sockets. */
    var written: seq<Byte>
    /** The client sockets passed to `closesocket`, in order. */
    var closedClients: seq<Socket>

    /** Between operations a stopped server holds no client. */
    ghost predicate Valid()
      reads this
    {
      !running ==> clientSocket == InvalidSocket
    }

    constructor (port: int)
      requires 0 <= port < 0x1_0000
      ensures Valid()
      ensures this.port == port && !running
      ensures serverSocket == InvalidSocket && clientSocket == InvalidSocket
      ensures !hasHandler && pending == [] && delivered == [] && written == [] && closedClients == []
    {
      this.port := port;
      running := false;
      serverSocket := InvalidSocket;
      clientSocket := InvalidSocket;
      hasHandler := false;
      pending := [];
      delivered := [];
      written := [];
      closedClients := [];
    }

    method SetMessageHandler()
      modifies this`hasHandler
      ensures hasHandler
    {
      hasHandler := true;
    }

    /** Close both sockets and forget them. */
    method Cleanup()
      modifies this`serverSocket, this`clientSocket, this`closedClients
      ensures serverSocket == InvalidSocket && clientSocket == InvalidSocket
      ensures closedClients == old(closedClients) + (if old(clientSocket) == InvalidSocket then [] else [old(clientSocket)])
    {
      if serverSocket != InvalidSocket {
        serverSocket := InvalidSocket;
      }
      if clientSocket != InvalidSocket {
        closedClients := closedClients + [clientSocket];
        clientSocket := InvalidSocket;
      }
    }

    /**
     * Start listening. `wsaStarted`, `created`, `optionsSet`, `bound` and `listening` are
     * the outcomes of `WSAStartup`, `socket`, `setsockopt`, `bind` and `listen`.
     */
    method Start(wsaStarted: bool, created: Socket, optionsSet: bool, bound: bool, listening: bool) returns (ok: bool)
      requires Valid()
      modifies this`running, this`serverSocket, this`clientSocket, this`closedClients
      ensures Valid()
      ensures old(running) ==> ok && running && unchanged(this)
      ensures !old(running) ==>
                (ok <==> wsaStarted && created != InvalidSocket && optionsSet && bound && listening)
      ensures !old(running) ==> running == ok && clientSocket == InvalidSocket && closedClients == old(closedClients)
      ensures !old(running) ==>
                serverSocket == (if wsaStarted && (ok || created == InvalidSocket) then created
                                 else if wsaStarted then InvalidSocket
                                 else old(serverSocket))
    {
      if running {
        return true;
      }
      if !wsaStarted {
        return false;
      }
      serverSocket := created;
      if serverSocket == InvalidSocket {
        return false;
      }
      if !optionsSet {
        Cleanup();
        return false;
      }
      if !bound {
        Cleanup();
        return false;
      }
      if !listening {
        Cleanup();
        return false;
      }
      running := true;
      return true;
    }

    /** Stop: clear the flag and close both sockets. */
    method Stop()
      modifies this`running, this`serverSocket, this`clientSocket, this`closedClients
      ensures Valid()
      ensures !running && serverSocket == InvalidSocket && clientSocket == InvalidSocket
      ensures closedClients == old(closedClients) + (if old(clientSocket) == InvalidSocket then [] else [old(clientSocket)])
    {
      running := false;
      if serverSocket != InvalidSocket {
        serverSocket := InvalidSocket;
      }
      if clientSocket != InvalidSocket {
        closedClients := closedClients + [clientSocket];
        clientSocket := InvalidSocket;
      }
    }

    /** Take the socket `accept` returned into the client slot, closing a previous client first. */
    method Accept(newClient: Socket)
      requires running
      modifies this`clientSocket, this`closedClients
      ensures Valid()
      ensures newClient == InvalidSocket ==> clientSocket == old(clientSocket) && closedClients == old(closedClients)
      ensures newClient != InvalidSocket ==> clientSocket == newClient
      ensures newClient != InvalidSocket ==>
                closedClients == old(closedClients) + (if old(clientSocket) == InvalidSocket then [] else [old(clientSocket)])
    {
      if newClient == InvalidSocket {
        return;
      }
      if clientSocket != InvalidSocket {
        closedClients := closedClients + [clientSocket];
      }
      clientSocket := newClient;
    }

    /**
     * Append one received chunk to `pending`, then cut every complete frame off its front
     * and hand each payload to the message handler.
     */
    method ReceiveChunk(chunk: seq<Byte>) returns (payloads: seq<seq<Byte>>)
      modifies this`pending, this`delivered
      ensures payloads == SplitFrames(old(pending) + chunk).payloads
      ensures pending == SplitFrames(old(pending) + chunk).rest
      ensures delivered == old(delivered) + (if hasHandler then payloads else [])
    {
      pending := pending + chunk;
      payloads := [];
      ghost var whole := pending;
      while true
        invariant SplitFrames(whole) == Split(payloads + SplitFrames(pending).payloads, SplitFrames(pending).rest)
        invariant delivered == old(delivered) + (if hasHandler then payloads else [])
        decreases |pending|
      {
        if |pending| < 4 {
          break;
        }
        var msgLen := LeValue(pending[..4]);
        // compared without 32-bit wrap-around (see WrappedCompleteFrame)
        if |pending| < 4 + msgLen as int {
          break;
        }
        var message := pending[4..4 + msgLen as int];
        ghost var later := SplitFrames(pending[4 + msgLen as int..]);
        assert SplitFrames(pending) == Split([message] + later.payloads, later.rest);
        ConcatAssociates(payloads, [message], later.payloads);
        pending := pending[4 + msgLen as int..];
        payloads := payloads + [message];
        if hasHandler {
          delivered := delivered + [message];
        }
      }
    }

    /** The end of a connection: close the client, empty the slot and the buffer. */
    method EndConnection()
      modifies this`clientSocket, this`closedClients, this`pending
      ensures Valid() && clientSocket == InvalidSocket && pending == []
      ensures closedClients == old(closedClients) + [old(clientSocket)]
    {
      closedClients := closedClients + [clientSocket];
      clientSocket := InvalidSocket;
      pending := [];
    }

    /**
     * The listen thread, run over the outcomes of its `accept` and `recv` calls while
     * `running` stays set. Each session reassembles its own stream from byte zero, and
     * the client slot is empty at every `accept`: the eviction branch never closes a live client.
     */
    method ListenThread(script: seq<Connection>)
      requires running && clientSocket == InvalidSocket
      modifies this`clientSocket, this`closedClients, this`pending, this`delivered
      ensures Valid() && clientSocket == InvalidSocket && pending == []
      ensures delivered == old(delivered) + (if hasHandler then ServedPayloads(script) else [])
      ensures closedClients == old(closedClients) + AcceptedClients(script)
    {
      pending := [];
      var i := 0;
      while running && i < |script|
        invariant 0 <= i <= |script|
        invariant clientSocket == InvalidSocket && pending == []
        invariant delivered == old(delivered) + (if hasHandler then ServedPayloads(script[..i]) else [])
        invariant closedClients == old(closedClients) + AcceptedClients(script[..i])
      {
        var conn := script[i];
        ScriptStep(script, i);
        if conn.client == InvalidSocket {
          // accept failed: try again
          i := i + 1;
          continue;
        }
        ConcatAssociates(old(delivered), ServedPayloads(script[..i]), ConnectionPayloads(conn));
        ConcatAssociates(old(closedClients), AcceptedClients(script[..i]), [conn.client]);
        ghost var closedBefore := closedClients;
        Accept(conn.client);
        assert closedClients == closedBefore;
        ServeConnection(conn);
        EndConnection();
        assert closedClients == closedBefore + [conn.client];
        i := i + 1;
      }
      assert script[..i] == script;
    }

    /** Pump one connection's `recv` outcomes into the reassembly until the peer closes or a read fails. */
    method ServeConnection(conn: Connection)
      requires running && clientSocket == conn.client && conn.client != InvalidSocket && pending == []
      modifies this`pending, this`delivered
      ensures Valid()
      ensures pending == SplitFrames(SessionStream(conn.recvs)).rest
      ensures delivered == old(delivered) + (if hasHandler then ConnectionPayloads(conn) else [])
    {
      var recvs := conn.recvs;
      var j := 0;
      ghost var seen: seq<Byte> := [];
      while running && clientSocket != InvalidSocket && j < |recvs|
        invariant 0 <= j <= |recvs|
        invariant SessionStream(recvs) == seen + SessionStream(recvs[j..])
        invariant pending == SplitFrames(seen).rest
        invariant delivered == old(delivered) + (if hasHandler then SplitFrames(seen).payloads else [])
        decreases |recvs| - j
      {
        SessionStreamAt(recvs, j);
        match recvs[j] {
        case Received(data) =>
          if |data| > 0 {
            ghost var before := SplitFrames(seen);
            ghost var after := SplitFrames(before.rest + data);
            SplitFramesAppend(seen, data);
            var payloads := ReceiveChunk(data);
            assert payloads == after.payloads;
            assert SplitFrames(seen + data).payloads == before.payloads + payloads;
            assert hasHandler ==> delivered == old(delivered) + before.payloads + payloads;
            assert old(delivered) + before.payloads + payloads == old(delivered) + (before.payloads + payloads);
            ghost var later := SessionStream(recvs[j + 1..]);
            ConcatAssociates(seen, data, later);
            assert pending == SplitFrames(seen + data).rest;
            assert delivered == old(delivered) + (if hasHandler then SplitFrames(seen + data).payloads else []);
            seen := seen + data;
          } else {
            // the peer closed the connection
            break;
          }
        case RecvFailed =>
          break;
        }
        j := j + 1;
      }
      assert SessionStream(recvs[j..]) == [];
      assert seen + [] == seen;
    }

    /**
     * Send one message to the client: the 4-byte length, then the body. `prefixSent` and
     * `bodySent` are whether each `send` succeeded.
     */
    method SendMessage(message: seq<Byte>, prefixSent: bool, bodySent: bool) returns (ok: bool)
      modifies this`written
      ensures ok <==> clientSocket != InvalidSocket && prefixSent && bodySent
      ensures written == old(written) + Transmitted(clientSocket != InvalidSocket, message, prefixSent, bodySent)
    {
      if clientSocket == InvalidSocket {
        return false;
      }
      var len := Truncate32(|message|);
      var prefix := LeBytes(len);
      if !prefixSent {
        return false;
      }
      written := written + prefix;
      if !bodySent {
        return false;
      }
      written := written + message;
      return true;
    }
  }
}
